/**
 * The domain registry: the fixed list of accelerated domains, each with
 * its ordered candidate IP addresses. The CLI and the desktop builds carry
 * textually identical copies of it.
 */
module Registry {
  import opened Wrappers

  /**
   * One accelerated domain. `bestIp` and `bestLatencyMs` are filled in by
   * the selector; the candidate order is the fallback priority.
   */
  datatype DomainEntry = DomainEntry(
    domain: string,
    candidateIps: seq<string>,
    bestIp: Option<string>,
    bestLatencyMs: Option<nat>)

  /** The characters that structure a hosts line: field separator, line break, comment start. */
  predicate IsHostsSyntax(c: char)
  {
    c == ' ' || c == '\n' || c == '#'
  }

  /**
   * A non-empty host name or address that can stand as one field of an
   * `ip domain` hosts line.
   */
  predicate IsHostToken(s: string)
  {
    |s| > 0 && forall k :: 0 <= k < |s| ==> !IsHostsSyntax(s[k])
  }

  /** A literal of known length is a host token when none of its characters is hosts syntax. */
  lemma HostTokenOfLength(s: string, n: nat)
    requires |s| == n && n > 0
    requires forall k :: 0 <= k < n ==> !IsHostsSyntax(s[k])
    ensures IsHostToken(s)
  {
  }

  /** The domain names of a registry are pairwise distinct. */
  ghost predicate DistinctDomains(reg: seq<DomainEntry>)
  {
    forall i, j :: 0 <= i < j < |reg| ==> reg[i].domain != reg[j].domain
  }

  /** The entry's domain and every candidate address are host tokens. */
  ghost predicate EntryTokens(e: DomainEntry)
  {
    IsHostToken(e.domain) && forall k :: 0 <= k < |e.candidateIps| ==> IsHostToken(e.candidateIps[k])
  }

  /** The registry shape the rest of the system relies on. */
  ghost predicate WellFormedRegistry(reg: seq<DomainEntry>)
  {
    && |reg| > 0
    && DistinctDomains(reg)
    && (forall i :: 0 <= i < |reg| ==> |reg[i].candidateIps| > 0)
    && (forall i :: 0 <= i < |reg| ==> reg[i].bestIp.None? && reg[i].bestLatencyMs.None?)
    && (forall i :: 0 <= i < |reg| ==> EntryTokens(reg[i]))
  }

  /** `get_domain_candidates`: the thirteen GitHub domains and their candidate IPs, in order. */
  function Candidates(): (reg: seq<DomainEntry>)
    ensures |reg| == 13 && reg[0].domain == "github.com"
    ensures forall i :: 0 <= i < |reg| ==> |reg[i].candidateIps| > 0
    ensures forall i :: 0 <= i < |reg| ==> reg[i].bestIp.None? && reg[i].bestLatencyMs.None?
    ensures forall i :: 0 <= i < |reg| ==> EntryTokens(reg[i])
  {
    [
      EntryGithubCom(),
      EntryApiGithubCom(),
      EntryGistGithubCom(),
      EntryRawGithubusercontentCom(),
      EntryCodeloadGithubCom(),
      EntryGithubGithubassetsCom(),
      EntryAssetsCdnGithubCom(),
      EntryCloudGithubusercontentCom(),
      EntryAvatarsGithubusercontentCom(),
      EntryGithubGlobalSslFastlyNet(),
      EntryGithubstatusCom(),
      EntryCollectorGithubCom(),
      EntryObjectsGithubusercontentCom()
    ]
  }

  /** No domain is listed twice, so the per-domain scan results never collide. */
  lemma CandidateDomainsDistinct()
    ensures DistinctDomains(Candidates())
  {
  }

  /** The registry satisfies every shape property the scan and the hosts editors rely on. */
  lemma CandidatesWellFormed()
    ensures WellFormedRegistry(Candidates())
  {
    CandidateDomainsDistinct();
  }

  // The registry entries, one per domain, in the order of the list above.

  function EntryGithubCom(): (e: DomainEntry)
    ensures EntryTokens(e)
  {
    HostTokenOfLength("github.com", 10);
    HostTokenOfLength("140.82.112.4", 12);
    HostTokenOfLength("140.82.113.4", 12);
    HostTokenOfLength("140.82.114.4", 12);
    HostTokenOfLength("20.205.243.166", 14);
    HostTokenOfLength("20.27.177.113", 13);
    DomainEntry("github.com", ["140.82.112.4", "140.82.113.4", "140.82.114.4", "20.205.243.166", "20.27.177.113"], None, None)
  }

  function EntryApiGithubCom(): (e: DomainEntry)
    ensures EntryTokens(e)
  {
    HostTokenOfLength("api.github.com", 14);
    HostTokenOfLength("140.82.112.6", 12);
    HostTokenOfLength("140.82.113.6", 12);
    HostTokenOfLength("140.82.114.6", 12);
    HostTokenOfLength("20.205.243.168", 14);
    DomainEntry("api.github.com", ["140.82.112.6", "140.82.113.6", "140.82.114.6", "20.205.243.168"], None, None)
  }

  function EntryGistGithubCom(): (e: DomainEntry)
    ensures EntryTokens(e)
  {
    HostTokenOfLength("gist.github.com", 15);
    HostTokenOfLength("140.82.112.4", 12);
    HostTokenOfLength("140.82.113.4", 12);
    HostTokenOfLength("140.82.114.4", 12);
    DomainEntry("gist.github.com", ["140.82.112.4", "140.82.113.4", "140.82.114.4"], None, None)
  }

  function EntryRawGithubusercontentCom(): (e: DomainEntry)
    ensures EntryTokens(e)
  {
    HostTokenOfLength("raw.githubusercontent.com", 25);
    HostTokenOfLength("185.199.108.133", 15);
    HostTokenOfLength("185.199.109.133", 15);
    HostTokenOfLength("185.199.110.133", 15);
    HostTokenOfLength("185.199.111.133", 15);
    DomainEntry("raw.githubusercontent.com", ["185.199.108.133", "185.199.109.133", "185.199.110.133", "185.199.111.133"], None, None)
  }

  function EntryCodeloadGithubCom(): (e: DomainEntry)
    ensures EntryTokens(e)
  {
    HostTokenOfLength("codeload.github.com", 19);
    HostTokenOfLength("140.82.112.10", 13);
    HostTokenOfLength("140.82.113.10", 13);
    HostTokenOfLength("140.82.114.10", 13);
    DomainEntry("codeload.github.com", ["140.82.112.10", "140.82.113.10", "140.82.114.10"], None, None)
  }

  function EntryGithubGithubassetsCom(): (e: DomainEntry)
    ensures EntryTokens(e)
  {
    HostTokenOfLength("github.githubassets.com", 23);
    HostTokenOfLength("185.199.108.154", 15);
    HostTokenOfLength("185.199.109.154", 15);
    HostTokenOfLength("185.199.110.154", 15);
    HostTokenOfLength("185.199.111.154", 15);
    DomainEntry("github.githubassets.com", ["185.199.108.154", "185.199.109.154", "185.199.110.154", "185.199.111.154"], None, None)
  }

  function EntryAssetsCdnGithubCom(): (e: DomainEntry)
    ensures EntryTokens(e)
  {
    HostTokenOfLength("assets-cdn.github.com", 21);
    HostTokenOfLength("185.199.108.153", 15);
    HostTokenOfLength("185.199.109.153", 15);
    HostTokenOfLength("185.199.110.153", 15);
    HostTokenOfLength("185.199.111.153", 15);
    DomainEntry("assets-cdn.github.com", ["185.199.108.153", "185.199.109.153", "185.199.110.153", "185.199.111.153"], None, None)
  }

  function EntryCloudGithubusercontentCom(): (e: DomainEntry)
    ensures EntryTokens(e)
  {
    HostTokenOfLength("cloud.githubusercontent.com", 27);
    HostTokenOfLength("185.199.108.133", 15);
    HostTokenOfLength("185.199.109.133", 15);
    HostTokenOfLength("185.199.110.133", 15);
    HostTokenOfLength("185.199.111.133", 15);
    DomainEntry("cloud.githubusercontent.com", ["185.199.108.133", "185.199.109.133", "185.199.110.133", "185.199.111.133"], None, None)
  }

  function EntryAvatarsGithubusercontentCom(): (e: DomainEntry)
    ensures EntryTokens(e)
  {
    HostTokenOfLength("avatars.githubusercontent.com", 29);
    HostTokenOfLength("185.199.108.133", 15);
    HostTokenOfLength("185.199.109.133", 15);
    HostTokenOfLength("185.199.110.133", 15);
    HostTokenOfLength("185.199.111.133", 15);
    DomainEntry("avatars.githubusercontent.com", ["185.199.108.133", "185.199.109.133", "185.199.110.133", "185.199.111.133"], None, None)
  }

  function EntryGithubGlobalSslFastlyNet(): (e: DomainEntry)
    ensures EntryTokens(e)
  {
    HostTokenOfLength("github.global.ssl.fastly.net", 28);
    HostTokenOfLength("199.232.69.194", 14);
    HostTokenOfLength("151.101.1.194", 13);
    HostTokenOfLength("151.101.65.194", 14);
    HostTokenOfLength("151.101.129.194", 15);
    DomainEntry("github.global.ssl.fastly.net", ["199.232.69.194", "151.101.1.194", "151.101.65.194", "151.101.129.194"], None, None)
  }

  function EntryGithubstatusCom(): (e: DomainEntry)
    ensures EntryTokens(e)
  {
    HostTokenOfLength("githubstatus.com", 16);
    HostTokenOfLength("185.199.108.153", 15);
    HostTokenOfLength("185.199.109.153", 15);
    HostTokenOfLength("185.199.110.153", 15);
    HostTokenOfLength("185.199.111.153", 15);
    DomainEntry("githubstatus.com", ["185.199.108.153", "185.199.109.153", "185.199.110.153", "185.199.111.153"], None, None)
  }

  function EntryCollectorGithubCom(): (e: DomainEntry)
    ensures EntryTokens(e)
  {
    HostTokenOfLength("collector.github.com", 20);
    HostTokenOfLength("140.82.112.22", 13);
    HostTokenOfLength("140.82.113.22", 13);
    HostTokenOfLength("140.82.114.22", 13);
    DomainEntry("collector.github.com", ["140.82.112.22", "140.82.113.22", "140.82.114.22"], None, None)
  }

  function EntryObjectsGithubusercontentCom(): (e: DomainEntry)
    ensures EntryTokens(e)
  {
    HostTokenOfLength("objects.githubusercontent.com", 29);
    HostTokenOfLength("185.199.108.133", 15);
    HostTokenOfLength("185.199.109.133", 15);
    HostTokenOfLength("185.199.110.133", 15);
    HostTokenOfLength("185.199.111.133", 15);
    DomainEntry("objects.githubusercontent.com", ["185.199.108.133", "185.199.109.133", "185.199.110.133", "185.199.111.133"], None, None)
  }
}
