/**
 * DNS blocklist lookups: the address's labels are reversed and each
 * configured zone is appended (section 2.1 of RFC 5782); any answer to the A
 * query for that name means "listed". Zones are asked in their fixed order and
 * the first listing ends the search.
 */
module Reputation {
  import opened Text
  import opened Dns

  const DNSBL_HOSTS: seq<string> := ["zen.spamhaus.org", "bl.spamcop.net"]

  /** `_reverse_ip`: `'.'.join(reversed(ip.split('.')))`. */
  function ReverseIp(ip: string): string
  {
    Join(Reverse(Split(ip, '.')), '.')
  }

  /** The labels of the reversed name are the address's labels, last first. */
  lemma ReverseIpLabels(ip: string)
    ensures Split(ReverseIp(ip), '.') == Reverse(Split(ip, '.'))
    ensures |Split(ReverseIp(ip), '.')| == |Split(ip, '.')|
  {
    var parts := Split(ip, '.');
    assert forall p :: p in Reverse(parts) ==> p in parts by {
      forall p | p in Reverse(parts) ensures p in parts {
        var i :| 0 <= i < |parts| && Reverse(parts)[i] == p;
        assert parts[|parts| - 1 - i] == p;
      }
    }
    SplitJoin(Reverse(parts), '.');
  }

  /** Reversing twice gives the address back. */
  lemma ReverseIpInvolution(ip: string)
    ensures ReverseIp(ReverseIp(ip)) == ip
  {
    ReverseIpLabels(ip);
    ReverseReverse(Split(ip, '.'));
    JoinSplit(ip, '.');
  }

  /** The name asked in one zone. */
  function DnsblQuery(reversedIp: string, zone: string): string
  {
    reversedIp + "." + zone
  }

  /** The position of the first zone that lists the address, `|zones|` when none does. */
  function FirstListing(reversedIp: string, zones: seq<string>, lookup: Lookup<string>): (k: nat)
    ensures k <= |zones|
    ensures forall j :: 0 <= j < k ==> !Resolves(lookup, DnsblQuery(reversedIp, zones[j]))
    ensures k < |zones| ==> Resolves(lookup, DnsblQuery(reversedIp, zones[k]))
  {
    if zones == [] then 0
    else if Resolves(lookup, DnsblQuery(reversedIp, zones[0])) then 0
    else 1 + FirstListing(reversedIp, zones[1..], lookup)
  }

  /** The names asked, in order: every zone up to and including the first listing. */
  function DnsblQueries(ip: string, lookup: Lookup<string>): seq<string>
  {
    var rev := ReverseIp(ip);
    var k := FirstListing(rev, DNSBL_HOSTS, lookup);
    var asked := if k < |DNSBL_HOSTS| then k + 1 else k;
    seq(asked, i requires 0 <= i < asked => DnsblQuery(rev, DNSBL_HOSTS[i]))
  }

  /** `lookup_dnsbl`. */
  predicate LookupDnsbl(ip: string, lookup: Lookup<string>)
  {
    FirstListing(ReverseIp(ip), DNSBL_HOSTS, lookup) < |DNSBL_HOSTS|
  }

  /**
   * Listed iff some zone answers; the first zone is always asked, and the
   * second only when the first did not answer.
   */
  lemma LookupDnsblMeaning(ip: string, lookup: Lookup<string>)
    ensures LookupDnsbl(ip, lookup) <==>
      exists i :: 0 <= i < |DNSBL_HOSTS| && Resolves(lookup, DnsblQuery(ReverseIp(ip), DNSBL_HOSTS[i]))
    ensures var q := DnsblQueries(ip, lookup);
      && 1 <= |q| <= 2
      && q[0] == DnsblQuery(ReverseIp(ip), "zen.spamhaus.org")
      && (|q| == 2 <==> !Resolves(lookup, q[0]))
      && (|q| == 2 ==> q[1] == DnsblQuery(ReverseIp(ip), "bl.spamcop.net"))
  {
    var rev := ReverseIp(ip);
    var p := zone => Resolves(lookup, DnsblQuery(rev, zone));
    var k := FirstListing(rev, DNSBL_HOSTS, lookup);
    if k == |DNSBL_HOSTS| {
      assert !p(DNSBL_HOSTS[0]) && !p(DNSBL_HOSTS[1]);
    }
  }

  /** Not listed by the first zone but listed by the second still counts as listed. */
  lemma SecondZoneListing(ip: string, lookup: Lookup<string>)
    requires !Resolves(lookup, DnsblQuery(ReverseIp(ip), "zen.spamhaus.org"))
    requires Resolves(lookup, DnsblQuery(ReverseIp(ip), "bl.spamcop.net"))
    ensures LookupDnsbl(ip, lookup)
  {
    LookupDnsblMeaning(ip, lookup);
    assert Resolves(lookup, DnsblQuery(ReverseIp(ip), DNSBL_HOSTS[1]));
  }

  /** When no zone answers, the address is not listed. */
  lemma NoZoneListing(ip: string, lookup: Lookup<string>)
    requires forall zone :: zone in DNSBL_HOSTS ==> !Resolves(lookup, DnsblQuery(ReverseIp(ip), zone))
    ensures !LookupDnsbl(ip, lookup)
  {
    LookupDnsblMeaning(ip, lookup);
  }
}
