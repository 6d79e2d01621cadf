/**
 * Sender-authentication checks over TXT answers: SPF (a record starting with
 * `v=spf1`, section 4.5 of RFC 7208), DMARC (a `v=dmarc1` record at
 * `_dmarc.<domain>`, section 6.1 of RFC 7489) and a best-effort DKIM probe
 * over a fixed list of common selectors under `_domainkey` (section 3.6.2.1 of
 * RFC 6376). The resolver is the lookup function passed in.
 */
module DnsUtils {
  import opened Wrappers
  import opened Text
  import opened Dns

  /** A TXT lookup: each record is its sequence of character-strings. */
  type TxtLookup = Lookup<seq<string>>

  /** `b"".join(r.strings)`: the character-strings of one record, in order. */
  function Concat(segments: seq<string>): string
  {
    if segments == [] then [] else segments[0] + Concat(segments[1..])
  }

  /** Concatenation forgets where a record was cut into character-strings. */
  lemma {:induction false} ConcatSplitAnywhere(segments: seq<string>, k: nat, cut: nat)
    requires k < |segments| && cut <= |segments[k]|
    ensures Concat(segments[..k] + [segments[k][..cut], segments[k][cut..]] + segments[k + 1..]) == Concat(segments)
  {
    var split := segments[..k] + [segments[k][..cut], segments[k][cut..]] + segments[k + 1..];
    if k == 0 {
      assert split[1..][1..] == segments[1..];
      assert segments[0][..cut] + segments[0][cut..] == segments[0];
    } else {
      ConcatSplitAnywhere(segments[1..], k - 1, cut);
      assert split[1..] == segments[1..][..k - 1] + [segments[1..][k - 1][..cut], segments[1..][k - 1][cut..]] + segments[1..][k..];
    }
  }

  /**
   * `_safe_txt_query`: one string per record, each the concatenation of that
   * record's character-strings; `None` when the lookup raised.
   */
  function SafeTxtQuery(name: string, lookup: TxtLookup): (r: Option<seq<string>>)
    ensures r.Some? <==> Resolves(lookup, name)
    ensures r.Some? ==> |r.value| == |lookup(name).rrs| > 0
    ensures r.Some? ==> forall i :: 0 <= i < |r.value| ==> r.value[i] == Concat(lookup(name).rrs[i])
  {
    match Resolve(lookup, name)
    case Answer(rrs) => Some(seq(|rrs|, i requires 0 <= i < |rrs| => Concat(rrs[i])))
    case _ => None
  }

  /** `if not records`: no answer at all, or an empty list. */
  predicate NoRecords(records: Option<seq<string>>)
  {
    records.None? || |records.value| == 0
  }

  predicate IsSpfRecord(r: string)
  {
    StartsWith(Lower(r), "v=spf1")
  }

  predicate IsDmarcRecord(r: string)
  {
    Contains(Lower(r), "v=dmarc1")
  }

  predicate IsDkimRecord(r: string)
  {
    Contains(Lower(r), "v=dkim1")
  }

  /** Some record of a non-empty answer satisfies `p`. */
  predicate AnyRecord(records: Option<seq<string>>, p: string -> bool)
  {
    !NoRecords(records) && Any(records.value, p)
  }

  /** `has_spf`. */
  predicate HasSpf(domain: string, lookup: TxtLookup)
  {
    AnyRecord(SafeTxtQuery(domain, lookup), IsSpfRecord)
  }

  /** The name `has_dmarc` asks for. */
  function DmarcName(domain: string): string
  {
    "_dmarc." + domain
  }

  /** `has_dmarc`. */
  predicate HasDmarc(domain: string, lookup: TxtLookup)
  {
    AnyRecord(SafeTxtQuery(DmarcName(domain), lookup), IsDmarcRecord)
  }

  const DKIM_SELECTORS: seq<string> := ["selector1", "selector2", "default", "dkim", "google", "mail"]

  function DkimName(selector: string, domain: string): string
  {
    selector + "._domainkey." + domain
  }

  /** The selector publishes a record containing `v=dkim1`. */
  predicate DkimPublished(selector: string, domain: string, lookup: TxtLookup)
  {
    AnyRecord(SafeTxtQuery(DkimName(selector, domain), lookup), IsDkimRecord)
  }

  /** The position of the first selector that publishes a DKIM key, 6 when none does. */
  function DkimHit(domain: string, lookup: TxtLookup): nat
  {
    FirstWhere(DKIM_SELECTORS, sel => DkimPublished(sel, domain, lookup))
  }

  /** `has_dkim`. */
  predicate HasDkim(domain: string, lookup: TxtLookup)
  {
    DkimHit(domain, lookup) < |DKIM_SELECTORS|
  }

  /** The names `has_dkim` queries, in order: up to and including the first hit. */
  function DkimQueries(domain: string, lookup: TxtLookup): seq<string>
  {
    var k := DkimHit(domain, lookup);
    var asked := if k < |DKIM_SELECTORS| then k + 1 else k;
    seq(asked, i requires 0 <= i < asked => DkimName(DKIM_SELECTORS[i], domain))
  }

  /** SPF: false on a failed or empty answer, otherwise some record starts with `v=spf1` in any case. */
  lemma HasSpfMeaning(domain: string, lookup: TxtLookup)
    ensures HasSpf(domain, lookup) <==>
      && Resolves(lookup, domain)
      && exists i :: 0 <= i < |lookup(domain).rrs| && StartsWith(Lower(Concat(lookup(domain).rrs[i])), "v=spf1")
  {
    var q := SafeTxtQuery(domain, lookup);
    if q.Some? {
      AnyExists(q.value, IsSpfRecord);
    }
  }

  /** DMARC: exactly the name `_dmarc.<domain>` is asked, and some record contains `v=dmarc1`. */
  lemma HasDmarcMeaning(domain: string, lookup: TxtLookup, other: TxtLookup)
    ensures HasDmarc(domain, lookup) <==>
      && Resolves(lookup, "_dmarc." + domain)
      && exists i :: 0 <= i < |lookup("_dmarc." + domain).rrs| &&
           Contains(Lower(Concat(lookup("_dmarc." + domain).rrs[i])), "v=dmarc1")
    ensures other("_dmarc." + domain) == lookup("_dmarc." + domain) ==> HasDmarc(domain, other) == HasDmarc(domain, lookup)
  {
    var q := SafeTxtQuery(DmarcName(domain), lookup);
    if q.Some? {
      AnyExists(q.value, IsDmarcRecord);
    }
  }

  /**
   * DKIM: true iff one of the six selectors publishes a key, and the
   * selectors are asked in their fixed order, stopping at the first hit.
   */
  lemma HasDkimMeaning(domain: string, lookup: TxtLookup)
    ensures HasDkim(domain, lookup) <==>
      exists i :: 0 <= i < |DKIM_SELECTORS| && DkimPublished(DKIM_SELECTORS[i], domain, lookup)
    ensures var q := DkimQueries(domain, lookup);
      && 1 <= |q| <= 6
      && (forall i :: 0 <= i < |q| ==> q[i] == DkimName(DKIM_SELECTORS[i], domain))
      && (forall i :: 0 <= i < |q| - 1 ==> !DkimPublished(DKIM_SELECTORS[i], domain, lookup))
      && (HasDkim(domain, lookup) <==> DkimPublished(DKIM_SELECTORS[|q| - 1], domain, lookup))
  {
    var p := sel => DkimPublished(sel, domain, lookup);
    var k := DkimHit(domain, lookup);
    if k == |DKIM_SELECTORS| {
      assert !p(DKIM_SELECTORS[5]);
    }
  }

  /**
   * Only the names `has_dkim` queries matter: another resolver that agrees on
   * them gives the same answer and is asked the same names.
   */
  lemma DkimReadsOnlyQueried(domain: string, lookup: TxtLookup, other: TxtLookup)
    requires forall name :: name in DkimQueries(domain, lookup) ==> other(name) == lookup(name)
    ensures DkimHit(domain, other) == DkimHit(domain, lookup)
    ensures HasDkim(domain, other) == HasDkim(domain, lookup)
    ensures DkimQueries(domain, other) == DkimQueries(domain, lookup)
  {
    var k := DkimHit(domain, lookup);
    var q := DkimQueries(domain, lookup);
    forall i | 0 <= i < |q|
      ensures DkimPublished(DKIM_SELECTORS[i], domain, other) == DkimPublished(DKIM_SELECTORS[i], domain, lookup)
    {
      assert q[i] in q;
    }
  }

  /** The three flags `check_auth_protocols` reports. */
  datatype AuthFlags = AuthFlags(spf: bool, dkim: bool, dmarc: bool)

  /** Some record of the answer for `name`, its strings joined and lower-cased, contains `marker`. */
  predicate TxtMentions(lookup: TxtLookup, name: string, marker: string)
  {
    Resolves(lookup, name) && exists i :: 0 <= i < |lookup(name).rrs| && Contains(Lower(Concat(lookup(name).rrs[i])), marker)
  }

  /** A selector publishes a DKIM key exactly when its `_domainkey` name mentions `v=dkim1`. */
  lemma DkimPublishedMeaning(selector: string, domain: string, lookup: TxtLookup)
    ensures DkimPublished(selector, domain, lookup) <==> TxtMentions(lookup, DkimName(selector, domain), "v=dkim1")
  {
    var q := SafeTxtQuery(DkimName(selector, domain), lookup);
    if q.Some? {
      AnyExists(q.value, IsDkimRecord);
    }
  }

  /**
   * `check_auth_protocols`, each flag read off the raw TXT answers: SPF when
   * a record of the domain starts with `v=spf1`, DKIM when one of the six
   * selector names mentions `v=dkim1`, DMARC when `_dmarc.<domain>` mentions
   * `v=dmarc1`, all ignoring case.
   */
  function CheckAuthProtocols(domain: string, lookup: TxtLookup): (flags: AuthFlags)
    ensures flags.spf <==>
      Resolves(lookup, domain)
      && exists i :: 0 <= i < |lookup(domain).rrs| && StartsWith(Lower(Concat(lookup(domain).rrs[i])), "v=spf1")
    ensures flags.dkim <==>
      exists k :: 0 <= k < |DKIM_SELECTORS| && TxtMentions(lookup, DKIM_SELECTORS[k] + "._domainkey." + domain, "v=dkim1")
    ensures flags.dmarc <==> TxtMentions(lookup, "_dmarc." + domain, "v=dmarc1")
  {
    HasSpfMeaning(domain, lookup);
    HasDmarcMeaning(domain, lookup, lookup);
    HasDkimMeaning(domain, lookup);
    DkimSelectorsMeaning(domain, lookup);
    AuthFlags(HasSpf(domain, lookup), HasDkim(domain, lookup), HasDmarc(domain, lookup))
  }

  /** `has_dkim` through the raw answers of the six selector names. */
  lemma DkimSelectorsMeaning(domain: string, lookup: TxtLookup)
    ensures HasDkim(domain, lookup) <==>
      exists k :: 0 <= k < |DKIM_SELECTORS| && TxtMentions(lookup, DKIM_SELECTORS[k] + "._domainkey." + domain, "v=dkim1")
  {
    HasDkimMeaning(domain, lookup);
    forall k | 0 <= k < |DKIM_SELECTORS|
      ensures DkimPublished(DKIM_SELECTORS[k], domain, lookup) <==>
        TxtMentions(lookup, DKIM_SELECTORS[k] + "._domainkey." + domain, "v=dkim1")
    {
      DkimPublishedMeaning(DKIM_SELECTORS[k], domain, lookup);
    }
  }
}
