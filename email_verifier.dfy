/**
 * The verification steps of the pipeline: the cached record lookup behind the
 * MX-or-A check, the SMTP mailbox probe over the domain's exchangers, the
 * disposable-domain test and the DNSBL reputation of the exchangers. Every
 * network answer is an input: DNS lookups are lookup functions, and for each
 * exchanger `connect(host, transport)` says how opening that connection ended
 * and `session(host, transport)` how the EHLO/MAIL/RCPT/QUIT exchange over it
 * ended, for the address being verified.
 */
module EmailVerifier {
  import opened Wrappers
  import opened Text
  import opened Dns
  import opened GreylistDb
  import opened Reputation
  import DisposableCache

  /** How long a cached answer short-cuts `query_dns`, in seconds. */
  const CACHE_TTL: int := 600

  /** The `retry_delay` `verify_email` stores with a deferred address. */
  const GREYLIST_RETRY_DELAY: int := 600

  /** The cached resolver's answer to a name and a record type. */
  type TypedLookup = (string, RecordType) -> Response<string>

  /** The resolver cache: the time each (name, type) answer was fetched. */
  type DnsCache = map<(string, RecordType), int>

  /** The name `query_dns` asks: the domain itself for MX, the domain with a trailing dot otherwise. */
  function RecordName(t: RecordType, domain: string): string
  {
    if t == MX then domain else domain + "."
  }

  /** The resolver returns an answer for `name` and `t` without raising. */
  predicate Answers(lookup: TypedLookup, name: string, t: RecordType)
  {
    Resolves((n: string) => lookup(n, t), name)
  }

  /** A cached answer for `key` younger than the TTL. */
  predicate FreshHit(cache: DnsCache, key: (string, RecordType), now: int)
  {
    key in cache && now - cache[key] < CACHE_TTL
  }

  /** What `query_dns(t, domain)` returns: a fresh cache hit, or a fresh query that answered. */
  predicate QueryDnsResult(cache: DnsCache, t: RecordType, domain: string, now: int, lookup: TypedLookup)
  {
    var name := RecordName(t, domain);
    FreshHit(cache, (name, t), now) || Answers(lookup, name, t)
  }

  /** The cache after `query_dns`: a fresh query that answered is stored as fetched now. */
  function CacheAfterQuery(cache: DnsCache, t: RecordType, domain: string, now: int, lookup: TypedLookup): DnsCache
  {
    var key := (RecordName(t, domain), t);
    if !FreshHit(cache, key, now) && Answers(lookup, key.0, t) then cache[key := now] else cache
  }

  /**
   * `query_dns` never raises: it is true exactly when the (name, type) entry
   * is fresh or the query answered, and then that entry is fresh afterwards;
   * when false, nothing was cached. A fresh hit answers without consulting the
   * resolver, and the cache is only ever written at the asked key.
   */
  lemma QueryDnsMeaning(cache: DnsCache, t: RecordType, domain: string, now: int, lookup: TypedLookup, other: TypedLookup)
    ensures var key, after := (RecordName(t, domain), t), CacheAfterQuery(cache, t, domain, now, lookup);
      && (QueryDnsResult(cache, t, domain, now, lookup) <==> FreshHit(cache, key, now) || Answers(lookup, key.0, t))
      && (QueryDnsResult(cache, t, domain, now, lookup) ==> FreshHit(after, key, now))
      && (!QueryDnsResult(cache, t, domain, now, lookup) ==> after == cache)
      && (FreshHit(cache, key, now) ==> QueryDnsResult(cache, t, domain, now, other) && CacheAfterQuery(cache, t, domain, now, other) == cache)
      && (forall k :: k != key ==> (k in after <==> k in cache) && (k in cache ==> after[k] == cache[k]))
  {
  }

  /** Only the NXDOMAIN, NoAnswer, timeout and other failures of a fresh query give false. */
  lemma QueryDnsFailure(cache: DnsCache, t: RecordType, domain: string, now: int, lookup: TypedLookup)
    requires !FreshHit(cache, (RecordName(t, domain), t), now)
    ensures var r := lookup(RecordName(t, domain), t);
      !QueryDnsResult(cache, t, domain, now, lookup) <==>
        r.NxDomain? || r.NoAnswer? || r.Timeout? || r.OtherError? || r == Answer([])
  {
  }

  /** The MX query and the A query use different cache entries, so their order does not matter. */
  lemma QueryKeysIndependent(cache: DnsCache, domain: string, now: int, lookup: TypedLookup)
    ensures QueryDnsResult(CacheAfterQuery(cache, MX, domain, now, lookup), A, domain, now, lookup)
      == QueryDnsResult(cache, A, domain, now, lookup)
    ensures QueryDnsResult(CacheAfterQuery(cache, A, domain, now, lookup), MX, domain, now, lookup)
      == QueryDnsResult(cache, MX, domain, now, lookup)
  {
    QueryDnsMeaning(cache, MX, domain, now, lookup, lookup);
    QueryDnsMeaning(cache, A, domain, now, lookup, lookup);
  }

  /** `has_valid_mx_record(domain)`: `query_dns('MX', domain) or query_dns('A', domain)`. */
  predicate HasValidMx(cache: DnsCache, domain: string, now: int, lookup: TypedLookup)
  {
    QueryDnsResult(cache, MX, domain, now, lookup) || QueryDnsResult(cache, A, domain, now, lookup)
  }

  /** A domain is accepted by an MX record or, failing that, by an address record of its own. */
  lemma HasValidMxMeaning(cache: DnsCache, domain: string, now: int, lookup: TypedLookup)
    ensures HasValidMx(cache, domain, now, lookup) <==>
      || FreshHit(cache, (domain, MX), now) || Answers(lookup, domain, MX)
      || FreshHit(cache, (domain + ".", A), now) || Answers(lookup, domain + ".", A)
    ensures Answers(lookup, domain + ".", A) ==> HasValidMx(cache, domain, now, lookup)
  {
  }

  /** The module-level resolver of `source_code.py` with its answer cache. */
  class DnsResolver {
    var cache: DnsCache

    constructor ()
      ensures cache == map[]
    {
      cache := map[];
    }

    /** `query_dns(record_type, domain)`. */
    method QueryDns(t: RecordType, domain: string, now: int, lookup: TypedLookup) returns (found: bool)
      modifies this
      ensures found == QueryDnsResult(old(cache), t, domain, now, lookup)
      ensures cache == CacheAfterQuery(old(cache), t, domain, now, lookup)
    {
      var name := RecordName(t, domain);
      if (name, t) in cache && now - cache[(name, t)] < CACHE_TTL {
        return true;
      }
      var response := lookup(name, t);
      match response {
        case Answer(rrs) =>
          if |rrs| == 0 {
            return false;
          }
          cache := cache[(name, t) := now];
          return true;
        case _ =>
          return false;
      }
    }

    /**
     * `has_valid_mx_record(domain)`. The source runs both queries on their own
     * threads; they touch different cache entries, so running them one after
     * the other gives the same results and the same cache.
     */
    method HasValidMxRecord(domain: string, now: int, lookup: TypedLookup) returns (valid: bool)
      modifies this
      ensures valid == HasValidMx(old(cache), domain, now, lookup)
      ensures cache == CacheAfterQuery(CacheAfterQuery(old(cache), MX, domain, now, lookup), A, domain, now, lookup)
    {
      ghost var before := cache;
      var mxResult := QueryDns(MX, domain, now, lookup);
      var aResult := QueryDns(A, domain, now, lookup);
      QueryKeysIndependent(before, domain, now, lookup);
      valid := mxResult || aResult;
    }
  }

  /** The connections `verify_email` opens, in the order it tries them. */
  datatype Transport = Submission587StartTls | Smtp25 | Smtps465

  const TRANSPORT_ORDER: seq<Transport> := [Submission587StartTls, Smtp25, Smtps465]

  /**
   * How opening a connection ended: connected, an `OSError` (which covers
   * `socket.gaierror`, `SMTPConnectError` and a failed STARTTLS), or another
   * exception.
   */
  datatype Connect = Connected | OsError | OtherFailure

  type Connector = (string, Transport) -> Connect

  /** How the exchange over an open connection ended: the RCPT reply code, or an exception. */
  datatype Session = RcptCode(code: int) | SessionError

  type Sessions = (string, Transport) -> Session

  /** The connection `verify_email` ends up with on `host`, if any. */
  function ChooseTransport(connect: Connector, host: string): Option<Transport>
  {
    match connect(host, Submission587StartTls)
    case Connected => Some(Submission587StartTls)
    case OtherFailure => None
    case OsError =>
      match connect(host, Smtp25)
      case Connected => Some(Smtp25)
      case OtherFailure => None
      case OsError => if connect(host, Smtps465) == Connected then Some(Smtps465) else None
  }

  /**
   * Transports are tried in the fixed order 587 with STARTTLS, 25, 465, the
   * next one only after an `OSError`: the first one that did not raise it is
   * used if it connected, and none is used otherwise.
   */
  lemma ChooseTransportInOrder(connect: Connector, host: string)
    ensures var k := FirstWhere(TRANSPORT_ORDER, t => connect(host, t) != OsError);
      ChooseTransport(connect, host) ==
        if k < |TRANSPORT_ORDER| && connect(host, TRANSPORT_ORDER[k]) == Connected then Some(TRANSPORT_ORDER[k]) else None
  {
    var p := t => connect(host, t) != OsError;
    assert TRANSPORT_ORDER[1..] == [Smtp25, Smtps465];
    assert TRANSPORT_ORDER[1..][1..] == [Smtps465];
    assert TRANSPORT_ORDER[1..][1..][1..] == [];
  }

  /** What one exchanger's RCPT reply decides. */
  datatype HostResult = Accepts | Defers | NoDecision

  /** Section 4.2.1 of RFC 5321: 250 accepts the mailbox, a 4yz reply is a transient failure. */
  function RcptVerdict(code: int): (r: HostResult)
    ensures r == Accepts <==> code == 250
    ensures r == Defers <==> 400 <= code < 500
  {
    if code == 250 then Accepts else if 400 <= code < 500 then Defers else NoDecision
  }

  /** What probing one exchanger decides; a failed connection or session decides nothing. */
  function ExchangerResult(connect: Connector, session: Sessions, host: string): HostResult
  {
    match ChooseTransport(connect, host)
    case None => NoDecision
    case Some(t) =>
      match session(host, t)
      case RcptCode(code) => RcptVerdict(code)
      case SessionError => NoDecision
  }

  /**
   * `str(mx.exchange).rstrip('.')` for each MX record, in answer order: one
   * host per record, no host ends in a dot, and each exchange is its host
   * followed by nothing but dots.
   */
  function ExchangeHosts(exchanges: seq<string>): (hosts: seq<string>)
    ensures |hosts| == |exchanges|
    ensures forall i :: 0 <= i < |hosts| ==> hosts[i] == [] || hosts[i][|hosts[i]| - 1] != '.'
    ensures forall i :: 0 <= i < |hosts| ==> StartsWith(exchanges[i], hosts[i])
    ensures forall i, k :: 0 <= i < |hosts| && |hosts[i]| <= k < |exchanges[i]| ==> exchanges[i][k] == '.'
  {
    seq(|exchanges|, i requires 0 <= i < |exchanges| => RStripChar(exchanges[i], '.'))
  }

  /** The first exchanger that decides, `|hosts|` when none does. */
  function Deciding(hosts: seq<string>, connect: Connector, session: Sessions): nat
  {
    FirstWhere(hosts, host => ExchangerResult(connect, session, host) != NoDecision)
  }

  /** `True`, `False` and `None` of `verify_email`. */
  datatype SmtpVerdict = Accepted | Rejected | Pending

  /** What `verify_email` returns, or that it raised. */
  datatype VerifyOutcome = Returned(verdict: SmtpVerdict) | Raised

  /** `email.split('@')[1]`, and `None` where that raises `IndexError`. */
  function DomainPart(email: string): Option<string>
  {
    var parts := Split(email, '@');
    if |parts| < 2 then None else Some(parts[1])
  }

  /** The domain part exists exactly when the address holds an `@`, and it is the text after the first one. */
  lemma DomainPartMeaning(email: string)
    ensures DomainPart(email).None? <==> '@' !in email
    ensures forall i :: 0 <= i < |email| && email[i] == '@' && '@' !in email[..i] && '@' !in email[i + 1..] ==>
      DomainPart(email) == Some(email[i + 1..])
  {
    if '@' in email {
      var i := FirstWhere(email, c => c == '@');
      assert '@' !in email[..i];
      assert email == email[..i] + ['@'] + email[i + 1..];
      SplitPrefix(email[..i], email[i + 1..], '@');
    } else {
      SplitNoSeparator(email, '@');
    }
    forall i | 0 <= i < |email| && email[i] == '@' && '@' !in email[..i] && '@' !in email[i + 1..]
      ensures DomainPart(email) == Some(email[i + 1..])
    {
      assert email == email[..i] + ['@'] + email[i + 1..];
      SplitPrefix(email[..i], email[i + 1..], '@');
      SplitNoSeparator(email[i + 1..], '@');
    }
  }

  /** Where `verify_email` stands after the MX lookup: the exchangers to walk, or how it already ended. */
  datatype MxStage = Exchangers(hosts: seq<string>) | Ended(outcome: VerifyOutcome)

  function MxStageOf(email: string, mxLookup: Lookup<string>): MxStage
  {
    match DomainPart(email)
    case None => Ended(Raised)
    case Some(domain) =>
      match Resolve(mxLookup, domain)
      case NoAnswer => Ended(Returned(Rejected))
      case Answer(rrs) => Exchangers(ExchangeHosts(rrs))
      case _ => Ended(Raised)
  }

  /** `verify_email(email)`: the first deciding exchanger's verdict, `False` when none decides. */
  function VerifyEmailSpec(email: string, mxLookup: Lookup<string>, connect: Connector, session: Sessions): VerifyOutcome
  {
    match MxStageOf(email, mxLookup)
    case Ended(outcome) => outcome
    case Exchangers(hosts) =>
      var k := Deciding(hosts, connect, session);
      if k == |hosts| then Returned(Rejected)
      else if ExchangerResult(connect, session, hosts[k]) == Accepts then Returned(Accepted)
      else Returned(Pending)
  }

  /** The exchanger `verify_email` records in the greylist, if it records one. */
  function GreylistHost(email: string, mxLookup: Lookup<string>, connect: Connector, session: Sessions): Option<string>
  {
    match MxStageOf(email, mxLookup)
    case Ended(_) => None
    case Exchangers(hosts) =>
      var k := Deciding(hosts, connect, session);
      if k < |hosts| && ExchangerResult(connect, session, hosts[k]) == Defers then Some(hosts[k]) else None
  }

  /** An exchanger decides, and every one before it decided nothing. */
  ghost predicate FirstDecider(hosts: seq<string>, connect: Connector, session: Sessions, k: int, r: HostResult)
  {
    && 0 <= k < |hosts| && ExchangerResult(connect, session, hosts[k]) == r
    && forall j :: 0 <= j < k ==> ExchangerResult(connect, session, hosts[j]) == NoDecision
  }

  /**
   * The verdicts of `verify_email`: it raises without an `@` or on an MX
   * failure other than NoAnswer; it accepts (defers) when the first exchanger
   * that decides accepts (defers); otherwise it rejects. Exactly the deferred
   * case writes to the greylist, with the deferring exchanger.
   */
  lemma VerifyEmailMeaning(email: string, mxLookup: Lookup<string>, connect: Connector, session: Sessions)
    ensures var v := VerifyEmailSpec(email, mxLookup, connect, session);
      v == Raised <==>
        DomainPart(email).None? || var r := mxLookup(DomainPart(email).value); r.NxDomain? || r.Timeout? || r.OtherError?
    ensures var v, stage := VerifyEmailSpec(email, mxLookup, connect, session), MxStageOf(email, mxLookup);
      && (v == Returned(Accepted) <==> stage.Exchangers? && exists k :: FirstDecider(stage.hosts, connect, session, k, Accepts))
      && (v == Returned(Pending) <==> stage.Exchangers? && exists k :: FirstDecider(stage.hosts, connect, session, k, Defers))
      && (v == Returned(Rejected) <==>
            || stage == Ended(Returned(Rejected))
            || (stage.Exchangers? && forall j :: 0 <= j < |stage.hosts| ==> ExchangerResult(connect, session, stage.hosts[j]) == NoDecision))
    ensures GreylistHost(email, mxLookup, connect, session).Some? <==> VerifyEmailSpec(email, mxLookup, connect, session) == Returned(Pending)
  {
    DomainPartMeaning(email);
    var stage := MxStageOf(email, mxLookup);
    if stage.Exchangers? {
      var hosts := stage.hosts;
      var k := Deciding(hosts, connect, session);
      var p := host => ExchangerResult(connect, session, host) != NoDecision;
      forall j | 0 <= j < k ensures ExchangerResult(connect, session, hosts[j]) == NoDecision {
        assert !p(hosts[j]);
      }
      if k < |hosts| {
        assert p(hosts[k]);
        assert FirstDecider(hosts, connect, session, k, ExchangerResult(connect, session, hosts[k]));
        forall k' | FirstDecider(hosts, connect, session, k', Accepts) || FirstDecider(hosts, connect, session, k', Defers)
          ensures k' == k
        {
        }
      }
    }
  }

  /**
   * `verify_email(email)`: walks the exchangers; a 250 accepts at once, a 4yz
   * reply records the address in the greylist with a 600 s delay and answers
   * `None`, and anything else moves on to the next exchanger.
   */
  method VerifyEmail(store: GreylistStore, email: string, now: int, mxLookup: Lookup<string>, connect: Connector, session: Sessions)
    returns (outcome: VerifyOutcome)
    requires store.Valid()
    modifies store
    ensures store.Valid()
    ensures outcome == VerifyEmailSpec(email, mxLookup, connect, session)
    ensures var host := GreylistHost(email, mxLookup, connect, session);
      store.table == if host.Some? then Upserted(old(store.table), email, host.value, now, GREYLIST_RETRY_DELAY) else old(store.table)
  {
    var parts := Split(email, '@');
    if |parts| < 2 {
      return Raised;
    }
    var domain := parts[1];
    var response := mxLookup(domain);
    var exchanges: seq<string>;
    match response {
      case Answer(rrs) =>
        if |rrs| == 0 {
          return Returned(Rejected);
        }
        exchanges := rrs;
      case NoAnswer =>
        return Returned(Rejected);
      case _ =>
        return Raised;
    }
    ghost var hosts := ExchangeHosts(exchanges);
    ghost var p := host => ExchangerResult(connect, session, host) != NoDecision;
    var i := 0;
    while i < |exchanges|
      invariant 0 <= i <= |exchanges|
      invariant forall j :: 0 <= j < i ==> !p(hosts[j])
      invariant store.table == old(store.table)
    {
      var host := RStripChar(exchanges[i], '.');
      var transport: Option<Transport> := None;
      var first := connect(host, Submission587StartTls);
      if first == Connected {
        transport := Some(Submission587StartTls);
      } else if first == OsError {
        var second := connect(host, Smtp25);
        if second == Connected {
          transport := Some(Smtp25);
        } else if second == OsError {
          var third := connect(host, Smtps465);
          if third == Connected {
            transport := Some(Smtps465);
          }
        }
      }
      assert transport == ChooseTransport(connect, host);
      if transport.Some? {
        var reply := session(host, transport.value);
        if reply.RcptCode? && reply.code == 250 {
          assert Deciding(hosts, connect, session) == i;
          return Returned(Accepted);
        }
        if reply.RcptCode? && 400 <= reply.code < 500 {
          assert Deciding(hosts, connect, session) == i;
          store.UpsertSync(email, host, GREYLIST_RETRY_DELAY, 1, now);
          return Returned(Pending);
        }
      }
      assert !p(hosts[i]);
      i := i + 1;
    }
    assert Deciding(hosts, connect, session) == |hosts|;
    return Returned(Rejected);
  }

  /** `domain.lower() in disposable_set`. */
  predicate Disposable(domain: string, domains: set<string>)
  {
    Lower(domain) in domains
  }

  /**
   * The test ignores the case of ASCII letters in the domain; it does not
   * strip it, so against a loaded list (whose entries are all stripped) a
   * domain with surrounding whitespace is never disposable.
   */
  lemma DisposableMeaning(domain: string, domains: set<string>)
    ensures Disposable(Lower(domain), domains) == Disposable(domain, domains)
    ensures (forall d :: d in domains ==> DisposableCache.Normalised(d)) && !Trimmed(domain) ==> !Disposable(domain, domains)
  {
    LowerNoUpper(Lower(domain));
    if domain != [] {
      assert Lower(domain)[0] == LowerChar(domain[0]);
      assert Lower(domain)[|domain| - 1] == LowerChar(domain[|domain| - 1]);
    }
  }

  /** `is_disposable(domain)`: loads the list, refreshing the cache file if it expired, then tests the domain. */
  method IsDisposable(domain: string, cache: Option<DisposableCache.CacheFile>, now: int, fetch: DisposableCache.Fetcher)
    returns (disposable: bool, file: DisposableCache.CacheFile)
    ensures disposable == Disposable(domain, DisposableCache.LoadedSet(file.text))
    ensures !DisposableCache.CacheExpired(cache, now) ==> file == cache.value
    ensures DisposableCache.CacheExpired(cache, now) ==>
      && file.mtime == now
      && exists listing :: DisposableCache.Lists(listing, DisposableCache.Refreshed(DisposableCache.Replies(fetch)))
           && file.text == Join(listing, '\n')
  {
    var domains, refreshed;
    domains, file, refreshed := DisposableCache.LoadDisposableDomains(cache, now, fetch);
    disposable := Lower(domain) in domains;
  }

  /** The two answers of `check_mx_reputation`. */
  datatype MxReputation = Bad | Normal

  /** Some address of `ips` is listed by a DNSBL zone. */
  predicate AnyListed(ips: seq<string>, dnsbl: Lookup<string>)
  {
    exists i :: 0 <= i < |ips| && LookupDnsbl(ips[i], dnsbl)
  }

  /** The walk over the exchangers stops here: its A lookup raises, or one of its addresses is listed. */
  predicate StopsAt(host: string, aLookup: Lookup<string>, dnsbl: Lookup<string>)
  {
    !Resolves(aLookup, host) || AnyListed(Resolve(aLookup, host).rrs, dnsbl)
  }

  /** The exchanger where the walk stops, `|hosts|` when it runs to the end. */
  function Stop(hosts: seq<string>, aLookup: Lookup<string>, dnsbl: Lookup<string>): nat
  {
    FirstWhere(hosts, host => StopsAt(host, aLookup, dnsbl))
  }

  /** `check_mx_reputation(domain)`: `Bad` when the walk stops at an exchanger that resolved. */
  function ReputationOf(domain: string, mxLookup: Lookup<string>, aLookup: Lookup<string>, dnsbl: Lookup<string>): MxReputation
  {
    if Resolves(mxLookup, domain) then
      var hosts := ExchangeHosts(mxLookup(domain).rrs);
      var k := Stop(hosts, aLookup, dnsbl);
      if k < |hosts| && Resolves(aLookup, hosts[k]) then Bad else Normal
    else Normal
  }

  /** The exchanger `hosts[k]` has a listed address, and every one before it resolved to none. */
  ghost predicate ListedAt(hosts: seq<string>, aLookup: Lookup<string>, dnsbl: Lookup<string>, k: int)
  {
    && 0 <= k < |hosts|
    && Resolves(aLookup, hosts[k]) && AnyListed(Resolve(aLookup, hosts[k]).rrs, dnsbl)
    && forall j :: 0 <= j < k ==> Resolves(aLookup, hosts[j]) && !AnyListed(Resolve(aLookup, hosts[j]).rrs, dnsbl)
  }

  /** Where the walk stops at an exchanger that resolved, that exchanger is the first listed one. */
  lemma StopListed(hosts: seq<string>, aLookup: Lookup<string>, dnsbl: Lookup<string>)
    requires Stop(hosts, aLookup, dnsbl) < |hosts| && Resolves(aLookup, hosts[Stop(hosts, aLookup, dnsbl)])
    ensures ListedAt(hosts, aLookup, dnsbl, Stop(hosts, aLookup, dnsbl))
  {
    var k := Stop(hosts, aLookup, dnsbl);
    assert StopsAt(hosts[k], aLookup, dnsbl);
    forall j | 0 <= j < k
      ensures Resolves(aLookup, hosts[j]) && !AnyListed(Resolve(aLookup, hosts[j]).rrs, dnsbl)
    {
      assert !StopsAt(hosts[j], aLookup, dnsbl);
    }
  }

  /** The first listed exchanger is where the walk stops. */
  lemma ListedStop(hosts: seq<string>, aLookup: Lookup<string>, dnsbl: Lookup<string>, k: int)
    requires ListedAt(hosts, aLookup, dnsbl, k)
    ensures Stop(hosts, aLookup, dnsbl) == k
  {
    assert StopsAt(hosts[k], aLookup, dnsbl);
  }

  /** The walk stops at an exchanger that resolved exactly when some exchanger is the first listed one. */
  lemma StopMeaning(hosts: seq<string>, aLookup: Lookup<string>, dnsbl: Lookup<string>)
    ensures var k := Stop(hosts, aLookup, dnsbl);
      (k < |hosts| && Resolves(aLookup, hosts[k])) <==> exists k' :: ListedAt(hosts, aLookup, dnsbl, k')
  {
    var k := Stop(hosts, aLookup, dnsbl);
    if k < |hosts| && Resolves(aLookup, hosts[k]) {
      StopListed(hosts, aLookup, dnsbl);
    }
    if exists k' :: ListedAt(hosts, aLookup, dnsbl, k') {
      var k' :| ListedAt(hosts, aLookup, dnsbl, k');
      ListedStop(hosts, aLookup, dnsbl, k');
    }
  }

  /**
   * `Bad` exactly when the MX lookup answers and, walking its exchangers in
   * order, one resolves to a DNSBL-listed address before any A lookup fails.
   */
  lemma ReputationMeaning(domain: string, mxLookup: Lookup<string>, aLookup: Lookup<string>, dnsbl: Lookup<string>)
    ensures ReputationOf(domain, mxLookup, aLookup, dnsbl) == Bad <==>
      Resolves(mxLookup, domain) && exists k :: ListedAt(ExchangeHosts(mxLookup(domain).rrs), aLookup, dnsbl, k)
  {
    if Resolves(mxLookup, domain) {
      StopMeaning(ExchangeHosts(mxLookup(domain).rrs), aLookup, dnsbl);
    }
  }

  /** The inner loop of `check_mx_reputation`: whether some address of `ips` is listed. */
  method ScanAddresses(ips: seq<string>, dnsbl: Lookup<string>) returns (listed: bool)
    ensures listed == AnyListed(ips, dnsbl)
  {
    var n := 0;
    while n < |ips|
      invariant 0 <= n <= |ips|
      invariant forall m :: 0 <= m < n ==> !LookupDnsbl(ips[m], dnsbl)
    {
      if LookupDnsbl(ips[n], dnsbl) {
        return true;
      }
      n := n + 1;
    }
    return false;
  }

  /** `check_mx_reputation(domain)`. */
  method CheckMxReputation(domain: string, mxLookup: Lookup<string>, aLookup: Lookup<string>, dnsbl: Lookup<string>)
    returns (reputation: MxReputation)
    ensures reputation == ReputationOf(domain, mxLookup, aLookup, dnsbl)
  {
    var mx := mxLookup(domain);
    if !mx.Answer? || |mx.rrs| == 0 {
      return Normal;
    }
    ghost var hosts := ExchangeHosts(mx.rrs);
    var i := 0;
    while i < |mx.rrs|
      invariant 0 <= i <= |mx.rrs|
      invariant forall j :: 0 <= j < i ==> !StopsAt(hosts[j], aLookup, dnsbl)
    {
      var host := RStripChar(mx.rrs[i], '.');
      assert host == hosts[i];
      var ips := aLookup(host);
      if !ips.Answer? || |ips.rrs| == 0 {
        FirstWhereAt(hosts, h => StopsAt(h, aLookup, dnsbl), i);
        return Normal;
      }
      var listed := ScanAddresses(ips.rrs, dnsbl);
      if listed {
        assert StopsAt(host, aLookup, dnsbl);
        FirstWhereAt(hosts, h => StopsAt(h, aLookup, dnsbl), i);
        return Bad;
      }
      assert !StopsAt(host, aLookup, dnsbl);
      i := i + 1;
    }
    FirstWhereAt(hosts, h => StopsAt(h, aLookup, dnsbl), |hosts|);
    return Normal;
  }
}
