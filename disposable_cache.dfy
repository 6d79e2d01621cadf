/**
 * The disposable-domain list: a cache file refreshed, once it is a day old,
 * from the union of three published lists. Lines are stripped and
 * lower-cased; the set is written one domain per line and read back the same
 * way. The HTTP fetches are an oracle (`fetch(url)` is the reply), the cache
 * file is its text and modification time, and the clock is `now`.
 */
module DisposableCache {
  import opened Wrappers
  import opened Text

  const BLACKLIST_URLS: seq<string> := [
    "https://raw.githubusercontent.com/andreis/disposable-email-domains/master/domains.txt",
    "https://raw.githubusercontent.com/wesbos/burner-email-providers/master/emails.txt",
    "https://raw.githubusercontent.com/disposable/disposable-email-domains/master/domains.txt"
  ]

  /** One day, in seconds. */
  const CACHE_TTL: int := 24 * 60 * 60

  /** What `requests.get(url)` gave: a reply with its status and body, or an exception. */
  datatype HttpReply = HttpReply(status: int, text: string) | RequestFailed

  type Fetcher = string -> HttpReply

  /** The cache file: its text and its modification time. */
  datatype CacheFile = CacheFile(text: string, mtime: int)

  /** A stripped, lower-case domain. */
  predicate Normalised(d: string)
  {
    Trimmed(d) && NoUpper(d)
  }

  /**
   * `line.strip().lower()`: stripped and lower-case, empty exactly when the
   * line is all whitespace, and holding no character of its own except
   * lower-case letters.
   */
  function NormaliseLine(line: string): (d: string)
    ensures Normalised(d)
    ensures d == [] <==> Strip(line) == []
    ensures forall c :: c in d ==> c in line || 'a' <= c <= 'z'
  {
    StripIsTrimmed(line);
    LowerNoUpper(Strip(line));
    LowerStripChars(line);
    LowerTrimmed(Strip(line));
    Lower(Strip(line))
  }

  /** Normalising leaves a normalised string alone, so it is idempotent. */
  lemma NormaliseLineMeaning(line: string)
    ensures Normalised(line) ==> NormaliseLine(line) == line
    ensures NormaliseLine(NormaliseLine(line)) == NormaliseLine(line)
  {
    if Normalised(line) {
      StripTrimmed(line);
      LowerNoUpper(line);
    }
    var d := NormaliseLine(line);
    StripTrimmed(d);
    LowerNoUpper(d);
  }

  /** A 200 reply with a non-empty line that normalises to `d`. */
  ghost predicate Contributes(reply: HttpReply, d: string)
  {
    && reply.HttpReply? && reply.status == 200
    && exists line :: line in Split(reply.text, '\n') && line != [] && d == NormaliseLine(line)
  }

  /** The domains one reply contributes: only a 200 reply, and only its non-empty lines. */
  function SourceDomains(reply: HttpReply): (domains: set<string>)
    ensures forall d :: d in domains <==> Contributes(reply, d)
    ensures forall d :: d in domains ==> Normalised(d) && '\n' !in d
  {
    if reply.HttpReply? && reply.status == 200 then
      set line | line in Split(reply.text, '\n') && line != [] :: NormaliseLine(line)
    else {}
  }

  /** The union of the replies' contributions. */
  function Refreshed(replies: seq<HttpReply>): set<string>
  {
    if replies == [] then {}
    else Refreshed(replies[..|replies| - 1]) + SourceDomains(replies[|replies| - 1])
  }

  /** What one source contributes is in the union. */
  lemma {:induction false} ContributionRefreshed(replies: seq<HttpReply>, k: nat, d: string)
    requires k < |replies| && Contributes(replies[k], d)
    ensures d in Refreshed(replies)
  {
    var n := |replies| - 1;
    if k < n {
      assert replies[..n][k] == replies[k];
      ContributionRefreshed(replies[..n], k, d);
      assert d in Refreshed(replies[..n]);
    } else {
      assert k == n;
      assert d in SourceDomains(replies[k]);
    }
  }

  /** A refreshed domain is a normalised non-empty line of some 200 reply. */
  lemma {:induction false} RefreshedMeaning(replies: seq<HttpReply>, d: string)
    ensures d in Refreshed(replies) <==> exists k :: 0 <= k < |replies| && Contributes(replies[k], d)
  {
    if replies != [] {
      var n := |replies| - 1;
      var prefix := replies[..n];
      RefreshedMeaning(prefix, d);
      if d in Refreshed(replies) {
        if d in Refreshed(prefix) {
          var k :| 0 <= k < n && Contributes(prefix[k], d);
          assert prefix[k] == replies[k];
        } else {
          assert Contributes(replies[n], d);
        }
      }
    }
    if exists k :: 0 <= k < |replies| && Contributes(replies[k], d) {
      var k :| 0 <= k < |replies| && Contributes(replies[k], d);
      ContributionRefreshed(replies, k, d);
    }
  }

  /** Every refreshed domain is normalised and holds no `\n`. */
  lemma {:induction false} RefreshedNormalised(replies: seq<HttpReply>)
    ensures forall d :: d in Refreshed(replies) ==> Normalised(d) && '\n' !in d
  {
    if replies != [] {
      RefreshedNormalised(replies[..|replies| - 1]);
    }
  }

  /** The union over two runs of replies is the union of each. */
  lemma {:induction false} RefreshedConcat(a: seq<HttpReply>, b: seq<HttpReply>)
    ensures Refreshed(a + b) == Refreshed(a) + Refreshed(b)
  {
    if b == [] {
      assert a + b == a;
    } else {
      var n := |b| - 1;
      assert (a + b)[..|a + b| - 1] == a + b[..n];
      RefreshedConcat(a, b[..n]);
    }
  }

  /** A source that failed or answered other than 200 changes nothing. */
  lemma FailedSourceIgnored(replies: seq<HttpReply>, k: nat)
    requires k < |replies|
    requires !(replies[k].HttpReply? && replies[k].status == 200)
    ensures Refreshed(replies) == Refreshed(replies[..k] + replies[k + 1..])
  {
    var before, r, after := replies[..k], replies[k], replies[k + 1..];
    assert replies == before + [r] + after;
    assert Refreshed([r]) == {} by {
      assert [r][..0] == [];
    }
    RefreshedConcat(before + [r], after);
    RefreshedConcat(before, [r]);
    RefreshedConcat(before, after);
  }

  /**
   * When no source answers 200 the refreshed set is empty: the refresh does
   * not keep the previous list.
   */
  lemma AllSourcesFailed(replies: seq<HttpReply>)
    requires forall k :: 0 <= k < |replies| ==> !(replies[k].HttpReply? && replies[k].status == 200)
    ensures Refreshed(replies) == {}
  {
    forall d | d in Refreshed(replies) ensures false {
      RefreshedMeaning(replies, d);
    }
  }

  /** Universal-newline reading: `\r\n` and a lone `\r` both read as `\n`. */
  function ReadNewlines(s: string): string
  {
    if s == [] then []
    else if s[0] == '\r' then
      if |s| > 1 && s[1] == '\n' then "\n" + ReadNewlines(s[2..]) else "\n" + ReadNewlines(s[1..])
    else [s[0]] + ReadNewlines(s[1..])
  }

  lemma {:induction false} ReadNewlinesPlain(s: string)
    requires '\r' !in s
    ensures ReadNewlines(s) == s
  {
    if s != [] {
      ReadNewlinesPlain(s[1..]);
    }
  }

  /** The set comprehension of `load_disposable_domains` over the file's lines. */
  function LoadedSet(text: string): set<string>
  {
    set line | line in Split(ReadNewlines(text), '\n') && Strip(line) != [] :: NormaliseLine(line)
  }

  /** Every loaded domain is non-empty, stripped and lower-case. */
  lemma LoadedNormalised(text: string)
    ensures forall d :: d in LoadedSet(text) ==> d != [] && Normalised(d)
  {
    forall d | d in LoadedSet(text) ensures d != [] && Normalised(d) {
      var line :| line in Split(ReadNewlines(text), '\n') && Strip(line) != [] && d == NormaliseLine(line);
      NormaliseLineMeaning(line);
    }
  }

  /** Every element of `listing` occurs in it, and only those, each once. */
  ghost predicate Lists(listing: seq<string>, s: set<string>)
  {
    && (forall x :: x in listing <==> x in s)
    && (forall i, j :: 0 <= i < j < |listing| ==> listing[i] != listing[j])
  }

  /**
   * The round trip: normalised domains without line breaks, written joined
   * by `\n` in any order, read back as the same set without the empty string.
   */
  lemma LoadAfterWrite(listing: seq<string>)
    requires forall x :: x in listing ==> Normalised(x) && '\n' !in x && '\r' !in x
    ensures LoadedSet(Join(listing, '\n')) == (set x | x in listing) - {[]}
  {
    var text := Join(listing, '\n');
    if listing == [] {
      assert Split(ReadNewlines(text), '\n') == [[]];
    } else {
      JoinAvoids(listing, '\n', '\r');
      ReadNewlinesPlain(text);
      SplitJoin(listing, '\n');
      forall x | x in listing ensures (Strip(x) != [] <==> x != []) && NormaliseLine(x) == x {
        StripTrimmed(x);
        NormaliseLineMeaning(x);
      }
    }
  }

  /** A file modified at `mtime` is refreshed when missing or more than a day old. */
  predicate CacheExpired(file: Option<CacheFile>, now: int)
  {
    file.None? || now - file.value.mtime > CACHE_TTL
  }

  /** A missing file is expired; a present one only once it is strictly more than a day old. */
  lemma CacheExpiryBoundary(file: CacheFile, now: int)
    ensures CacheExpired(None, now)
    ensures !CacheExpired(Some(file), file.mtime + CACHE_TTL)
    ensures CacheExpired(Some(file), file.mtime + CACHE_TTL + 1)
    ensures CacheExpired(Some(file), now) <==> now > file.mtime + 86400
  {
  }

  /** The replies of the three lists, in their order. */
  function Replies(fetch: Fetcher): (replies: seq<HttpReply>)
    ensures |replies| == |BLACKLIST_URLS|
    ensures forall i :: 0 <= i < |replies| ==> replies[i] == fetch(BLACKLIST_URLS[i])
  {
    seq(|BLACKLIST_URLS|, i requires 0 <= i < |BLACKLIST_URLS| => fetch(BLACKLIST_URLS[i]))
  }

  /** Some order of the set's elements, each once: the iteration order of a Python set. */
  method ListSet(s: set<string>) returns (listing: seq<string>)
    ensures Lists(listing, s)
  {
    listing := [];
    var rest := s;
    while rest != {}
      invariant rest <= s
      invariant forall x :: x in listing <==> x in s && x !in rest
      invariant forall i, j :: 0 <= i < j < |listing| ==> listing[i] != listing[j]
      decreases rest
    {
      var d :| d in rest;
      listing := listing + [d];
      rest := rest - {d};
    }
  }

  /** A listed set of refreshed domains reads back as itself without the empty string. */
  lemma WrittenReadsBack(listing: seq<string>, s: set<string>)
    requires Lists(listing, s)
    requires forall x :: x in s ==> Normalised(x) && '\n' !in x && '\r' !in x
    ensures LoadedSet(Join(listing, '\n')) == s - {[]}
  {
    LoadAfterWrite(listing);
    assert (set x | x in listing) == s;
  }

  /**
   * `_refresh_cache`: the union of the lists that answered 200, written one
   * per line into a file stamped `now`. Read back, the file gives the same
   * set without the empty string, provided no domain holds a carriage return.
   */
  method RefreshCache(fetch: Fetcher, now: int) returns (domains: set<string>, file: CacheFile)
    ensures domains == Refreshed(Replies(fetch))
    ensures file.mtime == now
    ensures exists listing :: Lists(listing, domains) && file.text == Join(listing, '\n')
    ensures (forall d :: d in domains ==> '\r' !in d) ==> LoadedSet(file.text) == domains - {[]}
    ensures domains == {} ==> file.text == []
  {
    ghost var replies := Replies(fetch);
    domains := {};
    var i := 0;
    while i < |BLACKLIST_URLS|
      invariant 0 <= i <= |BLACKLIST_URLS|
      invariant domains == Refreshed(replies[..i])
    {
      var reply := fetch(BLACKLIST_URLS[i]);
      assert replies[..i + 1][..i] == replies[..i];
      if reply.HttpReply? && reply.status == 200 {
        domains := domains + SourceDomains(reply);
      }
      i := i + 1;
    }
    assert replies[..i] == replies;
    var listing := ListSet(domains);
    file := CacheFile(Join(listing, '\n'), now);
    RefreshedNormalised(replies);
    if forall d :: d in domains ==> '\r' !in d {
      WrittenReadsBack(listing, domains);
    }
    if listing != [] {
      assert listing[0] in domains;
    }
  }

  /**
   * `load_disposable_domains`: refresh when the cache has expired, then read
   * the file. Returns the set, the cache file afterwards, and whether a
   * refresh happened.
   */
  method LoadDisposableDomains(cache: Option<CacheFile>, now: int, fetch: Fetcher)
    returns (domains: set<string>, file: CacheFile, refreshed: bool)
    ensures refreshed == CacheExpired(cache, now)
    ensures !refreshed ==> file == cache.value
    ensures refreshed ==>
      && file.mtime == now
      && exists listing :: Lists(listing, Refreshed(Replies(fetch))) && file.text == Join(listing, '\n')
    ensures domains == LoadedSet(file.text)
    ensures forall d :: d in domains ==> d != [] && Normalised(d)
  {
    refreshed := CacheExpired(cache, now);
    if refreshed {
      var union;
      union, file := RefreshCache(fetch, now);
    } else {
      file := cache.value;
    }
    domains := LoadedSet(file.text);
    LoadedNormalised(file.text);
  }
}
