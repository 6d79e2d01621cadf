/**
 * The string and sequence operations the pipeline is built from, modelled on
 * their Python meaning: `str.strip()`, ASCII `str.lower()`, `str.split(sep)`,
 * `sep.join(parts)`, `reversed(...)`, `str.startswith`, the substring test
 * `sub in s`, `str.rstrip(c)`, and the first-match search that `for ... return`
 * loops and `any(...)` perform.
 */
module Text {

  /** The characters Python's `str.strip()` removes (`str.isspace()`). */
  predicate IsSpace(c: char)
  {
    c == ' ' || ('\t' <= c <= '\r') || ('\U{1C}' <= c <= '\U{1F}')
    || c == '\U{85}' || c == '\U{A0}' || c == '\U{1680}'
    || ('\U{2000}' <= c <= '\U{200A}') || c == '\U{2028}' || c == '\U{2029}'
    || c == '\U{202F}' || c == '\U{205F}' || c == '\U{3000}'
  }

  predicate IsUpper(c: char)
  {
    'A' <= c <= 'Z'
  }

  /** ASCII case folding of one character. */
  function LowerChar(c: char): (d: char)
    ensures !IsUpper(d)
    ensures IsSpace(d) <==> IsSpace(c)
    ensures !IsUpper(c) ==> d == c
  {
    if IsUpper(c) then (c as int - 'A' as int + 'a' as int) as char else c
  }

  /** `s.lower()`, restricted to ASCII letters. */
  function Lower(s: string): (r: string)
    ensures |r| == |s|
    ensures forall i :: 0 <= i < |s| ==> r[i] == LowerChar(s[i])
  {
    seq(|s|, i requires 0 <= i < |s| => LowerChar(s[i]))
  }

  predicate NoUpper(s: string)
  {
    forall i :: 0 <= i < |s| ==> !IsUpper(s[i])
  }

  /** `s.lstrip()`: drops the leading whitespace and nothing else. */
  function TrimStart(s: string): (r: string)
    ensures |r| <= |s| && r == s[|s| - |r|..]
    ensures forall k :: 0 <= k < |s| - |r| ==> IsSpace(s[k])
    ensures r == [] || !IsSpace(r[0])
  {
    if s != [] && IsSpace(s[0]) then TrimStart(s[1..]) else s
  }

  /** `s.rstrip()`: drops the trailing whitespace and nothing else. */
  function TrimEnd(s: string): (r: string)
    ensures |r| <= |s| && r == s[..|r|]
    ensures forall k :: |r| <= k < |s| ==> IsSpace(s[k])
    ensures r == [] || !IsSpace(r[|r| - 1])
  {
    if s != [] && IsSpace(s[|s| - 1]) then TrimEnd(s[..|s| - 1]) else s
  }

  /** `s.strip()`. */
  function Strip(s: string): string
  {
    TrimEnd(TrimStart(s))
  }

  /** Neither end of `s` is whitespace. */
  predicate Trimmed(s: string)
  {
    s == [] || (!IsSpace(s[0]) && !IsSpace(s[|s| - 1]))
  }

  lemma StripIsTrimmed(s: string)
    ensures Trimmed(Strip(s))
    ensures Strip(s) == [] <==> forall k :: 0 <= k < |s| ==> IsSpace(s[k])
  {
    var t := TrimStart(s);
    var r := TrimEnd(t);
    if r != [] {
      assert r[0] == t[0];
    }
  }

  /** A string that is already stripped is left alone by `strip()`. */
  lemma StripTrimmed(s: string)
    requires Trimmed(s)
    ensures Strip(s) == s
  {
  }

  /** Stripping and lower-casing bring in no character other than lower-case letters. */
  lemma LowerStripChars(s: string)
    ensures forall c :: c in Lower(Strip(s)) ==> c in s || 'a' <= c <= 'z'
  {
    var t := TrimStart(s);
    var r := Strip(s);
    forall i | 0 <= i < |r| ensures Lower(r)[i] in s || 'a' <= Lower(r)[i] <= 'z' {
      assert r[i] == t[i] == s[|s| - |t| + i];
    }
  }

  /** Lower-casing keeps a stripped string stripped and keeps it empty or not. */
  lemma LowerTrimmed(s: string)
    requires Trimmed(s)
    ensures Trimmed(Lower(s))
    ensures Lower(s) == [] <==> s == []
  {
    if s != [] {
      assert Lower(s)[0] == LowerChar(s[0]);
      assert Lower(s)[|s| - 1] == LowerChar(s[|s| - 1]);
    }
  }

  lemma LowerNoUpper(s: string)
    ensures NoUpper(Lower(s))
    ensures NoUpper(s) ==> Lower(s) == s
  {
  }

  /** `s.startswith(prefix)`. */
  predicate StartsWith(s: string, prefix: string)
  {
    |prefix| <= |s| && s[..|prefix|] == prefix
  }

  /** The substring test `sub in s`, searched left to right. */
  predicate Contains(s: string, sub: string)
    decreases |s|
  {
    StartsWith(s, sub) || (s != [] && Contains(s[1..], sub))
  }

  /** `s.rstrip(c)`: drops every trailing `c`. */
  function RStripChar(s: string, c: char): (r: string)
    ensures |r| <= |s| && r == s[..|r|]
    ensures forall k :: |r| <= k < |s| ==> s[k] == c
    ensures r == [] || r[|r| - 1] != c
  {
    if s != [] && s[|s| - 1] == c then RStripChar(s[..|s| - 1], c) else s
  }

  /** `s.split(sep)` with a one-character separator. */
  function Split(s: string, sep: char): (parts: seq<string>)
    ensures |parts| >= 1
    ensures forall p :: p in parts ==> sep !in p
  {
    if s == [] then [[]]
    else
      var rest := Split(s[1..], sep);
      if s[0] == sep then [[]] + rest else [[s[0]] + rest[0]] + rest[1..]
  }

  /** `sep.join(parts)` with a one-character separator. */
  function Join(parts: seq<string>, sep: char): string
  {
    if |parts| == 0 then []
    else if |parts| == 1 then parts[0]
    else parts[0] + [sep] + Join(parts[1..], sep)
  }

  lemma {:induction false} JoinSplit(s: string, sep: char)
    ensures Join(Split(s, sep), sep) == s
  {
    if s != [] {
      var rest := Split(s[1..], sep);
      JoinSplit(s[1..], sep);
      if s[0] == sep {
        assert Split(s, sep)[1..] == rest;
      } else {
        var parts := Split(s, sep);
        if |rest| == 1 {
          assert parts == [[s[0]] + rest[0]];
        } else {
          assert parts[1..] == rest[1..];
          assert Join(rest, sep) == rest[0] + [sep] + Join(rest[1..], sep);
        }
      }
    }
  }

  /** Splitting `p + sep + r` when `p` has no separator splits off `p`. */
  lemma {:induction false} SplitPrefix(p: string, r: string, sep: char)
    requires sep !in p
    ensures Split(p + [sep] + r, sep) == [p] + Split(r, sep)
  {
    var s := p + [sep] + r;
    if p == [] {
      assert s[1..] == r;
    } else {
      assert s[1..] == p[1..] + [sep] + r;
      SplitPrefix(p[1..], r, sep);
      assert [p[0]] + p[1..] == p;
    }
  }

  lemma {:induction false} SplitJoin(parts: seq<string>, sep: char)
    requires |parts| >= 1
    requires forall p :: p in parts ==> sep !in p
    ensures Split(Join(parts, sep), sep) == parts
  {
    if |parts| == 1 {
      SplitNoSeparator(parts[0], sep);
    } else {
      SplitJoin(parts[1..], sep);
      SplitPrefix(parts[0], Join(parts[1..], sep), sep);
    }
  }

  lemma {:induction false} SplitNoSeparator(s: string, sep: char)
    requires sep !in s
    ensures Split(s, sep) == [s]
  {
    if s != [] {
      SplitNoSeparator(s[1..], sep);
      assert [s[0]] + s[1..] == s;
    }
  }

  /** Joining introduces no character other than the separator. */
  lemma {:induction false} JoinAvoids(parts: seq<string>, sep: char, c: char)
    requires c != sep
    requires forall p :: p in parts ==> c !in p
    ensures c !in Join(parts, sep)
  {
    if |parts| > 1 {
      JoinAvoids(parts[1..], sep, c);
    }
  }

  /** `list(reversed(s))`. */
  function Reverse<T>(s: seq<T>): (r: seq<T>)
    ensures |r| == |s|
    ensures forall i :: 0 <= i < |s| ==> r[i] == s[|s| - 1 - i]
  {
    if s == [] then [] else Reverse(s[1..]) + [s[0]]
  }

  lemma ReverseReverse<T>(s: seq<T>)
    ensures Reverse(Reverse(s)) == s
  {
  }

  /**
   * The index of the first element of `s` that satisfies `p`, or `|s|` when
   * none does: the loop `for x in s: if p(x): return ...` and `any(...)`.
   */
  function FirstWhere<T>(s: seq<T>, p: T -> bool): (k: nat)
    ensures k <= |s|
    ensures forall j :: 0 <= j < k ==> !p(s[j])
    ensures k < |s| ==> p(s[k])
  {
    if s == [] then 0 else if p(s[0]) then 0 else 1 + FirstWhere(s[1..], p)
  }

  /** The first match is the index before which nothing matches and at which `p` holds. */
  lemma FirstWhereAt<T>(s: seq<T>, p: T -> bool, i: nat)
    requires i <= |s|
    requires forall j :: 0 <= j < i ==> !p(s[j])
    requires i < |s| ==> p(s[i])
    ensures FirstWhere(s, p) == i
  {
  }

  /** `any(p(x) for x in s)`. */
  predicate Any<T>(s: seq<T>, p: T -> bool)
  {
    FirstWhere(s, p) < |s|
  }

  lemma AnyExists<T>(s: seq<T>, p: T -> bool)
    ensures Any(s, p) <==> exists i :: 0 <= i < |s| && p(s[i])
  {
  }
}
