/** String helpers shared by the three scripts: trimming, literal search,
    splitting and joining, and decimal digit strings. */
module Strings {
  import opened Wrappers

  /** ASCII whitespace, the part of JavaScript's `trim` and Python's `strip`
      and `\s` that the model covers. */
  predicate IsSpace(c: char) {
    c == ' ' || c == '\t' || c == '\n' || c == '\r' || c == '\U{B}' || c == '\U{C}'
  }

  predicate AllSpace(s: string) {
    forall k :: 0 <= k < |s| ==> IsSpace(s[k])
  }

  /** Drops leading whitespace. */
  function TrimStart(s: string): string
  {
    if |s| > 0 && IsSpace(s[0]) then TrimStart(s[1..]) else s
  }

  /** Drops trailing whitespace. */
  function TrimEnd(s: string): string
  {
    if |s| > 0 && IsSpace(s[|s| - 1]) then TrimEnd(s[..|s| - 1]) else s
  }

  /** JavaScript `trim()` / Python `strip()`. */
  function Trim(s: string): string
  {
    TrimEnd(TrimStart(s))
  }

  /** What `TrimStart` drops is whitespace, and what it keeps is a suffix
      that does not start with whitespace. */
  lemma {:induction false} TrimStartSpec(s: string)
    ensures var r := TrimStart(s);
      && |r| <= |s| && r == s[|s| - |r|..]
      && (r == [] || !IsSpace(r[0]))
      && AllSpace(s[..|s| - |r|])
    decreases |s|
  {
    if |s| > 0 && IsSpace(s[0]) {
      TrimStartSpec(s[1..]);
      var r := TrimStart(s[1..]);
      assert s[..|s| - |r|] == [s[0]] + s[1..][..|s| - 1 - |r|];
    }
  }

  /** What `TrimEnd` drops is whitespace, and what it keeps is a prefix
      that does not end in whitespace. */
  lemma {:induction false} TrimEndSpec(s: string)
    ensures var r := TrimEnd(s);
      && |r| <= |s| && r == s[..|r|]
      && (r == [] || !IsSpace(r[|r| - 1]))
      && AllSpace(s[|r|..])
    decreases |s|
  {
    if |s| > 0 && IsSpace(s[|s| - 1]) {
      TrimEndSpec(s[..|s| - 1]);
      var r := TrimEnd(s[..|s| - 1]);
      assert s[|r|..] == s[..|s| - 1][|r|..] + [s[|s| - 1]];
    }
  }

  /** A trimmed string is no longer than the original, has no whitespace at
      either end, and is empty exactly when the original is all whitespace. */
  lemma TrimSpec(s: string)
    ensures var r := Trim(s);
      && |r| <= |s|
      && (r == [] || (!IsSpace(r[0]) && !IsSpace(r[|r| - 1])))
      && (r == [] <==> AllSpace(s))
  {
    var t := TrimStart(s);
    var r := TrimEnd(t);
    TrimStartSpec(s);
    TrimEndSpec(t);
    if r == [] {
      assert t[..|t|] == t;
      assert s == s[..|s| - |t|] + t;
    } else {
      assert r[0] == t[0];
    }
  }

  /** Trimming only removes characters. */
  lemma TrimKeeps(s: string, c: char)
    requires c in Trim(s)
    ensures c in s
  {
    var t := TrimStart(s);
    var r := TrimEnd(t);
    TrimStartSpec(s);
    TrimEndSpec(t);
    var k :| 0 <= k < |r| && r[k] == c;
    assert t[k] == c;
    assert s[|s| - |t| + k] == c;
  }

  /** A string with no whitespace at either end is its own trim. */
  lemma TrimOfTrimmed(s: string)
    requires s == [] || (!IsSpace(s[0]) && !IsSpace(s[|s| - 1]))
    ensures Trim(s) == s
  {
  }

  /** Whitespace in front of a trimmed string trims away. */
  lemma TrimStartSpace(c: char, f: string)
    requires IsSpace(c)
    ensures TrimStart([c] + f) == TrimStart(f)
  {
    assert ([c] + f)[1..] == f;
  }

  lemma TrimSpaceThenTrimmed(c: char, f: string)
    requires IsSpace(c) && Trim(f) == f
    ensures Trim([c] + f) == f
  {
    TrimStartSpace(c, f);
  }

  lemma TrimIdempotent(s: string)
    ensures Trim(Trim(s)) == Trim(s)
  {
    TrimSpec(s);
    TrimOfTrimmed(Trim(s));
  }

  /** Dropping leading whitespace first does not change the trim. */
  lemma TrimAfterTrimStart(s: string)
    ensures Trim(TrimStart(s)) == Trim(s)
  {
    TrimStartSpec(s);
    assert TrimStart(TrimStart(s)) == TrimStart(s);
  }

  predicate StartsWith(s: string, prefix: string) {
    |prefix| <= |s| && s[..|prefix|] == prefix
  }

  predicate EndsWith(s: string, suffix: string) {
    |suffix| <= |s| && s[|s| - |suffix|..] == suffix
  }

  /** `pat` occurs in `s` starting at index `i`. */
  predicate OccursAt(s: string, pat: string, i: int) {
    0 <= i && i + |pat| <= |s| && s[i..i + |pat|] == pat
  }

  /** The first index at or after `from` where `pat` occurs: the leftmost
      match of a fixed pattern, as `indexOf`, `str.find` and regex search
      report it. */
  function FindFrom(s: string, pat: string, from: nat): (r: Option<nat>)
    decreases |s| - from
    ensures r.Some? ==> from <= r.value && OccursAt(s, pat, r.value)
    ensures r.Some? ==> forall k :: from <= k < r.value ==> !OccursAt(s, pat, k)
    ensures r.None? ==> forall k :: from <= k ==> !OccursAt(s, pat, k)
  {
    if from + |pat| > |s| then None
    else if OccursAt(s, pat, from) then Some(from)
    else FindFrom(s, pat, from + 1)
  }

  /** Python `pat in s`, JavaScript `s.includes(pat)`. */
  predicate Contains(s: string, pat: string) {
    FindFrom(s, pat, 0).Some?
  }

  lemma ContainsAt(s: string, pat: string, i: int)
    requires OccursAt(s, pat, i)
    ensures Contains(s, pat)
  {
  }

  lemma NotContains(s: string, pat: string, i: int)
    requires !Contains(s, pat)
    ensures !OccursAt(s, pat, i)
  {
  }

  /** A slice of text that holds `t` at `p` is the matching slice of `t`. */
  lemma SliceWithin(s: string, t: string, p: nat, a: nat, b: nat)
    requires p + |t| <= |s| && s[p..p + |t|] == t && a <= b <= |t|
    ensures s[p + a..p + b] == t[a..b]
  {
    forall i | a <= i < b ensures s[p + i] == t[i] {
      assert s[p + i] == s[p..p + |t|][i];
    }
    assert s[p + a..p + b] == t[a..b];
  }

  /** After `inner`, the first `close` is the one that ends the block. */
  lemma {:induction false} FirstCloseAfter(r: string, p: nat, inner: string, close: string)
    requires p <= |r| && StartsWith(r[p..], inner + close)
    requires forall k :: 0 <= k < |inner| ==> !OccursAt(inner + close, close, k)
    ensures OccursAt(r, close, p + |inner|)
    ensures forall k :: p <= k < p + |inner| ==> !OccursAt(r, close, k)
  {
    var t := inner + close;
    assert r[p..p + |t|] == t by {
      assert r[p..][..|t|] == r[p..p + |t|];
    }
    forall k | p <= k < p + |inner| ensures !OccursAt(r, close, k) {
      assert !OccursAt(t, close, k - p);
      SliceWithin(r, t, p, k - p, k - p + |close|);
    }
    SliceWithin(r, t, p, |inner|, |t|);
    assert t[|inner|..] == close;
  }

  /** The leftmost occurrence from `from` on is the one with none before it. */
  lemma {:induction false} FindFromAt(s: string, pat: string, from: nat, q: nat)
    requires from <= q && OccursAt(s, pat, q)
    requires forall k :: from <= k < q ==> !OccursAt(s, pat, k)
    ensures FindFrom(s, pat, from) == Some(q)
    decreases q - from
  {
    if from < q {
      FindFromAt(s, pat, from + 1, q);
    }
  }

  /** Two texts that agree on their first `n` characters agree on every
      occurrence that ends by `n`. */
  lemma OccursAtPrefix(s: string, r: string, pat: string, k: nat, n: nat)
    requires k + |pat| <= n <= |s| && n <= |r| && r[..n] == s[..n]
    ensures OccursAt(r, pat, k) <==> OccursAt(s, pat, k)
  {
    assert r[k..k + |pat|] == r[..n][k..k + |pat|];
    assert s[k..k + |pat|] == s[..n][k..k + |pat|];
  }

  /** The last index at or before `k` where `pat` occurs. */
  function LastFrom(s: string, pat: string, k: int): (r: Option<nat>)
    decreases k + 1
    ensures r.Some? ==> r.value <= k && OccursAt(s, pat, r.value)
    ensures r.Some? ==> forall m :: r.value < m <= k ==> !OccursAt(s, pat, m)
    ensures r.None? ==> forall m :: m <= k ==> !OccursAt(s, pat, m)
  {
    if k < 0 then None
    else if OccursAt(s, pat, k) then Some(k)
    else LastFrom(s, pat, k - 1)
  }

  /** The last match of a fixed pattern, as `lastIndexOf` and `str.rfind` report it. */
  function LastIndexOf(s: string, pat: string): (r: Option<nat>)
    ensures r.Some? ==> OccursAt(s, pat, r.value)
    ensures r.Some? ==> forall m :: r.value < m ==> !OccursAt(s, pat, m)
    ensures r.None? ==> forall m :: !OccursAt(s, pat, m)
  {
    LastFrom(s, pat, |s|)
  }

  /** Nothing after the last occurrence of `pat` contains `pat`. */
  lemma AfterLastHasNone(s: string, pat: string, k: nat)
    requires |pat| > 0 && OccursAt(s, pat, k)
    requires forall m :: k < m ==> !OccursAt(s, pat, m)
    ensures !Contains(s[k + |pat|..], pat)
  {
    var t := s[k + |pat|..];
    forall m | 0 <= m && m + |pat| <= |t| ensures !OccursAt(t, pat, m) {
      assert t[m..m + |pat|] == s[k + |pat| + m..k + |pat| + m + |pat|];
      assert !OccursAt(s, pat, k + |pat| + m);
    }
  }

  /** The last occurrence is the one with none after it. */
  lemma LastIndexOfAt(s: string, pat: string, k: nat)
    requires OccursAt(s, pat, k)
    requires forall m :: k < m ==> !OccursAt(s, pat, m)
    ensures LastIndexOf(s, pat) == Some(k)
  {
  }

  /** A string contains every piece it is built around. */
  lemma ContainsMiddle(a: string, p: string, b: string)
    ensures Contains(a + p + b, p)
  {
    var s := a + p + b;
    assert s[|a|..|a| + |p|] == p;
    ContainsAt(s, p, |a|);
  }

  /** Python `sep.join(parts)`. */
  function Join(parts: seq<string>, sep: string): string
  {
    if |parts| == 0 then ""
    else if |parts| == 1 then parts[0]
    else parts[0] + sep + Join(parts[1..], sep)
  }

  /** Joining after appending one more part puts one separator before it. */
  lemma {:induction false} JoinSnoc(parts: seq<string>, x: string, sep: string)
    requires |parts| > 0
    ensures Join(parts + [x], sep) == Join(parts, sep) + sep + x
    decreases |parts|
  {
    if |parts| == 1 {
      assert parts + [x] == [parts[0], x];
      assert [parts[0], x][1..] == [x];
    } else {
      assert (parts + [x])[1..] == parts[1..] + [x];
      JoinSnoc(parts[1..], x, sep);
    }
  }

  /** Python `s.split(c)` for a single-character separator: the pieces
      contain no separator and joining them with it gives `s` back. */
  function Split(s: string, c: char): (r: seq<string>)
    ensures |r| >= 1
    ensures forall i :: 0 <= i < |r| ==> c !in r[i]
    ensures Join(r, [c]) == s
  {
    if |s| == 0 then [""]
    else
      var rest := Split(s[1..], c);
      if s[0] == c then
        assert ([""] + rest)[1..] == rest;
        [""] + rest
      else
        var r := [[s[0]] + rest[0]] + rest[1..];
        assert Join(r, [c]) == s by {
          if |rest| > 1 {
            assert r[1..] == rest[1..];
          }
        }
        r
  }

  /** Splitting a join of separator-free pieces gives the pieces back. */
  lemma {:induction false} SplitJoin(parts: seq<string>, c: char)
    requires |parts| >= 1
    requires forall i :: 0 <= i < |parts| ==> c !in parts[i]
    ensures Split(Join(parts, [c]), c) == parts
    decreases |parts|, |parts[0]|
  {
    if |parts[0]| == 0 {
      if |parts| == 1 {
      } else {
        var s := Join(parts, [c]);
        assert s == [c] + Join(parts[1..], [c]);
        assert s[1..] == Join(parts[1..], [c]);
        SplitJoin(parts[1..], c);
        assert parts == [""] + parts[1..];
      }
    } else {
      var p0 := parts[0];
      var tail := [p0[1..]] + parts[1..];
      assert tail[1..] == parts[1..];
      var s := Join(parts, [c]);
      assert s == [p0[0]] + Join(tail, [c]) by {
        if |parts| > 1 {
          assert s == p0 + [c] + Join(parts[1..], [c]);
          assert p0 == [p0[0]] + p0[1..];
        } else {
          assert p0 == [p0[0]] + p0[1..];
        }
      }
      assert p0[0] != c by { assert p0[0] in p0; }
      assert forall i :: 0 <= i < |tail| ==> c !in tail[i] by {
        forall i | 0 <= i < |tail| ensures c !in tail[i] {
          if i == 0 {
            assert forall x :: x in p0[1..] ==> x in p0;
          } else {
            assert tail[i] == parts[i];
          }
        }
      }
      assert s[1..] == Join(tail, [c]);
      SplitJoin(tail, c);
      var rest := Split(s[1..], c);
      assert rest == tail;
      assert [p0[0]] + p0[1..] == p0;
      assert parts == [p0] + parts[1..];
    }
  }

  predicate IsDigit(c: char) {
    '0' <= c <= '9'
  }

  predicate AllDigits(s: string) {
    forall k :: 0 <= k < |s| ==> IsDigit(s[k])
  }

  /** End (exclusive) of the maximal digit run that starts at `j`. */
  function RunEnd(s: string, j: nat): (b: nat)
    requires j <= |s|
    decreases |s| - j
    ensures j <= b <= |s| && AllDigits(s[j..b]) && (b == |s| || !IsDigit(s[b]))
  {
    if j < |s| && IsDigit(s[j]) then
      var b := RunEnd(s, j + 1);
      assert s[j..b] == [s[j]] + s[j + 1..b];
      b
    else j
  }

  /** A digit run ends at the first non-digit. */
  lemma {:induction false} RunEndIsMaximal(s: string, j: nat, b: nat)
    requires j <= b <= |s| && AllDigits(s[j..b]) && (b == |s| || !IsDigit(s[b]))
    ensures RunEnd(s, j) == b
    decreases b - j
  {
    if j < b {
      assert s[j] == s[j..b][0];
      assert s[j + 1..b] == s[j..b][1..];
      RunEndIsMaximal(s, j + 1, b);
    }
  }

  /** The value of a decimal digit string (leading zeros allowed, as in
      `parseInt("08")` and `float("00001")`). */
  function DigitsValue(s: string): nat
    requires AllDigits(s)
  {
    if |s| == 0 then 0
    else DigitsValue(s[..|s| - 1]) * 10 + (s[|s| - 1] as int - '0' as int)
  }

  function Pow10(n: nat): (r: nat)
    ensures r >= 1
  {
    if n == 0 then 1 else 10 * Pow10(n - 1)
  }

  /** A string of `n` digits is worth less than 10^n. */
  lemma {:induction false} DigitsValueBound(s: string)
    requires AllDigits(s)
    ensures DigitsValue(s) < Pow10(|s|)
    decreases |s|
  {
    if |s| > 0 {
      DigitsValueBound(s[..|s| - 1]);
    }
  }

  function DigitChar(d: nat): (c: char)
    requires d < 10
    ensures IsDigit(c) && c as int - '0' as int == d
  {
    (d + '0' as int) as char
  }

  /** Python `str(n)` / JavaScript template interpolation of a natural number:
      the canonical decimal spelling, which reads back as `n`. */
  function NatToString(n: nat): (r: string)
    ensures |r| > 0 && AllDigits(r) && DigitsValue(r) == n
    ensures |r| > 1 ==> r[0] != '0'
  {
    if n < 10 then [DigitChar(n)]
    else
      var r := NatToString(n / 10) + [DigitChar(n % 10)];
      assert r[..|r| - 1] == NatToString(n / 10);
      r
  }

  /** ASCII case mapping; other characters are left alone. */
  function AsciiLower(c: char): char {
    if 'A' <= c <= 'Z' then (c as int + 32) as char else c
  }

  function AsciiUpper(c: char): char {
    if 'a' <= c <= 'z' then (c as int - 32) as char else c
  }

  function Lower(s: string): (r: string)
    ensures |r| == |s|
  {
    seq(|s|, k requires 0 <= k < |s| => AsciiLower(s[k]))
  }

  /** Joining two runs of parts is joining their concatenation. */
  lemma {:induction false} JoinAppend(a: seq<string>, b: seq<string>, sep: string)
    requires |a| > 0 && |b| > 0
    ensures Join(a, sep) + sep + Join(b, sep) == Join(a + b, sep)
    decreases |a|
  {
    if |a| == 1 {
      assert (a + b)[1..] == b;
    } else {
      JoinAppend(a[1..], b, sep);
      assert (a + b)[1..] == a[1..] + b;
    }
  }

  /** Python's `<=` on strings: code-point lexicographic order, a prefix
      first. */
  predicate StrLe(a: string, b: string)
    decreases |a|
  {
    |a| == 0 || (|b| > 0 && (a[0] < b[0] || (a[0] == b[0] && StrLe(a[1..], b[1..]))))
  }

  lemma {:induction false} StrLeTotal(a: string, b: string)
    ensures StrLe(a, b) || StrLe(b, a)
    decreases |a|
  {
    if |a| > 0 && |b| > 0 && a[0] == b[0] {
      StrLeTotal(a[1..], b[1..]);
    }
  }

  lemma {:induction false} StrLeTrans(a: string, b: string, c: string)
    requires StrLe(a, b) && StrLe(b, c)
    ensures StrLe(a, c)
    decreases |a|
  {
    if |a| > 0 && a[0] == b[0] && b[0] == c[0] {
      StrLeTrans(a[1..], b[1..], c[1..]);
    }
  }

  lemma {:induction false} StrLeAntisym(a: string, b: string)
    requires StrLe(a, b) && StrLe(b, a)
    ensures a == b
    decreases |a|
  {
    if |a| > 0 {
      StrLeAntisym(a[1..], b[1..]);
      assert a == [a[0]] + a[1..] && b == [b[0]] + b[1..];
    }
  }
}
