/** The reading-list side of the reading-progress reconciler: ISBN
    normalisation, one `author, title, NofM` line turned into an entry with a
    completion flag and a 1-10 progress step, and duplicate detection. */
module ReadingList {
  import opened Wrappers
  import opened Strings
  import MdFields

  // ---------------------------------------------------------------------
  // normalizeIsbn

  /** Removes every hyphen (an empty ISBN stays empty). */
  function NormalizeIsbn(isbn: string): (r: string)
    ensures '-' !in r
    ensures forall c :: c != '-' ==> multiset(r)[c] == multiset(isbn)[c]
    ensures '-' !in isbn ==> r == isbn
  {
    if |isbn| == 0 then ""
    else
      assert isbn == [isbn[0]] + isbn[1..];
      (if isbn[0] == '-' then "" else [isbn[0]]) + NormalizeIsbn(isbn[1..])
  }

  /** Hyphens are removed piece by piece, so the order of the other
      characters is kept. */
  lemma {:induction false} NormalizeIsbnAppend(a: string, b: string)
    ensures NormalizeIsbn(a + b) == NormalizeIsbn(a) + NormalizeIsbn(b)
    decreases |a|
  {
    if |a| == 0 {
      assert a + b == b;
    } else {
      assert (a + b)[1..] == a[1..] + b;
      NormalizeIsbnAppend(a[1..], b);
    }
  }

  lemma NormalizeIsbnIdempotent(isbn: string)
    ensures NormalizeIsbn(NormalizeIsbn(isbn)) == NormalizeIsbn(isbn)
  {
  }

  // ---------------------------------------------------------------------
  // The `(\d+)of(\d+)` match in the progress field

  /** A digit, then `of`, then a digit, with the `o` at `i + 1`. */
  predicate OfAt(s: string, i: int) {
    0 <= i && i + 3 < |s| && IsDigit(s[i]) && s[i + 1] == 'o' && s[i + 2] == 'f' && IsDigit(s[i + 3])
  }

  function FirstOfFrom(s: string, from: nat): (r: Option<nat>)
    decreases |s| - from
    ensures r.Some? ==> from <= r.value && OfAt(s, r.value)
    ensures r.Some? ==> forall k :: from <= k < r.value ==> !OfAt(s, k)
    ensures r.None? ==> forall k :: from <= k ==> !OfAt(s, k)
  {
    if from + 3 >= |s| then None
    else if OfAt(s, from) then Some(from)
    else FirstOfFrom(s, from + 1)
  }

  /** Start of the maximal digit run that ends at `i`. */
  function RunStart(s: string, i: nat): (a: nat)
    requires i < |s| && IsDigit(s[i])
    ensures a <= i && AllDigits(s[a..i + 1]) && (a == 0 || !IsDigit(s[a - 1]))
  {
    if i > 0 && IsDigit(s[i - 1]) then
      var a := RunStart(s, i - 1);
      assert s[a..i + 1] == s[a..i] + [s[i]];
      a
    else i
  }

  /** The first `NofM` in a field, read as two numbers: the regex match
      `(\d+)of(\d+)` with both digit runs as long as they go. */
  function ProgressMatch(s: string): (r: Option<(nat, nat)>)
    ensures r.None? <==> forall k :: !OfAt(s, k)
  {
    match FirstOfFrom(s, 0)
    case None => None
    case Some(i) =>
      var a := RunStart(s, i);
      var b := RunEnd(s, i + 3);
      Some((DigitsValue(s[a..i + 1]), DigitsValue(s[i + 3..b])))
  }

  /** `s[a..b]` reads as `N of M` with the `o` at `i + 1`, both numbers
      maximal, and no earlier `NofM` in `s`: what the regex reports. */
  predicate IsLeftmostNofM(s: string, a: nat, i: nat, b: nat) {
    && a <= i && OfAt(s, i) && i + 3 < b <= |s|
    && AllDigits(s[a..i + 1]) && (a == 0 || !IsDigit(s[a - 1]))
    && AllDigits(s[i + 3..b]) && (b == |s| || !IsDigit(s[b]))
    && forall k :: 0 <= k < i ==> !OfAt(s, k)
  }

  lemma {:induction false} RunStartIsMaximal(s: string, a: nat, i: nat)
    requires a <= i < |s| && AllDigits(s[a..i + 1]) && (a == 0 || !IsDigit(s[a - 1]))
    ensures RunStart(s, i) == a
    decreases i
  {
    assert s[i] == s[a..i + 1][i - a];
    if i > a {
      assert s[i - 1] == s[a..i + 1][i - 1 - a];
      assert s[a..i] == s[a..i + 1][..i - a];
      RunStartIsMaximal(s, a, i - 1);
    }
  }

  /** The reference reading of the match: whenever `s` holds a leftmost
      `NofM`, the two numbers reported are its two digit runs. */
  lemma ProgressMatchIsLeftmost(s: string, a: nat, i: nat, b: nat)
    requires IsLeftmostNofM(s, a, i, b)
    ensures ProgressMatch(s) == Some((DigitsValue(s[a..i + 1]), DigitsValue(s[i + 3..b])))
  {
    assert FirstOfFrom(s, 0) == Some(i);
    RunStartIsMaximal(s, a, i);
    RunEndIsMaximal(s, i + 3, b);
  }

  // ---------------------------------------------------------------------
  // The 1-10 progress step

  lemma CeilingTenths(cur: nat, total: nat)
    requires cur < total
    ensures var q := (10 * cur + total - 1) / total;
      0 <= q <= 10 && (cur > 0 ==> 1 <= q && (q - 1) * total < 10 * cur <= q * total)
  {
    var n := 10 * cur + total - 1;
    var q := n / total;
    var m := n % total;
    assert n == q * total + m && 0 <= m < total;
    assert q * total >= 10 * cur;
    assert (q - 1) * total < 10 * cur;
    assert q * total <= 11 * total - 11;
    assert (11 - q) * total > 0;
    assert (q + 1) * total > 0;
    if cur > 0 {
      assert q * total > 0;
    }
  }

  function Min(a: int, b: int): int { if a <= b then a else b }

  function Max(a: int, b: int): int { if a >= b then a else b }

  /** The progress step of an unfinished book: the percentage read, rounded
      up to whole tenths, and at least 1. */
  function ProgressStep(cur: nat, total: nat): (p: nat)
    requires cur < total
    ensures 1 <= p <= 10
    ensures cur == 0 ==> p == 1
    ensures cur > 0 ==> (p - 1) * total < 10 * cur <= p * total
  {
    CeilingTenths(cur, total);
    Min(10, Max(1, (10 * cur + total - 1) / total))
  }

  // ---------------------------------------------------------------------
  // parseMdLine

  datatype MdEntry = MdEntry(
    author: string,
    title: string,
    progress: nat,
    isCompleted: bool,
    currentPage: nat,
    totalPages: nat,
    progressStr: string)

  /** The line has no third field, so reading its progress fails. */
  datatype LineError = MissingProgressField

  function ParseMdLine(line: string): (r: Result<MdEntry, LineError>)
    ensures r.Failure? <==> |MdFields.Fields(line)| < 3
    ensures r.Success? ==>
      var f := MdFields.Fields(line);
      && r.value.author == f[0] && r.value.title == f[1] && r.value.progressStr == f[2]
      && 1 <= r.value.progress <= 10
    ensures r.Success? && ProgressMatch(r.value.progressStr).None? ==>
      r.value.progress == 1 && r.value.currentPage == 0 && r.value.totalPages == 0 && !r.value.isCompleted
    ensures r.Success? && ProgressMatch(r.value.progressStr).Some? ==>
      var (n, m) := ProgressMatch(r.value.progressStr).value;
      && r.value.currentPage == n && r.value.totalPages == m
      && (r.value.isCompleted <==> n >= m)
      && (r.value.isCompleted ==> r.value.progress == 1)
      && (!r.value.isCompleted && n == 0 ==> r.value.progress == 1)
      && (!r.value.isCompleted && n > 0 ==> (r.value.progress - 1) * m < 10 * n <= r.value.progress * m)
  {
    var f := MdFields.Fields(line);
    if |f| < 3 then Failure(MissingProgressField)
    else
      match ProgressMatch(f[2])
      case None => Success(MdEntry(f[0], f[1], 1, false, 0, 0, f[2]))
      case Some((n, m)) =>
        if n >= m then Success(MdEntry(f[0], f[1], 1, true, n, m, f[2]))
        else Success(MdEntry(f[0], f[1], ProgressStep(n, m), false, n, m, f[2]))
  }

  // ---------------------------------------------------------------------
  // detectDuplicates

  /** The key books are compared by. */
  function Key(e: MdEntry): string {
    e.author + "|||" + e.title
  }

  /** Line `j` (0-based) is the first with its key. */
  predicate IsFirstWithKey(md: seq<MdEntry>, j: int) {
    0 <= j < |md| && forall i :: 0 <= i < j ==> Key(md[i]) != Key(md[j])
  }

  /** A repeated book: the 1-based line of its first occurrence and of a later one. */
  datatype Duplicate = Duplicate(author: string, title: string, firstLine: nat, laterLine: nat)

  predicate Reports(md: seq<MdEntry>, d: Duplicate) {
    && 1 <= d.firstLine < d.laterLine <= |md|
    && Key(md[d.firstLine - 1]) == Key(md[d.laterLine - 1])
    && IsFirstWithKey(md, d.firstLine - 1)
    && d.author == md[d.laterLine - 1].author && d.title == md[d.laterLine - 1].title
  }

  /** Line `j` (0-based) has a report naming it as the later line. */
  predicate Covered(dups: seq<Duplicate>, j: int) {
    exists d :: d in dups && d.laterLine == j + 1
  }

  /** What the scan knows after `i` lines: `seen` maps every key met so far
      to the line it was first met on, and `dups` reports, in line order,
      exactly the repeats among those lines. */
  predicate Scanned(md: seq<MdEntry>, seen: map<string, nat>, dups: seq<Duplicate>, i: nat) {
    && i <= |md|
    && (forall k :: k in seen ==> seen[k] < i && Key(md[seen[k]]) == k && IsFirstWithKey(md, seen[k]))
    && (forall j :: 0 <= j < i ==> Key(md[j]) in seen)
    && (forall d :: d in dups ==> Reports(md, d) && d.laterLine <= i)
    && (forall j :: 0 <= j < i && !IsFirstWithKey(md, j) ==> Covered(dups, j))
    && (forall a, b :: 0 <= a < b < |dups| ==> dups[a].laterLine < dups[b].laterLine)
  }

  /** A line whose key was met before is reported against the first line
      with that key. */
  lemma ScanRepeat(md: seq<MdEntry>, seen: map<string, nat>, dups: seq<Duplicate>, i: nat)
    requires Scanned(md, seen, dups, i) && i < |md| && Key(md[i]) in seen
    ensures Scanned(md, seen, dups + [Duplicate(md[i].author, md[i].title, seen[Key(md[i])] + 1, i + 1)], i + 1)
  {
    var d := Duplicate(md[i].author, md[i].title, seen[Key(md[i])] + 1, i + 1);
    var dups' := dups + [d];
    assert Reports(md, d);
    forall j | 0 <= j < i + 1 && !IsFirstWithKey(md, j) ensures Covered(dups', j) {
      if j == i {
        assert d in dups';
      } else {
        var w :| w in dups && w.laterLine == j + 1;
        assert w in dups';
      }
    }
  }

  /** A line with a key not met before is the first with that key. */
  lemma ScanNew(md: seq<MdEntry>, seen: map<string, nat>, dups: seq<Duplicate>, i: nat)
    requires Scanned(md, seen, dups, i) && i < |md| && Key(md[i]) !in seen
    ensures Scanned(md, seen[Key(md[i]) := i], dups, i + 1)
  {
    assert IsFirstWithKey(md, i);
  }

  /** At the end every repeat is reported, and nothing is reported exactly
      when all keys differ. */
  lemma ScanDone(md: seq<MdEntry>, seen: map<string, nat>, dups: seq<Duplicate>)
    requires Scanned(md, seen, dups, |md|)
    ensures dups == [] <==> forall i, j :: 0 <= i < j < |md| ==> Key(md[i]) != Key(md[j])
  {
    if dups == [] {
      forall a, b | 0 <= a < b < |md| ensures Key(md[a]) != Key(md[b]) {
        assert !Covered(dups, b);
        assert IsFirstWithKey(md, b);
      }
    } else {
      assert Reports(md, dups[0]);
    }
  }

  /** Every repeat of an earlier key is reported once, in line order, against
      the key's first line; nothing is reported when all keys differ. */
  method DetectDuplicates(md: seq<MdEntry>) returns (dups: seq<Duplicate>)
    ensures forall d :: d in dups ==> Reports(md, d)
    ensures forall j :: 0 <= j < |md| && !IsFirstWithKey(md, j) ==> Covered(dups, j)
    ensures forall a, b :: 0 <= a < b < |dups| ==> dups[a].laterLine < dups[b].laterLine
    ensures dups == [] <==> forall i, j :: 0 <= i < j < |md| ==> Key(md[i]) != Key(md[j])
  {
    var seen: map<string, nat> := map[];
    dups := [];
    var i := 0;
    while i < |md|
      invariant Scanned(md, seen, dups, i)
    {
      var key := Key(md[i]);
      if key in seen {
        ScanRepeat(md, seen, dups, i);
        dups := dups + [Duplicate(md[i].author, md[i].title, seen[key] + 1, i + 1)];
      } else {
        ScanNew(md, seen, dups, i);
        seen := seen[key := i];
      }
      i := i + 1;
    }
    ScanDone(md, seen, dups);
  }
}
