/** Which files in the images directory belong to a project, and in what
    order the gallery shows them. */
module ImageOrder {
  import opened Wrappers
  import opened Strings
  import Assoc

  const ImageExtensions: set<string> := {".png", ".jpg", ".jpeg", ".gif", ".webp"}

  /** `pathlib`'s `suffix`: from the last dot, provided that dot is neither
      the first nor the last character of the name. */
  function Suffix(name: string): (r: string)
    ensures r == [] || (2 <= |r| < |name| && r[0] == '.' && EndsWith(name, r))
    ensures r != [] ==> !Contains(r[1..], ".")
  {
    match LastIndexOf(name, ".")
    case None => ""
    case Some(i) =>
      if 0 < i < |name| - 1 then
        AfterLastHasNone(name, ".", i);
        assert name[i..][1..] == name[i + 1..];
        name[i..]
      else ""
  }

  /** A stem and a dotted, dot-free extension come apart again. */
  lemma {:induction false} SuffixOf(stem: string, ext: string)
    requires |stem| > 0 && |ext| >= 2 && ext[0] == '.' && !Contains(ext[1..], ".")
    ensures Suffix(stem + ext) == ext
  {
    var name := stem + ext;
    var n := |stem|;
    assert name[n..n + 1] == ".";
    forall m | n < m ensures !OccursAt(name, ".", m) {
      if m + 1 <= |name| {
        assert name[m..m + 1] == ext[1..][m - n - 1..m - n];
        NotContains(ext[1..], ".", m - n - 1);
      }
    }
    LastIndexOfAt(name, ".", n);
    assert name[n..] == ext;
  }

  predicate IsImage(name: string) {
    Lower(Suffix(name)) in ImageExtensions
  }

  // ---------------------------------------------------------------------
  // get_sort_key

  /** `(tier, float(number), filename)`: the number is kept exact. */
  datatype SortKey = SortKey(tier: nat, seqNo: real, name: string)

  predicate DigitAt(s: string, i: int) {
    0 <= i < |s| && IsDigit(s[i])
  }

  /** The value of `whole.frac` as a decimal number. */
  function DecimalValue(whole: string, frac: string): (v: real)
    requires AllDigits(whole) && AllDigits(frac)
    ensures v >= DigitsValue(whole) as real
  {
    DigitsValue(whole) as real + DigitsValue(frac) as real / Pow10(|frac|) as real
  }

  /** The number right after `prefix_`: a digit run, then `.` and a second
      run when one follows. */
  function UnderscoreNumber(name: string, p: nat): (v: real)
    requires DigitAt(name, p + 1)
    ensures v >= 0.0
  {
    var e := RunEnd(name, p + 1);
    var whole := name[p + 1..e];
    if DigitAt(name, e + 1) && name[e] == '.' then
      var f := RunEnd(name, e + 1);
      DecimalValue(whole, name[e + 1..f])
    else DigitsValue(whole) as real
  }

  predicate UnderscoreNumbered(name: string, prefix: string) {
    StartsWith(name, prefix) && |name| > |prefix| && name[|prefix|] == '_' && DigitAt(name, |prefix| + 1)
  }

  predicate RunNumbered(name: string, prefix: string) {
    StartsWith(name, prefix) && DigitAt(name, |prefix|)
  }

  predicate Continued(name: string, prefix: string) {
    prefix == "ulysquot" && StartsWith(name, "ulysquotC") && DigitAt(name, 9)
  }

  /** Numbered files first (by number), then the `ulysquotC` continuation
      images (by number), then everything else; the file name breaks ties. */
  function SortKeyOf(name: string, prefix: string): (k: SortKey)
    ensures k.name == name && k.tier <= 2 && k.seqNo >= 0.0
    ensures k.tier == 0 <==> UnderscoreNumbered(name, prefix) || RunNumbered(name, prefix)
    ensures k.tier == 1 <==> !UnderscoreNumbered(name, prefix) && !RunNumbered(name, prefix) && Continued(name, prefix)
    ensures k.tier == 2 ==> k.seqNo == 0.0
  {
    var p := |prefix|;
    if UnderscoreNumbered(name, prefix) then SortKey(0, UnderscoreNumber(name, p), name)
    else if RunNumbered(name, prefix) then SortKey(0, DigitsValue(name[p..RunEnd(name, p)]) as real, name)
    else if Continued(name, prefix) then SortKey(1, DigitsValue(name[9..RunEnd(name, 9)]) as real, name)
    else SortKey(2, 0.0, name)
  }

  /** A digit run written at `j` and not followed by a digit is the run
      the scanner finds there. */
  lemma RunAt(name: string, j: nat, digits: string)
    requires |digits| > 0 && AllDigits(digits)
    requires j + |digits| <= |name| && name[j..j + |digits|] == digits
    requires j + |digits| == |name| || !IsDigit(name[j + |digits|])
    ensures DigitAt(name, j) && RunEnd(name, j) == j + |digits|
  {
    assert name[j] == digits[0];
    RunEndIsMaximal(name, j, j + |digits|);
  }

  /** Where the pieces of `prefix_W.F…` sit in the name. */
  lemma DottedPieces(prefix: string, whole: string, frac: string, rest: string)
    ensures var name := prefix + "_" + whole + "." + frac + rest;
      var e := |prefix| + 1 + |whole|;
      && |name| == e + 1 + |frac| + |rest|
      && name[..|prefix|] == prefix && name[|prefix|] == '_'
      && name[|prefix| + 1..e] == whole && name[e] == '.'
      && name[e + 1..e + 1 + |frac|] == frac
      && name[e + 1 + |frac|..] == rest
  {
  }

  /** `prefix_W.F…` reads as the decimal W.F. */
  lemma {:induction false} SortKeyDotted(prefix: string, whole: string, frac: string, rest: string)
    requires |whole| > 0 && |frac| > 0 && AllDigits(whole) && AllDigits(frac)
    requires rest == [] || !IsDigit(rest[0])
    ensures SortKeyOf(prefix + "_" + whole + "." + frac + rest, prefix)
         == SortKey(0, DecimalValue(whole, frac), prefix + "_" + whole + "." + frac + rest)
  {
    var name := prefix + "_" + whole + "." + frac + rest;
    var p := |prefix|;
    var e := p + 1 + |whole|;
    var f := e + 1 + |frac|;
    DottedPieces(prefix, whole, frac, rest);
    assert f < |name| ==> name[f] == rest[0];
    RunAt(name, p + 1, whole);
    RunAt(name, e + 1, frac);
    DottedKey(name, prefix, whole, frac);
  }

  /** The key of a name whose number after `prefix_` has a decimal part. */
  lemma DottedKey(name: string, prefix: string, whole: string, frac: string)
    requires StartsWith(name, prefix) && |prefix| + 1 + |whole| + 1 < |name| && name[|prefix|] == '_'
    requires AllDigits(whole) && AllDigits(frac)
    requires var e := |prefix| + 1 + |whole|;
      && DigitAt(name, |prefix| + 1) && RunEnd(name, |prefix| + 1) == e && name[|prefix| + 1..e] == whole
      && name[e] == '.' && DigitAt(name, e + 1)
      && e + 1 + |frac| <= |name| && RunEnd(name, e + 1) == e + 1 + |frac| && name[e + 1..e + 1 + |frac|] == frac
    ensures SortKeyOf(name, prefix) == SortKey(0, DecimalValue(whole, frac), name)
  {
  }

  /** `prefix_W…` with no decimal part reads as W. */
  lemma {:induction false} SortKeyUnderscore(prefix: string, whole: string, rest: string)
    requires |whole| > 0 && AllDigits(whole)
    requires rest == [] || (!IsDigit(rest[0]) && !(rest[0] == '.' && DigitAt(rest, 1)))
    ensures SortKeyOf(prefix + "_" + whole + rest, prefix)
         == SortKey(0, DigitsValue(whole) as real, prefix + "_" + whole + rest)
  {
    var name := prefix + "_" + whole + rest;
    var p := |prefix|;
    var e := p + 1 + |whole|;
    assert name[..p] == prefix;
    assert name[p + 1..e] == whole;
    assert name[p + 1] == whole[0];
    RunEndIsMaximal(name, p + 1, e);
    if e < |name| {
      assert name[e] == rest[0];
      assert DigitAt(name, e + 1) ==> DigitAt(rest, 1);
    }
  }

  /** `prefixNNN…` reads as NNN. */
  lemma {:induction false} SortKeyRun(prefix: string, digits: string, rest: string)
    requires |digits| > 0 && AllDigits(digits)
    requires rest == [] || !IsDigit(rest[0])
    ensures SortKeyOf(prefix + digits + rest, prefix)
         == SortKey(0, DigitsValue(digits) as real, prefix + digits + rest)
  {
    var name := prefix + digits + rest;
    var p := |prefix|;
    assert name[..p] == prefix;
    assert name[p..p + |digits|] == digits;
    assert name[p] == digits[0];
    RunEndIsMaximal(name, p, p + |digits|);
  }

  /** `ulysquotCNNN…` comes after every numbered `ulysquot` image. */
  lemma {:induction false} SortKeyContinued(digits: string, rest: string)
    requires |digits| > 0 && AllDigits(digits)
    requires rest == [] || !IsDigit(rest[0])
    ensures SortKeyOf("ulysquotC" + digits + rest, "ulysquot")
         == SortKey(1, DigitsValue(digits) as real, "ulysquotC" + digits + rest)
  {
    var name := "ulysquotC" + digits + rest;
    assert name[..8] == "ulysquot" && name[..9] == "ulysquotC";
    assert name[9..9 + |digits|] == digits;
    assert name[9] == digits[0];
    RunEndIsMaximal(name, 9, 9 + |digits|);
  }

  /** Scaling numerator and denominator alike leaves a quotient alone. */
  lemma ScaledQuotient(a: real, b: real)
    requires b > 0.0
    ensures (10.0 * a) / (10.0 * b) == a / b
  {
    var q := a / b;
    assert q * b == a;
    assert q * (10.0 * b) == 10.0 * a;
  }

  /** A fraction whose numerator is below its denominator is below one. */
  lemma ProperFraction(a: real, b: real)
    requires 0.0 <= a < b
    ensures a / b < 1.0
  {
    var q := a / b;
    assert q * b == a;
    assert (1.0 - q) * b == b - a;
  }

  lemma Pow10Snoc(n: nat)
    ensures Pow10(n + 1) == 10 * Pow10(n)
  {
  }

  /** A trailing zero changes nothing: `_1.10` and `_1.1` carry the same number. */
  lemma TrailingZero(whole: string, frac: string)
    requires AllDigits(whole) && AllDigits(frac)
    ensures AllDigits(frac + "0")
    ensures DecimalValue(whole, frac + "0") == DecimalValue(whole, frac)
  {
    var f0 := frac + "0";
    assert f0[..|f0| - 1] == frac;
    assert DigitsValue(f0) == 10 * DigitsValue(frac);
    Pow10Snoc(|frac|);
    var a := DigitsValue(frac) as real;
    var b := Pow10(|frac|) as real;
    assert DigitsValue(f0) as real == 10.0 * a;
    assert Pow10(|f0|) as real == 10.0 * b;
    ScaledQuotient(a, b);
  }

  /** The whole part decides first: every `_1.x` precedes `_2`. */
  lemma WholeDominates(w1: string, f1: string, w2: string, f2: string)
    requires AllDigits(w1) && AllDigits(f1) && AllDigits(w2) && AllDigits(f2)
    requires DigitsValue(w1) < DigitsValue(w2)
    ensures DecimalValue(w1, f1) < DecimalValue(w2, f2)
  {
    DigitsValueBound(f1);
    ProperFraction(DigitsValue(f1) as real, Pow10(|f1|) as real);
  }

  // ---------------------------------------------------------------------
  // The ordering of the keys

  predicate KeyLe(x: SortKey, y: SortKey) {
    || x.tier < y.tier
    || (x.tier == y.tier && (x.seqNo < y.seqNo || (x.seqNo == y.seqNo && StrLe(x.name, y.name))))
  }

  predicate Before(prefix: string, a: string, b: string) {
    KeyLe(SortKeyOf(a, prefix), SortKeyOf(b, prefix))
  }

  lemma BeforeTotal(prefix: string, a: string, b: string)
    ensures Before(prefix, a, b) || Before(prefix, b, a)
  {
    StrLeTotal(a, b);
  }

  lemma BeforeTrans(prefix: string, a: string, b: string, c: string)
    requires Before(prefix, a, b) && Before(prefix, b, c)
    ensures Before(prefix, a, c)
  {
    if StrLe(a, b) && StrLe(b, c) {
      StrLeTrans(a, b, c);
    }
  }

  /** The name is part of the key, so no two different names tie. */
  lemma BeforeAntisym(prefix: string, a: string, b: string)
    requires Before(prefix, a, b) && Before(prefix, b, a)
    ensures a == b
  {
    StrLeAntisym(a, b);
  }

  predicate SortedBy(prefix: string, s: seq<string>) {
    forall i, j :: 0 <= i < j < |s| ==> Before(prefix, s[i], s[j])
  }

  /** A name that comes before every element of a sorted sequence can be
      put in front of it. */
  lemma ConsSorted(prefix: string, h: string, t: seq<string>)
    requires SortedBy(prefix, t)
    requires forall j :: 0 <= j < |t| ==> Before(prefix, h, t[j])
    ensures SortedBy(prefix, [h] + t)
  {
    var r := [h] + t;
    forall i, j | 0 <= i < j < |r| ensures Before(prefix, r[i], r[j]) {
      if i > 0 {
        assert r[i] == t[i - 1] && r[j] == t[j - 1];
      }
    }
  }

  /** A name before the head of a sorted sequence is before all of it. */
  lemma BeforeHead(prefix: string, x: string, s: seq<string>)
    requires SortedBy(prefix, s) && |s| > 0 && Before(prefix, x, s[0])
    ensures forall j :: 0 <= j < |s| ==> Before(prefix, x, s[j])
  {
    forall j | 0 < j < |s| ensures Before(prefix, x, s[j]) {
      BeforeTrans(prefix, x, s[0], s[j]);
    }
  }

  /** The head of a sorted sequence comes before everything that is in the
      rest of it or comes after it. */
  lemma HeadBeforeInserted(prefix: string, x: string, s: seq<string>, t: seq<string>)
    requires SortedBy(prefix, s) && |s| > 0 && !Before(prefix, x, s[0])
    requires multiset(t) == multiset(s[1..]) + multiset{x}
    ensures forall j :: 0 <= j < |t| ==> Before(prefix, s[0], t[j])
  {
    forall j | 0 <= j < |t| ensures Before(prefix, s[0], t[j]) {
      assert t[j] in multiset(t);
      if t[j] == x {
        BeforeTotal(prefix, x, s[0]);
      } else {
        assert t[j] in multiset(s[1..]);
        var m :| 0 <= m < |s[1..]| && s[1..][m] == t[j];
        assert s[m + 1] == t[j];
      }
    }
  }

  function Insert(prefix: string, x: string, s: seq<string>): (r: seq<string>)
    requires SortedBy(prefix, s)
    ensures multiset(r) == multiset(s) + multiset{x}
    ensures SortedBy(prefix, r)
  {
    if |s| == 0 then [x]
    else if Before(prefix, x, s[0]) then
      BeforeHead(prefix, x, s);
      ConsSorted(prefix, x, s);
      [x] + s
    else
      assert SortedBy(prefix, s[1..]) by {
        forall i, j | 0 <= i < j < |s| - 1 ensures Before(prefix, s[1..][i], s[1..][j]) {
          assert s[1..][i] == s[i + 1] && s[1..][j] == s[j + 1];
        }
      }
      var t := Insert(prefix, x, s[1..]);
      HeadBeforeInserted(prefix, x, s, t);
      ConsSorted(prefix, s[0], t);
      assert s == [s[0]] + s[1..];
      [s[0]] + t
  }

  /** `images.sort(key=…)`: a sorted permutation of the candidates. */
  function SortImages(prefix: string, s: seq<string>): (r: seq<string>)
    ensures multiset(r) == multiset(s)
    ensures SortedBy(prefix, r)
  {
    if |s| == 0 then []
    else
      assert s == s[..|s| - 1] + [s[|s| - 1]];
      Insert(prefix, s[|s| - 1], SortImages(prefix, s[..|s| - 1]))
  }

  /** Two sorted arrangements of the same names start with the same name. */
  lemma SortedHeads(prefix: string, a: seq<string>, b: seq<string>)
    requires SortedBy(prefix, a) && SortedBy(prefix, b)
    requires multiset(a) == multiset(b) && |a| > 0 && |b| > 0
    ensures a[0] == b[0]
  {
    assert a[0] in multiset(b) && b[0] in multiset(a);
    var i :| 0 <= i < |a| && a[i] == b[0];
    var j :| 0 <= j < |b| && b[j] == a[0];
    BeforeTotal(prefix, a[0], a[0]);
    assert Before(prefix, a[0], b[0]) by {
      if i > 0 {
        assert Before(prefix, a[0], a[i]);
      }
    }
    assert Before(prefix, b[0], a[0]) by {
      if j > 0 {
        assert Before(prefix, b[0], b[j]);
      }
    }
    BeforeAntisym(prefix, a[0], b[0]);
  }

  lemma SameTails<T>(a: seq<T>, b: seq<T>)
    requires multiset(a) == multiset(b) && |a| > 0 && |b| > 0 && a[0] == b[0]
    ensures multiset(a[1..]) == multiset(b[1..])
  {
    assert a == [a[0]] + a[1..] && b == [b[0]] + b[1..];
    assert multiset(a) == multiset{a[0]} + multiset(a[1..]);
    assert multiset(b) == multiset{a[0]} + multiset(b[1..]);
    assert multiset(a[1..]) == multiset(a) - multiset{a[0]};
    assert multiset(b[1..]) == multiset(b) - multiset{a[0]};
  }

  /** There is only one sorted arrangement of a collection of names, so the
      order of the directory listing cannot show through. */
  lemma {:induction false} SortedUnique(prefix: string, a: seq<string>, b: seq<string>)
    requires SortedBy(prefix, a) && SortedBy(prefix, b)
    requires multiset(a) == multiset(b)
    ensures a == b
    decreases |a|
  {
    assert |a| == |multiset(a)| == |multiset(b)| == |b|;
    if |a| > 0 {
      SortedHeads(prefix, a, b);
      SameTails(a, b);
      SortedUnique(prefix, a[1..], b[1..]);
      assert a == [a[0]] + a[1..] && b == [b[0]] + b[1..];
    }
  }

  // ---------------------------------------------------------------------
  // find_project_images

  /** The directory entries that are images and start with the project name,
      in listing order. */
  function Candidates(listing: seq<string>, project: string): (r: seq<string>)
    ensures forall n :: multiset(r)[n] == if IsImage(n) && StartsWith(n, project) then multiset(listing)[n] else 0
  {
    if |listing| == 0 then []
    else
      var init := listing[..|listing| - 1];
      var n := listing[|listing| - 1];
      assert listing == init + [n];
      if IsImage(n) && StartsWith(n, project) then Candidates(init, project) + [n]
      else Candidates(init, project)
  }

  function ImagesFor(listing: seq<string>, project: string): (r: seq<string>)
    ensures SortedBy(project, r)
    ensures multiset(r) == multiset(Candidates(listing, project))
    ensures forall n :: n in r <==> n in listing && IsImage(n) && StartsWith(n, project)
  {
    var c := Candidates(listing, project);
    var r := SortImages(project, c);
    assert forall n :: n in r <==> multiset(c)[n] > 0;
    r
  }

  /** The projects that have images, each once, in the order of their
      first mention: the order in which a dict filled from `projects` holds
      them. */
  function WithImages(listing: seq<string>, projects: seq<string>): (ks: seq<string>)
  {
    if |projects| == 0 then []
    else
      var ks := WithImages(listing, projects[..|projects| - 1]);
      var p := projects[|projects| - 1];
      if ImagesFor(listing, p) != [] && p !in ks then ks + [p] else ks
  }

  /** `find_project_images`: each project with at least one image, mapped to
      its images in gallery order; projects without images are left out. */
  function FindProjectImages(listing: seq<string>, projects: seq<string>): (r: seq<(string, seq<string>)>)
    ensures Assoc.DistinctKeys(r)
    ensures Assoc.Keys(r) == WithImages(listing, projects)
    ensures forall p :: p in Assoc.Keys(r) ==> p in projects
    ensures forall p :: p in projects ==>
      Assoc.Get(r, p) == if ImagesFor(listing, p) == [] then None else Some(ImagesFor(listing, p))
  {
    if |projects| == 0 then []
    else
      var init := projects[..|projects| - 1];
      var p := projects[|projects| - 1];
      assert projects == init + [p];
      var d := FindProjectImages(listing, init);
      var images := ImagesFor(listing, p);
      if images == [] then
        assert p !in Assoc.Keys(d) by {
          if p in init {
          }
        }
        d
      else
        var r := Assoc.Put(d, p, images);
        assert forall q :: q in init && q != p ==> Assoc.Get(r, q) == Assoc.Get(d, q) by {
          forall q | q in init && q != p ensures Assoc.Get(r, q) == Assoc.Get(d, q) {
            Assoc.PutOther(d, p, images, q);
          }
        }
        r
  }

  /** The images found for a project depend only on which names the
      directory holds, not on the order it lists them in. */
  lemma ImagesForOrderFree(l1: seq<string>, l2: seq<string>, project: string)
    requires multiset(l1) == multiset(l2)
    ensures ImagesFor(l1, project) == ImagesFor(l2, project)
  {
    var c1 := Candidates(l1, project);
    var c2 := Candidates(l2, project);
    assert multiset(c1) == multiset(c2);
    SortedUnique(project, SortImages(project, c1), SortImages(project, c2));
  }

  lemma {:induction false} FindProjectImagesOrderFree(l1: seq<string>, l2: seq<string>, projects: seq<string>)
    requires multiset(l1) == multiset(l2)
    ensures FindProjectImages(l1, projects) == FindProjectImages(l2, projects)
    decreases |projects|
  {
    if |projects| > 0 {
      FindProjectImagesOrderFree(l1, l2, projects[..|projects| - 1]);
      ImagesForOrderFree(l1, l2, projects[|projects| - 1]);
    }
  }
}
