/** The post publisher: the output name of a post, the title / date / body
    split of its markdown, the page template, and the two index edits (the
    dated link inserted after the first `<p>` of the section index, and the
    block after the "Recently wrote" anchor of the main index). */
module PostPublisher {
  import opened Wrappers
  import opened Strings

  // ---------------------------------------------------------------------
  // slugify

  /** `os.path.basename`: everything after the last `/`. */
  function BaseName(path: string): (r: string)
    ensures '/' !in r && EndsWith(path, r)
    ensures |r| < |path| ==> path[|path| - |r| - 1] == '/'
  {
    if |path| == 0 || path[|path| - 1] == '/' then ""
    else
      var p := path[..|path| - 1];
      var r := BaseName(p) + [path[|path| - 1]];
      assert path[|path| - |r|..] == p[|p| - |r| + 1..] + [path[|path| - 1]];
      r
  }

  /** The name after the last directory separator is the base name. */
  lemma {:induction false} BaseNameOf(dir: string, name: string)
    requires '/' !in name
    ensures BaseName(dir + "/" + name) == name
    decreases |name|
  {
    var path := dir + "/" + name;
    if |name| > 0 {
      var init := name[..|name| - 1];
      assert path[..|path| - 1] == dir + "/" + init;
      assert name == init + [name[|name| - 1]];
      BaseNameOf(dir, init);
    }
  }

  predicate AllDots(s: string) {
    forall k :: 0 <= k < |s| ==> s[k] == '.'
  }

  /** The index of the last `.`. */
  function LastDot(s: string): (r: Option<nat>)
    ensures r.Some? ==> r.value < |s| && s[r.value] == '.' && '.' !in s[r.value + 1..]
    ensures r.None? ==> '.' !in s
  {
    if |s| == 0 then None
    else if s[|s| - 1] == '.' then Some(|s| - 1)
    else
      var r := LastDot(s[..|s| - 1]);
      assert r.Some? ==> s[r.value + 1..] == s[..|s| - 1][r.value + 1..] + [s[|s| - 1]];
      assert r.None? ==> s == s[..|s| - 1] + [s[|s| - 1]];
      r
  }

  /** A `.` with none after it is the last one. */
  lemma {:induction false} LastDotIs(s: string, d: nat)
    requires d < |s| && s[d] == '.' && '.' !in s[d + 1..]
    ensures LastDot(s) == Some(d)
    decreases |s|
  {
    if d < |s| - 1 {
      assert s[|s| - 1] == s[d + 1..][|s| - 2 - d];
      var init := s[..|s| - 1];
      assert init[d + 1..] == s[d + 1..][..|s| - 2 - d];
      LastDotIs(init, d);
    }
  }

  /** There is only one last `.`. */
  lemma {:induction false} LastDotUnique(s: string, d: nat)
    requires LastDot(s) == Some(d)
    ensures forall e :: 0 <= e < |s| && s[e] == '.' && '.' !in s[e + 1..] ==> e == d
  {
    forall e | 0 <= e < |s| && s[e] == '.' && '.' !in s[e + 1..] ensures e == d {
      LastDotIs(s, e);
    }
  }

  /** `os.path.splitext(name)[0]`: the name without its last `.` and what
      follows, unless only dots come before that `.` (a hidden file has no
      extension). */
  function Stem(name: string): (r: string)
    ensures StartsWith(name, r)
    ensures r != name ==> |r| < |name| && name[|r|] == '.' && '.' !in name[|r| + 1..] && !AllDots(r)
    ensures r == name ==> forall d :: 0 <= d < |name| && name[d] == '.' && '.' !in name[d + 1..] ==> AllDots(name[..d])
  {
    match LastDot(name)
    case None => name
    case Some(d) =>
      LastDotUnique(name, d);
      if AllDots(name[..d]) then name else name[..d]
  }

  /** `slugify`: the base name without its extension, plus `.html`. */
  function Slugify(path: string): (r: string)
    ensures '/' !in r && EndsWith(r, ".html")
    ensures StartsWith(BaseName(path), r[..|r| - 5])
  {
    var stem := Stem(BaseName(path));
    assert '/' !in stem by {
      assert stem == BaseName(path)[..|stem|];
    }
    var r := stem + ".html";
    assert r[..|r| - 5] == stem;
    r
  }

  /** A name without dots keeps itself as the stem of `name.ext`. */
  lemma {:induction false} StemOf(name: string, ext: string)
    requires |name| > 0 && '.' !in name && '.' !in ext
    ensures Stem(name + "." + ext) == name
  {
    var b := name + "." + ext;
    assert b[|name| + 1..] == ext;
    LastDotIs(b, |name|);
    assert b[..|name|] == name;
    assert b[..|name|][0] != '.';
  }

  /** A post `dir/name.ext` is published as `name.html`. */
  lemma {:induction false} SlugifyOf(dir: string, name: string, ext: string)
    requires |name| > 0 && '.' !in name && '/' !in name
    requires '.' !in ext && '/' !in ext
    ensures Slugify(dir + "/" + name + "." + ext) == name + ".html"
  {
    var b := name + "." + ext;
    assert dir + "/" + name + "." + ext == dir + "/" + b;
    BaseNameOf(dir, b);
    StemOf(name, ext);
  }

  /** A hidden file without an extension keeps its leading dot. */
  lemma {:induction false} SlugifyHidden(dir: string, name: string)
    requires '.' !in name && '/' !in name
    ensures Slugify(dir + "/." + name) == "." + name + ".html"
  {
    var b := "." + name;
    assert dir + "/." + name == dir + "/" + b;
    BaseNameOf(dir, b);
    assert b[1..] == name;
    LastDotIs(b, 0);
  }

  // ---------------------------------------------------------------------
  // parse_md

  datatype Post = Post(title: string, date: string, body: string)

  /** The markdown has no body line. */
  datatype PostError = TooShort

  /** The length of the leading run of `#`. */
  function HashRun(s: string): (n: nat)
    ensures n <= |s| && (forall k :: 0 <= k < n ==> s[k] == '#')
    ensures n == |s| || s[n] != '#'
  {
    if |s| > 0 && s[0] == '#' then 1 + HashRun(s[1..]) else 0
  }

  /** The first line with `^#+\s*` removed, then stripped. */
  function TitleOf(line: string): (r: string)
  {
    var n := HashRun(line);
    Trim(if n > 0 then TrimStart(line[n..]) else line)
  }

  /** `parse_md` on the lines of the file. */
  function ParseMd(lines: seq<string>): (r: Result<Post, PostError>)
    ensures r.Failure? <==> |lines| < 3
    ensures r.Success? ==>
      && r.value.title == Trim(lines[0][HashRun(lines[0])..])
      && r.value.date == Trim(lines[1])
      && r.value.body == Trim(Join(lines[2..], "\n"))
  {
    if |lines| < 3 then Failure(TooShort)
    else
      TrimAfterTrimStart(lines[0][HashRun(lines[0])..]);
      Success(Post(TitleOf(lines[0]), Trim(lines[1]), Trim(Join(lines[2..], "\n"))))
  }

  /** A heading `# title` gives back its title. */
  lemma HeadingHashes(title: string)
    requires title == [] || title[0] != '#'
    ensures ("# " + title)[1..] == [' '] + title && HashRun("# " + title) == 1
  {
    assert HashRun(("# " + title)[1..]) == 0;
  }

  lemma TrimAfterSpace(title: string)
    requires Trim(title) == title
    ensures Trim(TrimStart([' '] + title)) == title
  {
    TrimStartSpace(' ', title);
    TrimAfterTrimStart(title);
  }

  lemma {:induction false} TitleOfHeading(title: string)
    requires Trim(title) == title && (title == [] || title[0] != '#')
    ensures TitleOf("# " + title) == title
  {
    HeadingHashes(title);
    TrimAfterSpace(title);
  }

  /** A post written as `# title`, the date, and the body lines parses back
      into its title and date, and its body stripped. */
  lemma {:induction false} ParseMdOf(title: string, date: string, bodyLines: seq<string>)
    requires Trim(title) == title && (title == [] || title[0] != '#')
    requires Trim(date) == date && |bodyLines| > 0
    ensures ParseMd(["# " + title, date] + bodyLines) == Success(Post(title, date, Trim(Join(bodyLines, "\n"))))
  {
    var lines := ["# " + title, date] + bodyLines;
    TitleOfHeading(title);
    assert lines[0] == "# " + title && lines[1] == date && lines[2..] == bodyLines;
  }

  /** Whatever the file, title, date and body carry no surrounding
      whitespace. */
  lemma {:induction false} ParseMdTrimmed(lines: seq<string>)
    requires ParseMd(lines).Success?
    ensures var p := ParseMd(lines).value;
      Trim(p.title) == p.title && Trim(p.date) == p.date && Trim(p.body) == p.body
  {
    TrimIdempotent(lines[0][HashRun(lines[0])..]);
    TrimIdempotent(lines[1]);
    TrimIdempotent(Join(lines[2..], "\n"));
  }

  // ---------------------------------------------------------------------
  // render_html

  const TitleOpen := "<title>"
  const TitleClose := "</title>"
  const DocHead := "<!DOCTYPE html>\n<html>\n\n    <head>\n        "
  const StyleBlock :=
    "\n        <link href=\"../stylesheets/teostyle.css\" rel=\"stylesheet\" type=\"text/css\" media=\"all\">\n"
    + "        <style>\n"
    + "            body {\n"
    + "                margin: 90px auto 50px;\n"
    + "                width: 700px;\n"
    + "                font-family: 'iA Writer Quattro S', serif !important;\n"
    + "                font-size: 16px;\n"
    + "                line-height: 1.4;\n"
    + "            }\n"
    + "            .right { float: right; }\n"
    + "        </style>\n"
    + "    </head>\n"
    + "    <meta charset=\"utf-8\">\n"
    + "    <body>\n    "
  const BoldOpen := "<b>"
  const BoldClose := "</b>"
  const DateOpen := "<div class=\"right\">"
  const DateClose := "</div>"
  const Rule := "\n    <hr>\n    "
  const PageTail := "\n    </body>\n\n</html>\n"

  /** A page template: the fixed text around the title (which appears
      twice), the date and the body. */
  datatype Template = Template(head: string, titleToTitle: string, titleToDate: string, dateToBody: string, tail: string)

  /** The page of `render_html`, cut at its three fields. */
  const PostTemplate := Template(
    DocHead + TitleOpen,
    TitleClose + StyleBlock + BoldOpen,
    BoldClose + DateOpen,
    DateClose + Rule,
    PageTail)

  function Fill(tp: Template, title: string, date: string, body: string): string {
    tp.head + title + tp.titleToTitle + title + tp.titleToDate + date + tp.dateToBody + body + tp.tail
  }

  /** `render_html`: the fixed page with the title, the date and the
      rendered body filled in. */
  function RenderHtml(title: string, date: string, body: string): string {
    Fill(PostTemplate, title, date, body)
  }

  /** The index of the first `c`, or the length when there is none. */
  function UpTo(s: string, c: char): (n: nat)
    ensures n <= |s| && c !in s[..n] && (n == |s| || s[n] == c)
  {
    if |s| == 0 || s[0] == c then 0
    else
      var n := 1 + UpTo(s[1..], c);
      assert s[..n] == [s[0]] + s[1..][..n - 1];
      n
  }

  /** A field free of `c` followed by text that starts with `c` is read back
      up to that `c`. */
  lemma {:induction false} UpToField(field: string, rest: string, c: char)
    requires c !in field && |rest| > 0 && rest[0] == c
    ensures UpTo(field + rest, c) == |field|
    ensures (field + rest)[..|field|] == field && (field + rest)[|field|..] == rest
  {
    var s := field + rest;
    assert s[..|field|] == field;
  }

  /** Reads title, date and body back out of a page built on `tp`: the
      title runs to the first `<` after the head, the date to the first `<`
      after the text that follows the second title, and the body to the
      tail. */
  function ReadWith(tp: Template, h: string): Option<Post>
  {
    if !StartsWith(h, tp.head) || |h| < |tp.head| + |tp.tail| || !EndsWith(h, tp.tail) then None
    else ReadInner(tp, h[|tp.head|..|h| - |tp.tail|])
  }

  /** The page between head and tail: the title, then the fixed text with
      the title again. */
  function ReadInner(tp: Template, x: string): Option<Post>
  {
    var n := UpTo(x, '<');
    var title := x[..n];
    var mid := tp.titleToTitle + title + tp.titleToDate;
    if !StartsWith(x[n..], mid) then None
    else ReadDateBody(tp, title, x[n + |mid|..])
  }

  /** What follows the second title: the date, the fixed text, the body. */
  function ReadDateBody(tp: Template, title: string, z: string): Option<Post>
  {
    var m := UpTo(z, '<');
    if !StartsWith(z[m..], tp.dateToBody) then None
    else Some(Post(title, z[..m], z[m + |tp.dateToBody|..]))
  }

  lemma {:induction false} ReadDateBodyOf(tp: Template, title: string, date: string, body: string)
    requires |tp.dateToBody| > 0 && tp.dateToBody[0] == '<' && '<' !in date
    ensures ReadDateBody(tp, title, date + (tp.dateToBody + body)) == Some(Post(title, date, body))
  {
    var z := date + (tp.dateToBody + body);
    UpToField(date, tp.dateToBody + body, '<');
    assert (tp.dateToBody + body)[..|tp.dateToBody|] == tp.dateToBody;
    assert z[|date| + |tp.dateToBody|..] == body;
  }

  /** How `field + (fixed + z)` splits when the fixed text opens with `<`
      and the field holds none. */
  lemma {:induction false} FieldThenFixed(field: string, fixed: string, z: string)
    requires |fixed| > 0 && fixed[0] == '<' && '<' !in field
    ensures var x := field + (fixed + z);
      && UpTo(x, '<') == |field| && x[..|field|] == field
      && StartsWith(x[|field|..], fixed) && x[|field| + |fixed|..] == z
  {
    var x := field + (fixed + z);
    UpToField(field, fixed + z, '<');
    assert (fixed + z)[..|fixed|] == fixed;
    assert x[|field| + |fixed|..] == z;
  }

  lemma {:induction false} ReadInnerAt(tp: Template, x: string, title: string, z: string)
    requires UpTo(x, '<') == |title| && x[..|title|] == title
    requires StartsWith(x[|title|..], tp.titleToTitle + title + tp.titleToDate)
    requires x[|title| + |tp.titleToTitle + title + tp.titleToDate|..] == z
    ensures ReadInner(tp, x) == ReadDateBody(tp, title, z)
  {
  }

  lemma {:induction false} ReadInnerOf(tp: Template, title: string, z: string)
    requires |tp.titleToTitle| > 0 && tp.titleToTitle[0] == '<' && '<' !in title
    ensures ReadInner(tp, title + (tp.titleToTitle + title + tp.titleToDate + z)) == ReadDateBody(tp, title, z)
  {
    var mid := tp.titleToTitle + title + tp.titleToDate;
    FieldThenFixed(title, mid, z);
    ReadInnerAt(tp, title + (mid + z), title, z);
  }

  lemma {:induction false} ReadWithOf(tp: Template, x: string)
    ensures ReadWith(tp, tp.head + x + tp.tail) == ReadInner(tp, x)
  {
    var h := tp.head + x + tp.tail;
    assert h[..|tp.head|] == tp.head;
    assert h[|h| - |tp.tail|..] == tp.tail;
    assert h[|tp.head|..|h| - |tp.tail|] == x;
  }

  /** Any template whose text after each of the title and the date starts
      with `<` gives back the fields of a filled page, as long as the title
      and the date hold no markup. */
  lemma {:induction false} ReadFilled(tp: Template, title: string, date: string, body: string)
    requires |tp.titleToTitle| > 0 && tp.titleToTitle[0] == '<'
    requires |tp.dateToBody| > 0 && tp.dateToBody[0] == '<'
    requires '<' !in title && '<' !in date
    ensures ReadWith(tp, Fill(tp, title, date, body)) == Some(Post(title, date, body))
  {
    var z := date + (tp.dateToBody + body);
    var x := title + (tp.titleToTitle + title + tp.titleToDate + z);
    assert Fill(tp, title, date, body) == tp.head + x + tp.tail;
    ReadWithOf(tp, x);
    ReadInnerOf(tp, title, z);
    ReadDateBodyOf(tp, title, date, body);
  }

  /** Reads a post page back. */
  function ReadPage(h: string): Option<Post> {
    ReadWith(PostTemplate, h)
  }

  /** A rendered page gives back its title, date and body, as long as the
      title and the date hold no markup. */
  lemma {:induction false} ReadRenderedPage(title: string, date: string, body: string)
    requires '<' !in title && '<' !in date
    ensures ReadPage(RenderHtml(title, date, body)) == Some(Post(title, date, body))
  {
    assert PostTemplate.titleToTitle[0] == TitleClose[0] == '<';
    assert PostTemplate.dateToBody[0] == DateClose[0] == '<';
    ReadFilled(PostTemplate, title, date, body);
  }

  /** Nothing but the three fields varies: different fields give different
      pages. */
  lemma {:induction false} RenderHtmlInjective(t1: string, d1: string, b1: string, t2: string, d2: string, b2: string)
    requires '<' !in t1 && '<' !in d1 && '<' !in t2 && '<' !in d2
    requires RenderHtml(t1, d1, b1) == RenderHtml(t2, d2, b2)
    ensures t1 == t2 && d1 == d2 && b1 == b2
  {
    ReadRenderedPage(t1, d1, b1);
    ReadRenderedPage(t2, d2, b2);
  }

  // ---------------------------------------------------------------------
  // update_index

  /** The `href` attribute that identifies a link. */
  function LinkAttr(href: string): string {
    "href=\"" + href + "\""
  }

  /** The new dated entry line of the section index. */
  function IndexEntry(href: string, text: string, date: string): string {
    "<span class=\"entry-date\">" + date + "</span> <a " + LinkAttr(href) + ">" + text + "</a><br>\n"
  }

  /** Some line already links to `href`. */
  predicate HasLink(lines: seq<string>, href: string) {
    exists k :: 0 <= k < |lines| && Contains(lines[k], LinkAttr(href))
  }

  predicate IsParagraphOpen(line: string) {
    Trim(line) == "<p>"
  }

  /** The first line at or after `from` that `p` holds of. */
  function FirstWhere(p: string -> bool, lines: seq<string>, from: nat): (r: Option<nat>)
    decreases |lines| - from
    ensures r.Some? ==> from <= r.value < |lines| && p(lines[r.value])
    ensures r.Some? ==> forall k :: from <= k < r.value ==> !p(lines[k])
    ensures r.None? ==> forall k :: from <= k < |lines| ==> !p(lines[k])
  {
    if from >= |lines| then None
    else if p(lines[from]) then Some(from)
    else FirstWhere(p, lines, from + 1)
  }

  /** The first line at or after `from` that strips to `<p>`. */
  function FirstParagraph(lines: seq<string>, from: nat): Option<nat> {
    FirstWhere(IsParagraphOpen, lines, from)
  }

  /** The section index has no `<p>` line to insert after. */
  datatype IndexError = NoParagraph

  /** `update_index` on the lines of the index (each with its line end):
      unchanged when the link is already there, otherwise the entry right
      after the first `<p>` line; an index without such a line is an
      error. */
  function UpdateIndex(lines: seq<string>, href: string, text: string, date: string): (r: Result<seq<string>, IndexError>)
    ensures HasLink(lines, href) ==> r == Success(lines)
    ensures r.Failure? <==> !HasLink(lines, href) && forall k :: 0 <= k < |lines| ==> !IsParagraphOpen(lines[k])
    ensures r.Success? && !HasLink(lines, href) ==>
      FirstParagraph(lines, 0).Some? && var i := FirstParagraph(lines, 0).value;
      r.value == lines[..i + 1] + [IndexEntry(href, text, date)] + lines[i + 1..]
  {
    if HasLink(lines, href) then Success(lines)
    else
      match FirstParagraph(lines, 0)
      case None => Failure(NoParagraph)
      case Some(i) => Success(lines[..i + 1] + [IndexEntry(href, text, date)] + lines[i + 1..])
  }

  /** The new entry links to `href`. */
  lemma {:induction false} EntryHasLink(href: string, text: string, date: string)
    ensures Contains(IndexEntry(href, text, date), LinkAttr(href))
  {
    var a := "<span class=\"entry-date\">" + date + "</span> <a ";
    var b := ">" + text + "</a><br>\n";
    assert IndexEntry(href, text, date) == a + LinkAttr(href) + b;
    ContainsMiddle(a, LinkAttr(href), b);
  }

  /** A line inserted after line `i` sits at `i + 1` and leaves the others
      in order around it. */
  lemma InsertedLine(lines: seq<string>, i: nat, e: string)
    requires i < |lines|
    ensures var out := lines[..i + 1] + [e] + lines[i + 1..];
      |out| == |lines| + 1 && out[i + 1] == e && out[..i + 1] + out[i + 2..] == lines
  {
    var out := lines[..i + 1] + [e] + lines[i + 1..];
    assert out[..i + 1] == lines[..i + 1];
    assert out[i + 2..] == lines[i + 1..];
  }

  /** Taking the one inserted entry out again gives back the index as it
      was. */
  lemma {:induction false} UpdateIndexRemoveEntry(lines: seq<string>, href: string, text: string, date: string)
    requires UpdateIndex(lines, href, text, date).Success? && !HasLink(lines, href)
    ensures var out := UpdateIndex(lines, href, text, date).value;
      var i := FirstParagraph(lines, 0).value;
      && |out| == |lines| + 1 && out[i + 1] == IndexEntry(href, text, date)
      && out[..i + 1] + out[i + 2..] == lines
  {
    InsertedLine(lines, FirstParagraph(lines, 0).value, IndexEntry(href, text, date));
  }

  /** A second run with the same link changes nothing: the entry it would add
      is already there. */
  lemma {:induction false} UpdateIndexIdempotent(lines: seq<string>, href: string, text: string, date: string)
    requires UpdateIndex(lines, href, text, date).Success?
    ensures var out := UpdateIndex(lines, href, text, date).value;
      UpdateIndex(out, href, text, date) == Success(out)
  {
    var out := UpdateIndex(lines, href, text, date).value;
    if !HasLink(lines, href) {
      var i := FirstParagraph(lines, 0).value;
      assert out[i + 1] == IndexEntry(href, text, date);
      EntryHasLink(href, text, date);
      assert HasLink(out, href);
    }
  }

  // ---------------------------------------------------------------------
  // update_recently_wrote

  const WroteHead := "<a class=\"no-underline\" href=\"wrote/wroteindex.html\"><b>Recently wrote"
  const WroteTail := "</b></a><br>"
  const EntityArrow := "&gt;"
  const PlainArrow := ">"
  const ParaOpen := "<p>"
  const BlockClose := "</p><br>"

  /** The fixed text of the block pattern: the heading link, the two
      spellings of the arrow, the closing tags after it, and the tags that
      open and close the paragraph. */
  datatype Pattern = Pattern(head: string, entity: string, plain: string, tail: string, open: string, close: string)

  /** The pattern `update_recently_wrote` searches the main index with. */
  const RecentlyWrote := Pattern(WroteHead, EntityArrow, PlainArrow, WroteTail, ParaOpen, BlockClose)

  /** The two arrows differ in their first character and the paragraph has
      an opening tag, so a match is decided by the text up to that tag. */
  predicate Distinct(pt: Pattern) {
    |pt.entity| > 0 && |pt.plain| > 0 && pt.entity[0] != pt.plain[0] && |pt.open| > 0
  }

  lemma RecentlyWroteDistinct()
    ensures Distinct(RecentlyWrote)
  {
  }

  /** The end of the whitespace run that starts at `k` (`\s*`, greedy). */
  function SpaceEnd(s: string, k: nat): (e: nat)
    requires k <= |s|
    decreases |s| - k
    ensures k <= e <= |s| && AllSpace(s[k..e]) && (e == |s| || !IsSpace(s[e]))
  {
    if k < |s| && IsSpace(s[k]) then
      var e := SpaceEnd(s, k + 1);
      assert s[k..e] == [s[k]] + s[k + 1..e];
      e
    else k
  }

  lemma {:induction false} SpaceEndPrefix(s: string, r: string, k: nat, n: nat)
    requires k <= |s| && SpaceEnd(s, k) < n <= |s| && n <= |r| && r[..n] == s[..n]
    ensures SpaceEnd(r, k) == SpaceEnd(s, k)
    decreases |s| - k
  {
    assert r[k] == r[..n][k] && s[k] == s[..n][k];
    if IsSpace(s[k]) {
      SpaceEndPrefix(s, r, k + 1, n);
    }
  }

  /** Where the arrow and the closing tags end when they start at `k` (the
      alternation tries `&gt;` first). */
  function ArrowEnd(pt: Pattern, s: string, k: nat): (r: Option<nat>)
    ensures r.Some? ==> k <= r.value <= |s|
  {
    if OccursAt(s, pt.entity + pt.tail, k) then Some(k + |pt.entity + pt.tail|)
    else if OccursAt(s, pt.plain + pt.tail, k) then Some(k + |pt.plain + pt.tail|)
    else None
  }

  lemma {:induction false} ArrowEndPrefix(pt: Pattern, s: string, r: string, k: nat, n: nat)
    requires Distinct(pt)
    requires ArrowEnd(pt, s, k).Some? && ArrowEnd(pt, s, k).value <= n <= |s| && n <= |r| && r[..n] == s[..n]
    ensures ArrowEnd(pt, r, k) == ArrowEnd(pt, s, k)
  {
    var ent := pt.entity + pt.tail;
    var pln := pt.plain + pt.tail;
    if OccursAt(s, ent, k) {
      OccursAtPrefix(s, r, ent, k, n);
    } else {
      OccursAtPrefix(s, r, pln, k, n);
      assert r[k] == r[k..k + |pln|][0] == pln[0] == pt.plain[0];
      assert ent[0] == pt.entity[0];
    }
  }

  /** Where the anchor part of the pattern (group 1) ends when it starts at
      `i`: the heading link, `\s*`, `&gt;` or `>`, the closing tags, and
      `\s*`. */
  function GroupEnd(pt: Pattern, s: string, i: nat): (r: Option<nat>)
    ensures r.Some? ==> OccursAt(s, pt.head, i) && i + |pt.head| <= r.value <= |s|
    ensures !OccursAt(s, pt.head, i) ==> r.None?
  {
    if !OccursAt(s, pt.head, i) then None
    else
      match ArrowEnd(pt, s, SpaceEnd(s, i + |pt.head|))
      case None => None
      case Some(e) => Some(SpaceEnd(s, e))
  }

  /** The anchor part only looks at the text up to the character that stops
      its trailing whitespace. */
  lemma {:induction false} GroupEndPrefix(pt: Pattern, s: string, r: string, i: nat, n: nat)
    requires Distinct(pt)
    requires GroupEnd(pt, s, i).Some? && GroupEnd(pt, s, i).value < n <= |s| && n <= |r| && r[..n] == s[..n]
    ensures GroupEnd(pt, r, i) == GroupEnd(pt, s, i)
  {
    OccursAtPrefix(s, r, pt.head, i, n);
    var k := SpaceEnd(s, i + |pt.head|);
    SpaceEndPrefix(s, r, i + |pt.head|, n);
    var e := ArrowEnd(pt, s, k).value;
    ArrowEndPrefix(pt, s, r, k, n);
    SpaceEndPrefix(s, r, e, n);
  }

  /** A match of the whole pattern starting at `i`: the end of group 1 and
      the first closing tag after the opening tag that follows it (`.*?` is
      lazy). */
  function MatchAt(pt: Pattern, s: string, i: nat): Option<(nat, nat)>
  {
    match GroupEnd(pt, s, i)
    case None => None
    case Some(a) =>
      if !OccursAt(s, pt.open, a) then None
      else
        match FindFrom(s, pt.close, a + |pt.open|)
        case None => None
        case Some(j) => Some((a, j))
  }

  /** A match starts with the heading link and ends at the first closing
      tag after the opening tag that follows the anchor part. */
  lemma {:induction false} MatchAtSpec(pt: Pattern, s: string, i: nat)
    ensures MatchAt(pt, s, i).Some? ==> var (a, j) := MatchAt(pt, s, i).value;
      && OccursAt(s, pt.head, i) && GroupEnd(pt, s, i) == Some(a)
      && OccursAt(s, pt.open, a) && a + |pt.open| <= j && OccursAt(s, pt.close, j)
      && forall k :: a + |pt.open| <= k < j ==> !OccursAt(s, pt.close, k)
    ensures !OccursAt(s, pt.head, i) ==> MatchAt(pt, s, i).None?
  {
  }

  /** The leftmost match at or after `from`, as a regex search finds it. */
  function FirstMatch(pt: Pattern, s: string, from: nat): (r: Option<(nat, nat, nat)>)
    decreases |s| - from
    ensures r.Some? ==> from <= r.value.0 < |s| && MatchAt(pt, s, r.value.0) == Some((r.value.1, r.value.2))
    ensures r.Some? ==> forall k :: from <= k < r.value.0 ==> MatchAt(pt, s, k).None?
    ensures r.None? ==> forall k :: from <= k < |s| ==> MatchAt(pt, s, k).None?
  {
    if from >= |s| then None
    else
      match MatchAt(pt, s, from)
      case Some((a, j)) => Some((from, a, j))
      case None => FirstMatch(pt, s, from + 1)
  }

  lemma {:induction false} FirstMatchAt(pt: Pattern, s: string, from: nat, i: nat)
    requires from <= i < |s| && MatchAt(pt, s, i).Some?
    requires forall k :: from <= k < i ==> MatchAt(pt, s, k).None?
    ensures FirstMatch(pt, s, from) == Some((i, MatchAt(pt, s, i).value.0, MatchAt(pt, s, i).value.1))
    decreases i - from
  {
    if from < i {
      FirstMatchAt(pt, s, from + 1, i);
    }
  }

  /** The main index has no "Recently wrote" anchor followed by a block. */
  datatype WroteError = NoRecentlyWroteBlock

  /** What follows the closing tag at `j`. */
  function AfterClose(pt: Pattern, s: string, j: nat): string
    requires j + |pt.close| <= |s|
  {
    s[j + |pt.close|..]
  }

  /** The substitution of the first match: the anchor is kept and the
      paragraph after it, up to and including its closing tag, is replaced
      by `block`. No match is an error. */
  function ReplaceBlock(pt: Pattern, s: string, block: string): Result<string, WroteError>
  {
    var m := FirstMatch(pt, s, 0);
    if m.None? then Failure(NoRecentlyWroteBlock)
    else Success(s[..m.value.1] + block + AfterClose(pt, s, m.value.2))
  }

  /** The edit fails exactly when the pattern matches nowhere. Otherwise it
      keeps everything up to the end of the first anchor that is followed by
      an opening tag, puts `block` in place of that tag and what follows it
      up to the first closing tag, and keeps everything after. */
  lemma {:induction false} ReplaceBlockSpec(pt: Pattern, s: string, block: string)
    ensures ReplaceBlock(pt, s, block).Failure? <==> forall k :: 0 <= k < |s| ==> MatchAt(pt, s, k).None?
    ensures ReplaceBlock(pt, s, block).Success? ==> FirstMatch(pt, s, 0).Some? && var (i, a, j) := FirstMatch(pt, s, 0).value;
      && OccursAt(s, pt.head, i) && GroupEnd(pt, s, i) == Some(a)
      && OccursAt(s, pt.open, a) && a + |pt.open| <= j && OccursAt(s, pt.close, j)
      && (forall k :: a + |pt.open| <= k < j ==> !OccursAt(s, pt.close, k))
      && (forall k :: 0 <= k < i ==> MatchAt(pt, s, k).None?)
      && ReplaceBlock(pt, s, block).value == s[..a] + block + AfterClose(pt, s, j)
  {
    match FirstMatch(pt, s, 0)
    case None =>
    case Some((i, a, j)) => MatchAtSpec(pt, s, i);
  }

  lemma {:induction false} ReplaceBlockAt(pt: Pattern, s: string, block: string, i: nat, a: nat, j: nat)
    requires FirstMatch(pt, s, 0) == Some((i, a, j))
    ensures ReplaceBlock(pt, s, block) == Success(s[..a] + block + AfterClose(pt, s, j))
  {
  }

  /** What the block holds before its closing `</p><br>`: the paragraph with
      the one dated link to the post. */
  function BlockBody(href: string, text: string, date: string): string {
    ParaOpen + "\n    <span class=\"entry-date\">" + date + "</span> <a href=\"wrote/" + href + "\">" + text + "</a><br>\n"
  }

  /** `new_block` as the script builds it: with a line end after `</p><br>`. */
  function NewBlock(href: string, text: string, date: string): string {
    BlockBody(href, text, date) + BlockClose + "\n"
  }

  /** `update_recently_wrote` as written. */
  function UpdateRecentlyWrote(content: string, href: string, text: string, date: string): Result<string, WroteError>
  {
    ReplaceBlock(RecentlyWrote, content, NewBlock(href, text, date))
  }

  /** A successful run leaves the new block in the main index. */
  lemma {:induction false} UpdateRecentlyWroteHasBlock(content: string, href: string, text: string, date: string)
    requires UpdateRecentlyWrote(content, href, text, date).Success?
    ensures Contains(UpdateRecentlyWrote(content, href, text, date).value, NewBlock(href, text, date))
  {
    var (i, a, j) := FirstMatch(RecentlyWrote, content, 0).value;
    ReplaceBlockAt(RecentlyWrote, content, NewBlock(href, text, date), i, a, j);
    ContainsMiddle(content[..a], NewBlock(href, text, date), AfterClose(RecentlyWrote, content, j));
  }

  /** The block the script evidently means to write: the old block's own
      line end after `</p><br>` is kept, so none is added. */
  function CorrectedBlock(href: string, text: string, date: string): string {
    BlockBody(href, text, date) + BlockClose
  }

  /** `update_recently_wrote` with the corrected block. */
  function UpdateRecentlyWroteCorrected(content: string, href: string, text: string, date: string): Result<string, WroteError>
  {
    ReplaceBlock(RecentlyWrote, content, CorrectedBlock(href, text, date))
  }

  /** The anchor that matches is the first heading link of the page. */
  predicate FirstAnchorMatches(pt: Pattern, s: string) {
    FirstMatch(pt, s, 0).Some? && forall k :: 0 <= k < FirstMatch(pt, s, 0).value.0 ==> !OccursAt(s, pt.head, k)
  }

  /** The block's only closing tag is the one that ends it. */
  predicate OwnCloseOnly(body: string, close: string) {
    forall k :: 0 <= k < |body| ==> !OccursAt(body + close, close, k)
  }

  /** Text that agrees with `s` up to an opening tag of `s` and holds a
      block starting with that tag there agrees with `s` one character
      further. */
  lemma {:induction false} SameThroughOpen(pt: Pattern, s: string, r: string, body: string, a: nat)
    requires |pt.open| > 0 && OccursAt(s, pt.open, a) && StartsWith(body, pt.open)
    requires a < |r| && r[..a] == s[..a] && StartsWith(r[a..], body + pt.close)
    ensures r[..a + 1] == s[..a + 1] && OccursAt(r, pt.open, a)
  {
    var t := body + pt.close;
    assert r[a..a + |t|] == t by {
      assert r[a..][..|t|] == r[a..a + |t|];
    }
    assert r[a..a + |pt.open|] == pt.open by {
      assert r[a..a + |pt.open|] == r[a..a + |t|][..|pt.open|];
      assert t[..|pt.open|] == body[..|pt.open|];
    }
    assert r[a] == r[a..a + |pt.open|][0];
    assert s[a] == s[a..a + |pt.open|][0];
    assert r[..a + 1] == r[..a] + [r[a]];
    assert s[..a + 1] == s[..a] + [s[a]];
  }

  /** The anchor part of such text ends where it ends in `s`, at the
      block's opening tag. */
  lemma {:induction false} AnchorKept(pt: Pattern, s: string, r: string, body: string, i: nat, a: nat)
    requires Distinct(pt)
    requires GroupEnd(pt, s, i) == Some(a) && OccursAt(s, pt.open, a)
    requires StartsWith(body, pt.open)
    requires a < |r| && r[..a] == s[..a] && StartsWith(r[a..], body + pt.close)
    ensures GroupEnd(pt, r, i) == Some(a) && OccursAt(r, pt.open, a)
  {
    SameThroughOpen(pt, s, r, body, a);
    GroupEndPrefix(pt, s, r, i, a + 1);
  }

  /** The first closing tag after the block's opening tag is its own. */
  lemma {:induction false} CloseKept(r: string, body: string, open: string, close: string, a: nat)
    requires StartsWith(body, open) && OwnCloseOnly(body, close)
    requires a <= |r| && StartsWith(r[a..], body + close)
    ensures FindFrom(r, close, a + |open|) == Some(a + |body|)
  {
    FirstCloseAfter(r, a, body, close);
    FindFromAt(r, close, a + |open|, a + |body|);
  }

  /** Text that agrees with `s` up to the opening tag of its match and
      holds a block `body + close` there matches at the same anchor, up to
      the block's own closing tag. */
  lemma {:induction false} MatchAtSpliced(pt: Pattern, s: string, r: string, body: string, i: nat, a: nat)
    requires Distinct(pt)
    requires GroupEnd(pt, s, i) == Some(a) && OccursAt(s, pt.open, a)
    requires StartsWith(body, pt.open) && OwnCloseOnly(body, pt.close)
    requires a < |r| && r[..a] == s[..a] && StartsWith(r[a..], body + pt.close)
    ensures MatchAt(pt, r, i) == Some((a, a + |body|))
  {
    AnchorKept(pt, s, r, body, i, a);
    CloseKept(r, body, pt.open, pt.close, a);
  }

  /** No match starts before the first heading link. */
  lemma {:induction false} NoMatchBefore(pt: Pattern, s: string, r: string, i: nat, n: nat)
    requires forall k :: 0 <= k < i ==> !OccursAt(s, pt.head, k)
    requires i + |pt.head| <= n <= |s| && n <= |r| && r[..n] == s[..n]
    ensures forall k :: 0 <= k < i ==> MatchAt(pt, r, k).None?
  {
    forall k | 0 <= k < i ensures MatchAt(pt, r, k).None? {
      OccursAtPrefix(s, r, pt.head, k, n);
    }
  }

  /** Text that agrees with `s` up to the opening tag of its first anchor
      and holds a block there first matches at that anchor, up to the
      block's own closing tag. */
  lemma {:induction false} SecondMatch(pt: Pattern, s: string, r: string, body: string, i: nat, a: nat)
    requires Ready(pt, s, body, i, a) && Spliced(pt, s, r, body, a)
    ensures FirstMatch(pt, r, 0) == Some((i, a, a + |body|))
  {
    MatchAtSpliced(pt, s, r, body, i, a);
    NoMatchBefore(pt, s, r, i, a);
    FirstMatchAt(pt, r, 0, i);
  }

  /** `s` first matches at `i` with its opening tag at `a`, and `body` is a
      block that opens with that tag and has only its own closing tag. */
  predicate Ready(pt: Pattern, s: string, body: string, i: nat, a: nat) {
    && Distinct(pt)
    && (forall k :: 0 <= k < i ==> !OccursAt(s, pt.head, k)) && GroupEnd(pt, s, i) == Some(a) && OccursAt(s, pt.open, a)
    && StartsWith(body, pt.open) && OwnCloseOnly(body, pt.close)
  }

  /** `r` agrees with `s` up to `a` and holds `body` and a closing tag there. */
  predicate Spliced(pt: Pattern, s: string, r: string, body: string, a: nat) {
    a + |body| + |pt.close| <= |r| && a <= |s| && r[..a] == s[..a] && StartsWith(r[a..], body + pt.close)
  }

  /** How the text after one run splits around the block it put in. */
  lemma {:induction false} SplicedText(pt: Pattern, s: string, a: nat, body: string, tail: string, rest: string)
    requires a <= |s|
    ensures var r := s[..a] + (body + pt.close + tail) + rest;
      && a + |body| + |pt.close| <= |r| && r[..a] == s[..a]
      && StartsWith(r[a..], body + pt.close) && AfterClose(pt, r, a + |body|) == tail + rest
  {
    var t := body + pt.close;
    var r := s[..a] + (t + tail) + rest;
    assert r == s[..a] + (t + (tail + rest));
    assert r[a..] == t + (tail + rest);
    assert r[a..][..|t|] == t;
    assert r[a + |t|..] == tail + rest;
  }

  /** The edit in terms of the text before the match and after its closing
      tag. */
  lemma {:induction false} ReplaceFound(pt: Pattern, r: string, block: string, i: nat, a: nat, q: nat, before: string, after: string)
    requires FirstMatch(pt, r, 0) == Some((i, a, q))
    requires r[..a] == before && AfterClose(pt, r, q) == after
    ensures ReplaceBlock(pt, r, block) == Success(before + block + after)
  {
    ReplaceBlockAt(pt, r, block, i, a, q);
  }

  /** The second run on such text replaces the block it finds there. */
  lemma {:induction false} SecondRun(pt: Pattern, s: string, r: string, body: string, block: string, after: string, i: nat, a: nat)
    requires Ready(pt, s, body, i, a) && Spliced(pt, s, r, body, a)
    requires AfterClose(pt, r, a + |body|) == after
    ensures ReplaceBlock(pt, r, block) == Success(s[..a] + block + after)
  {
    SecondMatch(pt, s, r, body, i, a);
    ReplaceFound(pt, r, block, i, a, a + |body|, s[..a], after);
  }

  /** After a block `body + close + tail` went in, a second run puts
      another block in front of `tail`. */
  lemma {:induction false} ReplaceBlockTwice(pt: Pattern, s: string, body: string, tail: string, block: string)
    requires Distinct(pt)
    requires StartsWith(body, pt.open) && OwnCloseOnly(body, pt.close)
    requires block == body + pt.close + tail
    requires FirstAnchorMatches(pt, s)
    ensures var (i, a, j) := FirstMatch(pt, s, 0).value;
      && ReplaceBlock(pt, s, block) == Success(s[..a] + block + AfterClose(pt, s, j))
      && ReplaceBlock(pt, ReplaceBlock(pt, s, block).value, block) == Success(s[..a] + block + (tail + AfterClose(pt, s, j)))
  {
    var (i, a, j) := FirstMatch(pt, s, 0).value;
    var rest := AfterClose(pt, s, j);
    ReplaceBlockAt(pt, s, block, i, a, j);
    SplicedText(pt, s, a, body, tail, rest);
    SecondRun(pt, s, s[..a] + block + rest, body, block, tail + rest, i, a);
  }

  /** The corrected edit is idempotent: a second run with the same post
      leaves the main index as the first run left it. */
  lemma {:induction false} UpdateRecentlyWroteCorrectedIdempotent(content: string, href: string, text: string, date: string)
    requires FirstAnchorMatches(RecentlyWrote, content)
    requires OwnCloseOnly(BlockBody(href, text, date), BlockClose)
    ensures var once := UpdateRecentlyWroteCorrected(content, href, text, date);
      once.Success? && UpdateRecentlyWroteCorrected(once.value, href, text, date) == once
  {
    var body := BlockBody(href, text, date);
    var block := CorrectedBlock(href, text, date);
    RecentlyWroteDistinct();
    assert body[..|ParaOpen|] == ParaOpen;
    assert block == body + BlockClose + "";
    ReplaceBlockTwice(RecentlyWrote, content, body, "", block);
    var (i, a, j) := FirstMatch(RecentlyWrote, content, 0).value;
    assert "" + AfterClose(RecentlyWrote, content, j) == AfterClose(RecentlyWrote, content, j);
  }

  /** As written, every run adds one more line end after the block: a second
      run with the same post does not leave the index as it was. */
  lemma {:induction false} UpdateRecentlyWroteAddsNewline(content: string, href: string, text: string, date: string)
    requires FirstAnchorMatches(RecentlyWrote, content)
    requires OwnCloseOnly(BlockBody(href, text, date), BlockClose)
    ensures var once := UpdateRecentlyWrote(content, href, text, date);
      var twice := UpdateRecentlyWrote(once.value, href, text, date);
      && once.Success? && twice.Success?
      && |twice.value| == |once.value| + 1 && twice != once
  {
    var body := BlockBody(href, text, date);
    RecentlyWroteDistinct();
    assert body[..|ParaOpen|] == ParaOpen;
    ReplaceBlockTwice(RecentlyWrote, content, body, "\n", NewBlock(href, text, date));
  }

  // ---------------------------------------------------------------------
  // The run of the script

  /** A file the run has written, with its new contents. */
  datatype Write = Write(path: string, content: string)

  datatype PublishError = PostTooShort | IndexWithoutParagraph | MainIndexWithoutBlock

  /** The files written, in order, and the error the run stopped with. */
  datatype Outcome = Outcome(writes: seq<Write>, error: Option<PublishError>)

  const IndexPath := "wroteindex.html"

  /** The run once the post has parsed: the page is written, then the
      section index when the link is new, then the main index; a section
      index without `<p>` stops the run after the page, a main index without
      a block stops it before the main index is written. */
  function Steps(page: Write, mainPath: string, indexed: Result<seq<string>, IndexError>, hadLink: bool,
                 edited: Result<string, WroteError>): (o: Outcome)
    ensures |o.writes| >= 1 && o.writes[0] == page
    ensures o.error == Some(IndexWithoutParagraph) <==> indexed.Failure?
    ensures o.error == Some(IndexWithoutParagraph) ==> |o.writes| == 1
    ensures o.error.None? <==> indexed.Success? && edited.Success?
    ensures o.error.None? ==>
      && |o.writes| == (if hadLink then 2 else 3)
      && o.writes[|o.writes| - 1] == Write(mainPath, edited.value)
    ensures indexed.Success? && !hadLink ==>
      |o.writes| >= 2 && o.writes[1] == Write(IndexPath, Join(indexed.value, ""))
    ensures o.error == Some(MainIndexWithoutBlock) <==> indexed.Success? && edited.Failure?
    ensures o.error == Some(MainIndexWithoutBlock) ==> |o.writes| == (if hadLink then 1 else 2)
    ensures o.error != Some(PostTooShort)
  {
    match indexed
    case Failure(_) => Outcome([page], Some(IndexWithoutParagraph))
    case Success(lines) =>
      var written := [page] + (if hadLink then [] else [Write(IndexPath, Join(lines, ""))]);
      match edited
      case Failure(_) => Outcome(written, Some(MainIndexWithoutBlock))
      case Success(c) => Outcome(written + [Write(mainPath, c)], None)
  }

  /** The run with the edit of the main index as a parameter. */
  function PublishWith(mdPath: string, md: seq<string>, index: seq<string>, mainPath: string, main: string,
                       markdown: string -> string,
                       edit: (string, string, string, string) -> Result<string, WroteError>): Outcome
  {
    match ParseMd(md)
    case Failure(_) => Outcome([], Some(PostTooShort))
    case Success(p) =>
      var name := Slugify(mdPath);
      Steps(Write(name, RenderHtml(p.title, p.date, markdown(p.body))), mainPath,
            UpdateIndex(index, name, p.title, p.date), HasLink(index, name),
            edit(main, name, p.title, p.date))
  }

  /** `main` after the argument check: parse the post, write its page, update
      the section index, then the main index with the block as the script
      writes it. The markdown renderer is a parameter. */
  function Publish(mdPath: string, md: seq<string>, index: seq<string>, mainPath: string, main: string,
                   markdown: string -> string): Outcome
  {
    PublishWith(mdPath, md, index, mainPath, main, markdown, UpdateRecentlyWrote)
  }

  /** The run with the corrected block. */
  function PublishCorrected(mdPath: string, md: seq<string>, index: seq<string>, mainPath: string, main: string,
                            markdown: string -> string): Outcome
  {
    PublishWith(mdPath, md, index, mainPath, main, markdown, UpdateRecentlyWroteCorrected)
  }

  /** A post of fewer than three lines stops the run before anything is
      written, and is the only reason for that error. */
  lemma {:induction false} PublishTooShort(mdPath: string, md: seq<string>, index: seq<string>, mainPath: string,
                                           main: string, markdown: string -> string)
    ensures var o := Publish(mdPath, md, index, mainPath, main, markdown);
      && (o.error == Some(PostTooShort) <==> |md| < 3)
      && (|md| < 3 ==> o.writes == [])
  {
  }

  /** Otherwise the post's page is written first, under its slug, whatever
      happens to the indexes after it. */
  lemma {:induction false} PublishWritesPageFirst(mdPath: string, md: seq<string>, index: seq<string>, mainPath: string,
                                                  main: string, markdown: string -> string)
    requires |md| >= 3
    ensures var o := Publish(mdPath, md, index, mainPath, main, markdown);
      var p := ParseMd(md).value;
      |o.writes| >= 1 && o.writes[0] == Write(Slugify(mdPath), RenderHtml(p.title, p.date, markdown(p.body)))
  {
  }

  /** A section index without `<p>` stops the run after the page. A new
      link writes the updated section index second. A main index without a
      "Recently wrote" block stops the run after the section index, before
      the main index is written. A run that finishes writes the main index
      last. */
  lemma {:induction false} PublishIndexSteps(mdPath: string, md: seq<string>, index: seq<string>, mainPath: string,
                                             main: string, markdown: string -> string)
    requires |md| >= 3
    ensures var o := Publish(mdPath, md, index, mainPath, main, markdown);
      var name := Slugify(mdPath);
      var p := ParseMd(md).value;
      && (o.error == Some(IndexWithoutParagraph) <==> UpdateIndex(index, name, p.title, p.date).Failure?)
      && (o.error == Some(IndexWithoutParagraph) ==> |o.writes| == 1)
      && (UpdateIndex(index, name, p.title, p.date).Success? && !HasLink(index, name) ==>
            |o.writes| >= 2
            && o.writes[1] == Write(IndexPath, Join(UpdateIndex(index, name, p.title, p.date).value, "")))
      && (o.error == Some(MainIndexWithoutBlock) <==>
            UpdateIndex(index, name, p.title, p.date).Success? && UpdateRecentlyWrote(main, name, p.title, p.date).Failure?)
      && (o.error == Some(MainIndexWithoutBlock) ==> |o.writes| == (if HasLink(index, name) then 1 else 2))
      && (o.error.None? ==>
            && UpdateRecentlyWrote(main, name, p.title, p.date).Success?
            && |o.writes| == (if HasLink(index, name) then 2 else 3)
            && o.writes[|o.writes| - 1] == Write(mainPath, UpdateRecentlyWrote(main, name, p.title, p.date).value))
  {
  }

  /** With the corrected block, a finished run leaves a main index that a
      second edit for the same post does not change. */
  lemma {:induction false} PublishCorrectedSettles(mdPath: string, md: seq<string>, index: seq<string>, mainPath: string,
                                                   main: string, markdown: string -> string)
    requires |md| >= 3
    requires FirstAnchorMatches(RecentlyWrote, main)
    requires var p := ParseMd(md).value; OwnCloseOnly(BlockBody(Slugify(mdPath), p.title, p.date), BlockClose)
    ensures var o := PublishCorrected(mdPath, md, index, mainPath, main, markdown);
      var name := Slugify(mdPath);
      var p := ParseMd(md).value;
      o.error.None? ==>
        var last := o.writes[|o.writes| - 1].content;
        UpdateRecentlyWroteCorrected(last, name, p.title, p.date) == Success(last)
  {
    var p := ParseMd(md).value;
    UpdateRecentlyWroteCorrectedIdempotent(main, Slugify(mdPath), p.title, p.date);
  }
}
