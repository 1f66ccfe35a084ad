/** The project gallery page: descriptions read from the `# name` blocks of
    the description file, the HTML block of each project, the JavaScript
    table of images, and the splice that puts both into the page. */
module GalleryPage {
  import opened Wrappers
  import opened Strings
  import Assoc

  // ---------------------------------------------------------------------
  // parse_projdesc

  /** `\w` on ASCII text. */
  predicate IsWordChar(c: char) {
    'a' <= c <= 'z' || 'A' <= c <= 'Z' || '0' <= c <= '9' || c == '_'
  }

  predicate AllWord(s: string) {
    forall k :: 0 <= k < |s| ==> IsWordChar(s[k])
  }

  function WordEnd(s: string, j: nat): (e: nat)
    requires j <= |s|
    decreases |s| - j
    ensures j <= e <= |s|
  {
    if j < |s| && IsWordChar(s[j]) then WordEnd(s, j + 1) else j
  }

  /** The word starting at `j` ends at the first non-word character. */
  lemma {:induction false} WordEndSpec(s: string, j: nat)
    requires j <= |s|
    ensures var e := WordEnd(s, j);
      AllWord(s[j..e]) && (e == |s| || !IsWordChar(s[e]))
    decreases |s| - j
  {
    if j < |s| && IsWordChar(s[j]) {
      var e := WordEnd(s, j + 1);
      WordEndSpec(s, j + 1);
      assert s[j..e] == [s[j]] + s[j + 1..e];
    }
  }

  lemma {:induction false} WordEndAt(s: string, j: nat, e: nat)
    requires j <= e <= |s| && AllWord(s[j..e]) && (e == |s| || !IsWordChar(s[e]))
    ensures WordEnd(s, j) == e
    decreases e - j
  {
    if j < e {
      assert s[j] == s[j..e][0];
      assert s[j + 1..e] == s[j..e][1..];
      WordEndAt(s, j + 1, e);
    }
  }

  /** A heading line `# name`, possibly followed by whitespace, and its name. */
  function HeadingName(line: string): Option<string>
  {
    if StartsWith(line, "# ") then
      var e := WordEnd(line, 2);
      if e > 2 && AllSpace(line[e..]) then Some(line[2..e]) else None
    else None
  }

  /** A recognised heading is `# `, a word and trailing whitespace. */
  lemma HeadingNameSpec(line: string)
    ensures var r := HeadingName(line);
      r.Some? ==> |r.value| > 0 && AllWord(r.value)
    ensures var r := HeadingName(line);
      r.Some? ==> StartsWith(line, "# " + r.value) && AllSpace(line[2 + |r.value|..])
  {
    if StartsWith(line, "# ") {
      var e := WordEnd(line, 2);
      WordEndSpec(line, 2);
      assert line[..e] == "# " + line[2..e];
    }
  }

  /** Every heading line is recognised, with its name. */
  lemma HeadingNameOf(name: string, trailing: string)
    requires |name| > 0 && AllWord(name) && AllSpace(trailing)
    ensures HeadingName("# " + name + trailing) == Some(name)
  {
    var line := "# " + name + trailing;
    assert line[..2] == "# ";
    assert line[2..2 + |name|] == name;
    assert line[2 + |name|..] == trailing;
    WordEndAt(line, 2, 2 + |name|);
  }

  /** The index of the first heading line, or the number of lines. */
  function FirstHeading(lines: seq<string>): (h: nat)
    ensures h <= |lines|
    ensures h < |lines| ==> HeadingName(lines[h]).Some?
  {
    if |lines| == 0 || HeadingName(lines[0]).Some? then 0
    else 1 + FirstHeading(lines[1..])
  }

  /** No line before the first heading is a heading. */
  lemma {:induction false} FirstHeadingIsFirst(lines: seq<string>)
    ensures forall k :: 0 <= k < FirstHeading(lines) ==> HeadingName(lines[k]).None?
    decreases |lines|
  {
    if |lines| > 0 && HeadingName(lines[0]).None? {
      FirstHeadingIsFirst(lines[1..]);
      assert forall k :: 0 < k < FirstHeading(lines) ==> lines[k] == lines[1..][k - 1];
    }
  }

  /** A heading and the lines up to the next heading. */
  datatype Block = Block(name: string, body: seq<string>)

  predicate NoNewline(lines: seq<string>) {
    forall k :: 0 <= k < |lines| ==> '\n' !in lines[k]
  }

  /** The blocks of a description file; lines before the first heading
      belong to none. */
  function BlocksOf(lines: seq<string>): seq<Block>
    decreases |lines|
  {
    var h := FirstHeading(lines);
    if h == |lines| then []
    else
      var rest := lines[h + 1..];
      var e := FirstHeading(rest);
      [Block(HeadingName(lines[h]).value, rest[..e])] + BlocksOf(rest[e..])
  }

  /** Every block is named by a word. */
  predicate NamedByWords(bs: seq<Block>) {
    forall i :: 0 <= i < |bs| ==> |bs[i].name| > 0 && AllWord(bs[i].name)
  }

  predicate BodiesNoNewline(bs: seq<Block>) {
    forall i :: 0 <= i < |bs| ==> NoNewline(bs[i].body)
  }

  lemma ConsBlock(b: Block, bs: seq<Block>)
    ensures NamedByWords([b] + bs) <==> |b.name| > 0 && AllWord(b.name) && NamedByWords(bs)
    ensures BodiesNoNewline([b] + bs) <==> NoNewline(b.body) && BodiesNoNewline(bs)
  {
    assert ([b] + bs)[0] == b;
    assert forall i :: 0 < i <= |bs| ==> ([b] + bs)[i] == bs[i - 1];
    assert forall i :: 0 <= i < |bs| ==> ([b] + bs)[i + 1] == bs[i];
  }

  lemma NoNewlineSlice(lines: seq<string>, i: nat, j: nat)
    requires i <= j <= |lines| && NoNewline(lines)
    ensures NoNewline(lines[i..j]) && NoNewline(lines[i..])
  {
    assert forall k :: 0 <= k < j - i ==> lines[i..j][k] == lines[i + k];
    assert forall k :: 0 <= k < |lines| - i ==> lines[i..][k] == lines[i + k];
  }

  /** The blocks are named by words, and their bodies are made of the file's
      lines, so a file without newlines in its lines gives bodies without. */
  lemma {:induction false} BlocksOfSpec(lines: seq<string>)
    ensures NamedByWords(BlocksOf(lines))
    ensures NoNewline(lines) ==> BodiesNoNewline(BlocksOf(lines))
    decreases |lines|
  {
    var h := FirstHeading(lines);
    if h < |lines| {
      var rest := lines[h + 1..];
      var e := FirstHeading(rest);
      var b := Block(HeadingName(lines[h]).value, rest[..e]);
      var tail := rest[e..];
      BlocksOfSpec(tail);
      HeadingNameSpec(lines[h]);
      ConsBlock(b, BlocksOf(tail));
      if NoNewline(lines) {
        NoNewlineSlice(lines, h + 1, |lines|);
        NoNewlineSlice(rest, 0, e);
        NoNewlineSlice(rest, e, |rest|);
      }
    }
  }

  /** Lines none of which is a heading. */
  predicate NoHeading(lines: seq<string>) {
    forall k :: 0 <= k < |lines| ==> HeadingName(lines[k]).None?
  }

  /** A well-formed block: a word name and a body with no heading in it. */
  predicate WellFormed(b: Block) {
    && |b.name| > 0 && AllWord(b.name)
    && NoHeading(b.body)
  }

  /** The lines of a description file holding `blocks`. */
  function RenderBlocks(blocks: seq<Block>): seq<string>
  {
    if |blocks| == 0 then []
    else ["# " + blocks[0].name] + blocks[0].body + RenderBlocks(blocks[1..])
  }

  /** The lines of well-formed blocks start with a heading, if any. */
  lemma RenderedStartsWithHeading(blocks: seq<Block>)
    requires AllWellFormed(blocks)
    ensures |RenderBlocks(blocks)| == 0 || HeadingName(RenderBlocks(blocks)[0]).Some?
  {
    if |blocks| > 0 {
      assert WellFormed(blocks[0]);
      HeadingNameOf(blocks[0].name, "");
      assert "# " + blocks[0].name + "" == "# " + blocks[0].name;
    }
  }

  /** Lines without headings put in front of a heading (or of nothing)
      move the first heading back by their number. */
  lemma {:induction false} FirstHeadingAfter(front: seq<string>, x: seq<string>)
    requires NoHeading(front)
    requires |x| == 0 || HeadingName(x[0]).Some?
    ensures FirstHeading(front + x) == |front|
  {
    var lines := front + x;
    assert forall k :: 0 <= k < |front| ==> lines[k] == front[k];
    FirstHeadingAt(lines, |front|);
  }

  /** Lines before the first heading belong to no block. */
  lemma SkipPreamble(preamble: seq<string>, x: seq<string>)
    requires NoHeading(preamble)
    requires |x| == 0 || HeadingName(x[0]).Some?
    ensures BlocksOf(preamble + x) == BlocksOf(x)
  {
    var lines := preamble + x;
    FirstHeadingAfter(preamble, x);
    if |x| == 0 {
      FirstHeadingAt(x, 0);
    } else {
      FirstHeadingAt(x, 0);
      BlocksOfSame(lines, |preamble|, x);
    }
  }

  /** The blocks depend only on the lines from the first heading on. */
  lemma BlocksOfSame(lines: seq<string>, h: nat, x: seq<string>)
    requires h < |lines| && FirstHeading(lines) == h
    requires lines[h..] == x && FirstHeading(x) == 0
    ensures BlocksOf(lines) == BlocksOf(x)
  {
    assert lines[h] == x[0];
    assert lines[h + 1..] == x[1..];
  }

  /** One block read off the front: its heading, then its body up to the
      next heading. */
  lemma {:induction false} BlocksOfStep(b: Block, tail: seq<string>)
    requires WellFormed(b)
    requires |tail| == 0 || HeadingName(tail[0]).Some?
    ensures BlocksOf(["# " + b.name] + b.body + tail) == [b] + BlocksOf(tail)
  {
    var lines := ["# " + b.name] + b.body + tail;
    HeadingNameOf(b.name, "");
    assert "# " + b.name + "" == "# " + b.name;
    FirstHeadingAfter(b.body, tail);
    assert lines[1..] == b.body + tail;
    BlocksOfFirst(lines, b.name, b.body, tail);
  }

  /** A heading on the first line opens a block that runs up to the next
      heading. */
  lemma BlocksOfFirst(lines: seq<string>, name: string, body: seq<string>, tail: seq<string>)
    requires |lines| > 0 && HeadingName(lines[0]) == Some(name)
    requires lines[1..] == body + tail && FirstHeading(body + tail) == |body|
    ensures BlocksOf(lines) == [Block(name, body)] + BlocksOf(tail)
  {
    FirstHeadingAt(lines, 0);
    var rest := lines[1..];
    assert rest[..|body|] == body && rest[|body|..] == tail;
  }

  predicate AllWellFormed(blocks: seq<Block>) {
    forall i :: 0 <= i < |blocks| ==> WellFormed(blocks[i])
  }

  lemma AllWellFormedTail(blocks: seq<Block>)
    requires |blocks| > 0 && AllWellFormed(blocks)
    ensures WellFormed(blocks[0]) && AllWellFormed(blocks[1..])
  {
    assert forall i :: 0 <= i < |blocks[1..]| ==> blocks[1..][i] == blocks[i + 1];
  }

  lemma RenderCons(blocks: seq<Block>)
    requires |blocks| > 0
    ensures RenderBlocks(blocks) == ["# " + blocks[0].name] + blocks[0].body + RenderBlocks(blocks[1..])
  {
  }

  /** The blocks written out read back as the same blocks. */
  lemma {:induction false} BlocksOfRendered(blocks: seq<Block>)
    requires AllWellFormed(blocks)
    ensures BlocksOf(RenderBlocks(blocks)) == blocks
    decreases |blocks|
  {
    if |blocks| > 0 {
      AllWellFormedTail(blocks);
      var rest := blocks[1..];
      BlocksOfRendered(rest);
      RenderedStartsWithHeading(rest);
      RenderCons(blocks);
      BlocksOfStep(blocks[0], RenderBlocks(rest));
    }
  }

  /** Round trip: the blocks written out read back as the same blocks, and
      whatever precedes the first heading is ignored. */
  lemma BlocksOfRender(preamble: seq<string>, blocks: seq<Block>)
    requires NoHeading(preamble)
    requires AllWellFormed(blocks)
    ensures BlocksOf(preamble + RenderBlocks(blocks)) == blocks
  {
    RenderedStartsWithHeading(blocks);
    SkipPreamble(preamble, RenderBlocks(blocks));
    BlocksOfRendered(blocks);
  }

  /** The first heading is the one with none before it. */
  lemma {:induction false} FirstHeadingAt(lines: seq<string>, h: nat)
    requires h <= |lines|
    requires forall k :: 0 <= k < h ==> HeadingName(lines[k]).None?
    requires h < |lines| ==> HeadingName(lines[h]).Some?
    ensures FirstHeading(lines) == h
    decreases h
  {
    if h > 0 {
      FirstHeadingAt(lines[1..], h - 1);
    }
  }

  predicate AllBlank(lines: seq<string>) {
    forall k :: 0 <= k < |lines| ==> AllSpace(lines[k])
  }

  lemma AllBlankSnoc(lines: seq<string>)
    requires |lines| > 0
    ensures AllBlank(lines) <==> AllBlank(lines[..|lines| - 1]) && AllSpace(lines[|lines| - 1])
  {
    var init := lines[..|lines| - 1];
    assert forall k :: 0 <= k < |init| ==> init[k] == lines[k];
  }

  /** One description: the non-blank lines of the block, stripped, joined
      by single spaces. */
  function Collapse(lines: seq<string>): (r: string)
    ensures r == "" <==> AllBlank(lines)
    ensures NoNewline(lines) ==> '\n' !in r
  {
    if |lines| == 0 then ""
    else
      var init := lines[..|lines| - 1];
      var last := lines[|lines| - 1];
      var r := Collapse(init);
      var t := Trim(last);
      TrimSpec(last);
      AllBlankSnoc(lines);
      assert NoNewline(lines) ==> NoNewline(init) && '\n' !in last;
      assert '\n' in t ==> '\n' in last by {
        if '\n' in t {
          TrimKeeps(last, '\n');
        }
      }
      if t == "" then r
      else if r == "" then t
      else r + " " + t
  }

  /** A description neither starts nor ends with whitespace. */
  lemma {:induction false} CollapseTrimmed(lines: seq<string>)
    ensures var r := Collapse(lines); r == [] || (!IsSpace(r[0]) && !IsSpace(r[|r| - 1]))
    decreases |lines|
  {
    if |lines| > 0 {
      CollapseTrimmed(lines[..|lines| - 1]);
      TrimSpec(lines[|lines| - 1]);
    }
  }

  /** The trimmed non-blank lines, in order. */
  function NonBlank(lines: seq<string>): (r: seq<string>)
  {
    if |lines| == 0 then []
    else
      var t := Trim(lines[|lines| - 1]);
      NonBlank(lines[..|lines| - 1]) + (if t == "" then [] else [t])
  }

  /** `' '.join(line.strip() for line in desc.split('\n') if line.strip())`. */
  lemma {:induction false} CollapseIsJoin(lines: seq<string>)
    ensures Collapse(lines) == Join(NonBlank(lines), " ")
    ensures Collapse(lines) == "" <==> NonBlank(lines) == []
    decreases |lines|
  {
    if |lines| > 0 {
      var init := lines[..|lines| - 1];
      CollapseIsJoin(init);
      var t := Trim(lines[|lines| - 1]);
      assert NonBlank(lines) == NonBlank(init) + (if t == "" then [] else [t]);
      if t == "" {
        assert NonBlank(lines) == NonBlank(init);
      } else if NonBlank(init) == [] {
        assert NonBlank(lines) == [t];
      } else {
        JoinSnoc(NonBlank(init), t, " ");
      }
    }
  }

  function Names(bs: seq<Block>): seq<string> {
    seq(|bs|, i requires 0 <= i < |bs| => bs[i].name)
  }

  /** Block `i` is the last one with its name. */
  predicate LastWithName(bs: seq<Block>, i: int) {
    0 <= i < |bs| && forall j :: i < j < |bs| ==> bs[j].name != bs[i].name
  }

  /** The descriptions keyed by project, in first-appearance order. */
  function Descriptions(bs: seq<Block>): (r: seq<(string, string)>)
    ensures Assoc.DistinctKeys(r)
    ensures forall n :: n in Assoc.Keys(r) <==> n in Names(bs)
  {
    if |bs| == 0 then []
    else
      var init := bs[..|bs| - 1];
      var b := bs[|bs| - 1];
      assert Names(bs) == Names(init) + [b.name];
      Assoc.Put(Descriptions(init), b.name, Collapse(b.body))
  }

  /** A repeated heading overwrites the earlier description: each name
      carries the description of its last block. */
  lemma {:induction false} DescriptionsLastWins(bs: seq<Block>, i: nat)
    requires LastWithName(bs, i)
    ensures Assoc.Get(Descriptions(bs), bs[i].name) == Some(Collapse(bs[i].body))
    decreases |bs|
  {
    var init := bs[..|bs| - 1];
    var b := bs[|bs| - 1];
    if i < |bs| - 1 {
      assert LastWithName(init, i);
      DescriptionsLastWins(init, i);
      Assoc.PutOther(Descriptions(init), b.name, Collapse(b.body), bs[i].name);
    }
  }

  /** Every description is the collapsed body of some block. */
  lemma {:induction false} DescriptionsFromBodies(bs: seq<Block>, k: nat)
    requires k < |Descriptions(bs)|
    ensures exists i :: 0 <= i < |bs| && Descriptions(bs)[k].1 == Collapse(bs[i].body)
    decreases |bs|
  {
    var init := bs[..|bs| - 1];
    var b := bs[|bs| - 1];
    var d := Descriptions(init);
    var r := Descriptions(bs);
    if r[k] == (b.name, Collapse(b.body)) {
      assert r[k].1 == Collapse(bs[|bs| - 1].body);
    } else {
      var m :| 0 <= m < |d| && d[m] == r[k];
      DescriptionsFromBodies(init, m);
      var i :| 0 <= i < |init| && d[m].1 == Collapse(init[i].body);
      assert bs[i] == init[i];
    }
  }

  /** Bodies without newlines give descriptions without. */
  lemma DescriptionsNoNewline(bs: seq<Block>)
    requires BodiesNoNewline(bs)
    ensures forall k :: 0 <= k < |Descriptions(bs)| ==> '\n' !in Descriptions(bs)[k].1
  {
    var r := Descriptions(bs);
    forall k | 0 <= k < |r| ensures '\n' !in r[k].1 {
      DescriptionsFromBodies(bs, k);
    }
  }

  /** `parse_projdesc` on the text of the description file. */
  function ParseProjDesc(content: string): (r: seq<(string, string)>)
    ensures Assoc.DistinctKeys(r)
    ensures forall k :: 0 <= k < |r| ==> '\n' !in r[k].1
  {
    var lines := Split(content, '\n');
    var bs := BlocksOf(lines);
    assert NoNewline(lines);
    BlocksOfSpec(lines);
    DescriptionsNoNewline(bs);
    Descriptions(bs)
  }

  lemma NoNewlineAppend(a: seq<string>, b: seq<string>)
    requires NoNewline(a) && NoNewline(b)
    ensures NoNewline(a + b)
  {
    assert forall k :: |a| <= k < |a| + |b| ==> (a + b)[k] == b[k - |a|];
  }

  lemma WordNoNewline(name: string)
    requires AllWord(name)
    ensures '\n' !in "# " + name
  {
    var line := "# " + name;
    forall k | 0 <= k < |line| ensures line[k] != '\n' {
      if k >= 2 {
        assert line[k] == name[k - 2];
      }
    }
  }

  /** Well-formed blocks with newline-free bodies are written as
      newline-free lines. */
  lemma {:induction false} RenderNoNewline(blocks: seq<Block>)
    requires AllWellFormed(blocks) && BodiesNoNewline(blocks)
    ensures NoNewline(RenderBlocks(blocks))
    decreases |blocks|
  {
    if |blocks| > 0 {
      var b := blocks[0];
      AllWellFormedTail(blocks);
      ConsBlock(b, blocks[1..]);
      assert blocks == [b] + blocks[1..];
      RenderNoNewline(blocks[1..]);
      RenderCons(blocks);
      WordNoNewline(b.name);
      NoNewlineAppend(["# " + b.name], b.body);
      NoNewlineAppend(["# " + b.name] + b.body, RenderBlocks(blocks[1..]));
    }
  }

  /** Round trip through the file text: a description file written from
      well-formed blocks, after a preamble without headings, gives every
      project the description of its last block, and no other project. */
  lemma ParseProjDescOfRender(preamble: seq<string>, blocks: seq<Block>, i: nat)
    requires NoHeading(preamble) && NoNewline(preamble)
    requires AllWellFormed(blocks) && BodiesNoNewline(blocks)
    requires LastWithName(blocks, i)
    ensures Assoc.Get(ParseProjDesc(Join(preamble + RenderBlocks(blocks), "\n")), blocks[i].name)
         == Some(Collapse(blocks[i].body))
    ensures forall n ::
      (n in Assoc.Keys(ParseProjDesc(Join(preamble + RenderBlocks(blocks), "\n"))) <==> n in Names(blocks))
  {
    var lines := preamble + RenderBlocks(blocks);
    RenderNoNewline(blocks);
    NoNewlineAppend(preamble, RenderBlocks(blocks));
    RenderCons(blocks);
    SplitJoin(lines, '\n');
    BlocksOfRender(preamble, blocks);
    DescriptionsLastWins(blocks, i);
  }

  // ---------------------------------------------------------------------
  // generate_project_html and generate_all_projects_html

  /** `str.capitalize` on ASCII: the first letter upper case, the rest lower. */
  function Capitalize(s: string): (r: string)
    ensures |r| == |s|
    ensures '\n' !in s ==> '\n' !in r
  {
    if |s| == 0 then "" else [AsciiUpper(s[0])] + Lower(s[1..])
  }

  const ImageDiv := "\t\t<div class=\"project-image\" "
  const OpenImage := ImageDiv + "onclick=\"openLightbox('"
  const Placeholder := ImageDiv + "style=" + "\"background: #f0f0f0; display: flex; align-items: center; justify-content: center;\">"
  const BadgeOpen := "\t\t\t<div class=\"image-count\">"
  const BadgeClose := "</div>"
  const HeadOpen := "\t\t\t<h2>"
  const HeadClose := "</h2>"
  const Indent := "\t\t\t"

  /** Python's truth value of the image list: present and non-empty. */
  predicate HasImages(images: Option<seq<string>>) {
    images.Some? && |images.value| > 0
  }

  predicate HasBadge(images: Option<seq<string>>) {
    images.Some? && |images.value| > 1
  }

  function ImageCount(images: Option<seq<string>>): nat {
    if images.Some? then |images.value| else 0
  }

  /** The thumbnail lines: the first image with a count badge when there is
      more than one image, or the "No images" placeholder. */
  function ImageLines(project: string, images: Option<seq<string>>): (r: seq<string>)
    ensures |r| == if HasBadge(images) then 4 else 3
  {
    if HasImages(images) then
      [OpenImage + project + "', 0)\">",
       "\t\t\t<img src=\"images/" + images.value[0] + "\" alt=\"" + Capitalize(project) + "\">"]
      + (if |images.value| > 1 then [BadgeOpen + NatToString(|images.value|) + BadgeClose] else [])
      + ["\t\t</div>"]
    else
      [Placeholder, "\t\t\t<span style=\"color: #999;\">No images</span>", "\t\t</div>"]
  }

  /** The thumbnail opens the lightbox on the first image exactly when there
      are images; it shows that image, and the badge carries their number. */
  lemma ImageLinesSpec(project: string, images: Option<seq<string>>)
    ensures var r := ImageLines(project, images);
      && (r[0] == Placeholder <==> !HasImages(images))
      && (HasImages(images) <==> StartsWith(r[0], OpenImage))
      && (HasImages(images) ==> r[1] == "\t\t\t<img src=\"images/" + images.value[0] + "\" alt=\"" + Capitalize(project) + "\">")
      && (HasBadge(images) ==> r[2] == BadgeOpen + NatToString(|images.value|) + BadgeClose)
      && (HasImages(images) && !HasBadge(images) ==> r[2] == "\t\t</div>")
  {
    if HasImages(images) {
      var first := OpenImage + project + "', 0)\">";
      assert first[..|OpenImage|] == OpenImage;
      assert first != Placeholder by {
        assert first[|ImageDiv|] == OpenImage[|ImageDiv|] == 'o' != 's' == Placeholder[|ImageDiv|];
      }
    } else {
      assert !StartsWith(Placeholder, OpenImage) by {
        assert Placeholder[|ImageDiv|] == 's' != 'o' == OpenImage[|ImageDiv|];
      }
    }
  }

  /** The lines of one project block; the last is empty, so the block ends
      with a newline once joined. */
  function ProjectLines(project: string, description: string, images: Option<seq<string>>): (r: seq<string>)
    ensures |r| == if HasBadge(images) then 14 else 13
    ensures r[|r| - 7] == HeadOpen + project + HeadClose
    ensures r[|r| - 5] == Indent + description
    ensures r[|r| - 1] == ""
  {
    ["\t<!-- " + Capitalize(project) + " Project -->", "\t<div class=\"project\">"]
    + ImageLines(project, images)
    + ["\t\t<div class=\"project-content\">", HeadOpen + project + HeadClose, "\t\t\t<p>",
       Indent + description, "\t\t\t</p>", "\t\t</div>", "\t</div>", ""]
  }

  /** `generate_project_html`. */
  function GenerateProjectHtml(project: string, description: string, images: Option<seq<string>>): string
  {
    Join(ProjectLines(project, description, images), "\n")
  }

  /** `generate_all_projects_html`: the blocks in description order, each
      with the images stored for its name. */
  function GenerateAllProjectsHtml(descs: seq<(string, string)>, images: seq<(string, seq<string>)>): string
  {
    Join(seq(|descs|, i requires 0 <= i < |descs| =>
      GenerateProjectHtml(descs[i].0, descs[i].1, Assoc.Get(images, descs[i].0))), "\n")
  }

  function AllProjectLines(descs: seq<(string, string)>, images: seq<(string, seq<string>)>): seq<string>
  {
    if |descs| == 0 then []
    else ProjectLines(descs[0].0, descs[0].1, Assoc.Get(images, descs[0].0)) + AllProjectLines(descs[1..], images)
  }

  function Blocks(descs: seq<(string, string)>, images: seq<(string, seq<string>)>): (r: seq<string>)
    ensures |r| == |descs|
  {
    seq(|descs|, i requires 0 <= i < |descs| =>
      GenerateProjectHtml(descs[i].0, descs[i].1, Assoc.Get(images, descs[i].0)))
  }

  lemma BlocksTail(descs: seq<(string, string)>, images: seq<(string, seq<string>)>)
    requires |descs| > 0
    ensures Blocks(descs, images)[0] == GenerateProjectHtml(descs[0].0, descs[0].1, Assoc.Get(images, descs[0].0))
    ensures Blocks(descs, images)[1..] == Blocks(descs[1..], images)
  {
  }

  /** The page is the project blocks' lines one after another. */
  lemma {:induction false} AllProjectsHtmlLines(descs: seq<(string, string)>, images: seq<(string, seq<string>)>)
    ensures GenerateAllProjectsHtml(descs, images) == Join(AllProjectLines(descs, images), "\n")
    decreases |descs|
  {
    assert GenerateAllProjectsHtml(descs, images) == Join(Blocks(descs, images), "\n");
    if |descs| > 0 {
      var rest := descs[1..];
      var first := ProjectLines(descs[0].0, descs[0].1, Assoc.Get(images, descs[0].0));
      BlocksTail(descs, images);
      AllProjectsHtmlLines(rest, images);
      assert GenerateAllProjectsHtml(rest, images) == Join(Blocks(rest, images), "\n");
      if |rest| > 0 {
        assert |AllProjectLines(rest, images)| > 0;
        JoinAppend(first, AllProjectLines(rest, images), "\n");
      } else {
        assert AllProjectLines(rest, images) == [];
        assert AllProjectLines(descs, images) == first + [] == first;
        assert |Blocks(descs, images)| == 1;
        assert Join(Blocks(descs, images), "\n") == Blocks(descs, images)[0] == Join(first, "\n");
      }
    }
  }

  /** What a reader of the page sees of one project. */
  datatype Shown = Shown(project: string, description: string, imageCount: nat)

  function Between(line: string, open: string, close: string): string {
    if |open| + |close| <= |line| then line[|open|..|line| - |close|] else ""
  }

  function BadgeCount(line: string): nat {
    var d := Between(line, BadgeOpen, BadgeClose);
    if AllDigits(d) then DigitsValue(d) else 0
  }

  /** Reads the project blocks back off the lines of the page. */
  function ReadProjects(lines: seq<string>): seq<Shown>
    decreases |lines|
  {
    if |lines| < 13 then []
    else
      var hasImage := StartsWith(lines[2], OpenImage);
      var badge := hasImage && |lines| >= 14 && StartsWith(lines[4], BadgeOpen);
      var n := if badge then 14 else 13;
      var count := if !hasImage then 0 else if badge then BadgeCount(lines[4]) else 1;
      [Shown(Between(lines[n - 7], HeadOpen, HeadClose), Between(lines[n - 5], Indent, ""), count)]
      + ReadProjects(lines[n..])
  }

  lemma BetweenOf(open: string, x: string, close: string)
    ensures Between(open + x + close, open, close) == x
  {
    var line := open + x + close;
    assert line[|open|..|line| - |close|] == x;
  }

  /** One block reads back as its name, description and image count. */
  lemma {:induction false} ReadProjectLines(project: string, description: string, images: Option<seq<string>>, rest: seq<string>)
    ensures ReadProjects(ProjectLines(project, description, images) + rest)
         == [Shown(project, description, ImageCount(images))] + ReadProjects(rest)
  {
    var block := ProjectLines(project, description, images);
    var lines := block + rest;
    var n := |block|;
    assert lines[..n] == block && lines[n..] == rest;
    ImageLinesSpec(project, images);
    assert lines[2] == ImageLines(project, images)[0];
    BetweenOf(HeadOpen, project, HeadClose);
    BetweenOf(Indent, description, "");
    assert Indent + description + "" == Indent + description;
    if HasBadge(images) {
      assert lines[4] == ImageLines(project, images)[2];
      var digits := NatToString(|images.value|);
      BetweenOf(BadgeOpen, digits, BadgeClose);
      assert StartsWith(lines[4], BadgeOpen) by {
        assert lines[4][..|BadgeOpen|] == BadgeOpen;
      }
    } else if HasImages(images) {
      assert lines[4] == "\t\t</div>";
    }
  }

  function ShownAll(descs: seq<(string, string)>, images: seq<(string, seq<string>)>): seq<Shown> {
    seq(|descs|, i requires 0 <= i < |descs| => Shown(descs[i].0, descs[i].1, ImageCount(Assoc.Get(images, descs[i].0))))
  }

  lemma {:induction false} ReadAllProjectLines(descs: seq<(string, string)>, images: seq<(string, seq<string>)>)
    ensures ReadProjects(AllProjectLines(descs, images)) == ShownAll(descs, images)
    decreases |descs|
  {
    if |descs| > 0 {
      var rest := AllProjectLines(descs[1..], images);
      ReadProjectLines(descs[0].0, descs[0].1, Assoc.Get(images, descs[0].0), rest);
      ReadAllProjectLines(descs[1..], images);
      ShownAllCons(descs, images);
    }
  }

  lemma ShownAllCons(descs: seq<(string, string)>, images: seq<(string, seq<string>)>)
    requires |descs| > 0
    ensures ShownAll(descs, images)
         == [Shown(descs[0].0, descs[0].1, ImageCount(Assoc.Get(images, descs[0].0)))] + ShownAll(descs[1..], images)
  {
    assert ShownAll(descs, images)[1..] == ShownAll(descs[1..], images);
  }

  /** For each project in description order, the page shows its name, its
      description and the number of its images: the placeholder (0) when it
      has none, no badge (1) for a single image, and the badge count
      otherwise. */
  lemma GalleryShowsProjects(descs: seq<(string, string)>, images: seq<(string, seq<string>)>)
    ensures GenerateAllProjectsHtml(descs, images) == Join(AllProjectLines(descs, images), "\n")
    ensures ReadProjects(AllProjectLines(descs, images)) == ShownAll(descs, images)
  {
    AllProjectsHtmlLines(descs, images);
    ReadAllProjectLines(descs, images);
  }

  // ---------------------------------------------------------------------
  // generate_project_images_js

  const JsOpen := "const projectImages = {"
  const JsEnd := "\t\t};"

  /** The `{[\s\S]*?\n\t\t\};` end of the table as the page is searched for it. */
  const JsClose := "\n" + JsEnd

  function ImageList(images: seq<string>): string {
    Join(seq(|images|, i requires 0 <= i < |images| => "'images/" + images[i] + "'"), ",\n\t\t\t\t")
  }

  /** One project's entry: its name and its quoted image paths, one per line. */
  function JsEntry(project: string, images: seq<string>): string {
    "\t\t\t'" + project + "': [\n\t\t\t\t" + ImageList(images) + "\n\t\t\t]"
  }

  function JsEntries(items: seq<(string, seq<string>)>): (r: seq<string>)
    ensures |r| == |items|
  {
    seq(|items|, i requires 0 <= i < |items| => JsEntry(items[i].0, items[i].1))
  }

  /** Each entry but the last followed by a comma. */
  function Commaed(entries: seq<string>): (r: seq<string>)
    ensures |r| == |entries|
  {
    seq(|entries|, i requires 0 <= i < |entries| => entries[i] + (if i < |entries| - 1 then "," else ""))
  }

  /** `generate_project_images_js`. */
  function GenerateImagesJs(items: seq<(string, seq<string>)>): string
  {
    Join([JsOpen] + Commaed(JsEntries(items)) + [JsEnd], "\n")
  }

  /** The per-line commas amount to separating the entries by ",\n": no
      comma after the last entry. */
  lemma {:induction false} CommaedJoin(entries: seq<string>)
    requires |entries| > 0
    ensures Join(Commaed(entries), "\n") == Join(entries, ",\n")
    decreases |entries|
  {
    if |entries| > 1 {
      CommaedJoin(entries[1..]);
      assert Commaed(entries)[1..] == Commaed(entries[1..]);
      assert Commaed(entries)[0] == entries[0] + ",";
    }
  }

  /** The table is its header, the entries separated by ",\n" in the order of
      the projects, and its closing line. */
  lemma ImagesJsShape(items: seq<(string, seq<string>)>)
    ensures |items| == 0 ==> GenerateImagesJs(items) == JsOpen + JsClose
    ensures |items| > 0 ==> GenerateImagesJs(items) == JsOpen + "\n" + Join(JsEntries(items), ",\n") + JsClose
  {
    var c := Commaed(JsEntries(items));
    if |items| == 0 {
      assert [JsOpen] + c + [JsEnd] == [JsOpen, JsEnd];
      assert [JsOpen, JsEnd][1..] == [JsEnd];
      assert Join([JsOpen, JsEnd], "\n") == JsOpen + "\n" + JsEnd;
    } else {
      CommaedJoin(JsEntries(items));
      JoinAppend([JsOpen], c, "\n");
      JoinSnoc([JsOpen] + c, JsEnd, "\n");
    }
  }

  // ---------------------------------------------------------------------
  // The splices of update_html

  /** The match of `open[\s\S]*?close`: the first `open`, and the first
      `close` after it. */
  function Anchors(s: string, open: string, close: string): (r: Option<(nat, nat)>)
    ensures r.Some? ==>
      OccursAt(s, open, r.value.0) && r.value.0 + |open| <= r.value.1 && OccursAt(s, close, r.value.1)
  {
    match FindFrom(s, open, 0)
    case None => None
    case Some(i) =>
      match FindFrom(s, close, i + |open|)
      case None => None
      case Some(j) => Some((i, j))
  }

  /** The match is leftmost, and there is none exactly when every `close`
      starts before the end of every `open`. */
  lemma AnchorsSpec(s: string, open: string, close: string)
    ensures var r := Anchors(s, open, close);
      r.Some? ==>
      && (forall k :: 0 <= k < r.value.0 ==> !OccursAt(s, open, k))
      && (forall k :: r.value.0 + |open| <= k < r.value.1 ==> !OccursAt(s, close, k))
    ensures Anchors(s, open, close).None? <==>
      forall i, j :: OccursAt(s, open, i) && OccursAt(s, close, j) ==> j < i + |open|
  {
  }

  /** The text between the anchors replaced by `inner`. */
  function Splice(s: string, open: string, close: string, inner: string): string
  {
    match Anchors(s, open, close)
    case None => s
    case Some((i, j)) => s[..i] + open + inner + close + s[j + |close|..]
  }

  /** Both anchors and everything outside them are kept, and the text
      between them is `inner`. Without a match the text is unchanged. */
  lemma SpliceSpec(s: string, open: string, close: string, inner: string)
    ensures Anchors(s, open, close).None? ==> Splice(s, open, close, inner) == s
    ensures Anchors(s, open, close).Some? ==>
      var (i, j) := Anchors(s, open, close).value;
      var r := Splice(s, open, close, inner);
      && i + |open| <= |r|
      && r[..i + |open|] == s[..i + |open|]
      && r[i + |open|..] == inner + s[j..]
      && StartsWith(s[j..], close)
  {
    match Anchors(s, open, close)
    case None =>
    case Some((i, j)) =>
      SpliceAt(s, open, close, inner, i, j);
  }

  lemma SpliceAt(s: string, open: string, close: string, inner: string, i: nat, j: nat)
    requires OccursAt(s, open, i) && i + |open| <= j && OccursAt(s, close, j)
    ensures var r := s[..i] + open + inner + close + s[j + |close|..];
      && i + |open| <= |r|
      && r[..i + |open|] == s[..i + |open|]
      && r[i + |open|..] == inner + s[j..]
      && StartsWith(s[j..], close)
  {
    assert s[..i + |open|] == s[..i] + open;
    assert s[j..] == close + s[j + |close|..];
  }

  /** Text that agrees with `s` up to the end of its first `open` has its
      first `open` in the same place. */
  lemma {:induction false} SamePrefixSameOpen(s: string, r: string, open: string, i: nat)
    requires OccursAt(s, open, i) && (forall k :: 0 <= k < i ==> !OccursAt(s, open, k))
    requires i + |open| <= |r| && r[..i + |open|] == s[..i + |open|]
    ensures OccursAt(r, open, i) && (forall k :: 0 <= k < i ==> !OccursAt(r, open, k))
  {
    var p := i + |open|;
    forall m | 0 <= m < p ensures r[m] == s[m] {
      assert r[m] == r[..p][m] && s[m] == s[..p][m];
    }
    forall k | 0 <= k <= i ensures OccursAt(r, open, k) == OccursAt(s, open, k) {
      assert r[k..k + |open|] == s[k..k + |open|];
    }
  }

  /** Splicing `inner` where it already stands gives the text back. */
  lemma {:induction false} SpliceInPlace(r: string, open: string, close: string, inner: string, i: nat, q: nat)
    requires Anchors(r, open, close) == Some((i, q))
    requires q == i + |open| + |inner| <= |r| && r[i + |open|..q] == inner
    ensures Splice(r, open, close, inner) == r
  {
    var p := i + |open|;
    var r2 := Splice(r, open, close, inner);
    SpliceSpec(r, open, close, inner);
    assert r2 == r2[..p] + r2[p..];
    assert r == r[..p] + r[p..];
    assert r[p..] == r[p..p + |inner|] + r[p + |inner|..];
  }

  /** The spliced text still has its match in the same place, now around
      `inner`. */
  lemma {:induction false} SplicedAnchors(s: string, r: string, open: string, close: string, inner: string, i: nat, j: nat)
    requires OccursAt(s, open, i) && (forall k :: 0 <= k < i ==> !OccursAt(s, open, k))
    requires i + |open| <= |r| && r[..i + |open|] == s[..i + |open|]
    requires j <= |s| && r[i + |open|..] == inner + s[j..] && StartsWith(s[j..], close)
    requires FindFrom(inner + close, close, 0) == Some(|inner|)
    ensures Anchors(r, open, close) == Some((i, i + |open| + |inner|))
    ensures r[i + |open|..i + |open| + |inner|] == inner
  {
    var p := i + |open|;
    SamePrefixSameOpen(s, r, open, i);
    assert StartsWith(r[p..], inner + close) by {
      assert (inner + s[j..])[..|inner + close|] == inner + close;
    }
    FirstCloseAfter(r, p, inner, close);
    AnchorsAt(r, open, close, i, p + |inner|);
    assert r[p..p + |inner|] == r[p..][..|inner|] == (inner + s[j..])[..|inner|] == inner;
  }

  /** Text spliced once around `inner` is its own splice. */
  lemma {:induction false} SplicedIsFixed(s: string, r: string, open: string, close: string, inner: string, i: nat, j: nat)
    requires Anchors(s, open, close) == Some((i, j))
    requires i + |open| <= |r| && r[..i + |open|] == s[..i + |open|]
    requires r[i + |open|..] == inner + s[j..] && StartsWith(s[j..], close)
    requires FindFrom(inner + close, close, 0) == Some(|inner|)
    ensures Splice(r, open, close, inner) == r
  {
    AnchorsSpec(s, open, close);
    SplicedAnchors(s, r, open, close, inner, i, j);
    SpliceInPlace(r, open, close, inner, i, i + |open| + |inner|);
  }

  /** Splicing the same text in again changes nothing, as long as `close`
      first occurs in `inner + close` at its own end. */
  lemma SpliceIdempotent(s: string, open: string, close: string, inner: string)
    requires FindFrom(inner + close, close, 0) == Some(|inner|)
    ensures Splice(Splice(s, open, close, inner), open, close, inner) == Splice(s, open, close, inner)
  {
    SpliceSpec(s, open, close, inner);
    match Anchors(s, open, close)
    case None =>
    case Some((i, j)) =>
      SplicedIsFixed(s, Splice(s, open, close, inner), open, close, inner, i, j);
  }

  /** The match is the first `open` and the first `close` after it. */
  lemma AnchorsAt(s: string, open: string, close: string, i: nat, j: nat)
    requires OccursAt(s, open, i) && i + |open| <= j && OccursAt(s, close, j)
    requires forall k :: 0 <= k < i ==> !OccursAt(s, open, k)
    requires forall k :: i + |open| <= k < j ==> !OccursAt(s, close, k)
    ensures Anchors(s, open, close) == Some((i, j))
  {
  }

  const ProjectsOpen := "<hr>\n\n"
  const ProjectsClose := "<!-- Lightbox Modal -->"

  /** `update_html` on the page text: the project blocks (followed by a tab)
      go between the rule and the lightbox comment, and the image table
      replaces the old one. A page with neither anchor pair is returned
      unchanged. */
  function UpdateHtml(html: string, descs: seq<(string, string)>, images: seq<(string, seq<string>)>): (r: string)
    ensures Anchors(html, ProjectsOpen, ProjectsClose).None? && Anchors(html, JsOpen, JsClose).None? ==> r == html
  {
    var withProjects := Splice(html, ProjectsOpen, ProjectsClose, GenerateAllProjectsHtml(descs, images) + "\t");
    var js := GenerateImagesJs(images);
    ImagesJsShape(images);
    SpliceSpec(html, ProjectsOpen, ProjectsClose, GenerateAllProjectsHtml(descs, images) + "\t");
    SpliceSpec(withProjects, JsOpen, JsClose, js[|JsOpen|..|js| - |JsClose|]);
    Splice(withProjects, JsOpen, JsClose, js[|JsOpen|..|js| - |JsClose|])
  }

  /** The page with the project blocks (followed by a tab) put between the
      first `<hr>\n\n` and the first lightbox comment after it, both anchors
      kept; the page itself when that pair is missing. */
  function WithProjectBlocks(html: string, blocks: string): (r: string)
  {
    match Anchors(html, ProjectsOpen, ProjectsClose)
    case None => html
    case Some((i, j)) => html[..i + |ProjectsOpen|] + blocks + "\t" + html[j..]
  }

  /** What `update_html` writes. The project blocks go between the rule and
      the lightbox comment; then the first `const projectImages = {` ...
      `\n\t\t};` table of that text is replaced, anchors included, by the
      generated table; everything else is kept. */
  lemma UpdateHtmlSpec(html: string, descs: seq<(string, string)>, images: seq<(string, seq<string>)>)
    ensures var mid := WithProjectBlocks(html, GenerateAllProjectsHtml(descs, images));
      && (Anchors(mid, JsOpen, JsClose).None? ==> UpdateHtml(html, descs, images) == mid)
      && (Anchors(mid, JsOpen, JsClose).Some? ==>
            var (a, b) := Anchors(mid, JsOpen, JsClose).value;
            UpdateHtml(html, descs, images) == mid[..a] + GenerateImagesJs(images) + mid[b + |JsClose|..])
  {
    var blocks := GenerateAllProjectsHtml(descs, images);
    ProjectsStage(html, blocks);
    var js := GenerateImagesJs(images);
    ImagesJsShape(images);
    TableStage(WithProjectBlocks(html, blocks), js, js[|JsOpen|..|js| - |JsClose|]);
  }

  /** The first substitution is `WithProjectBlocks`. */
  lemma ProjectsStage(html: string, blocks: string)
    ensures Splice(html, ProjectsOpen, ProjectsClose, blocks + "\t") == WithProjectBlocks(html, blocks)
  {
    SpliceSpec(html, ProjectsOpen, ProjectsClose, blocks + "\t");
    var mid := Splice(html, ProjectsOpen, ProjectsClose, blocks + "\t");
    match Anchors(html, ProjectsOpen, ProjectsClose)
    case None =>
    case Some((i, j)) =>
      assert mid == mid[..i + |ProjectsOpen|] + mid[i + |ProjectsOpen|..];
  }

  /** The second substitution puts the whole table `js`, anchors included,
      where the old one stood. */
  lemma TableStage(mid: string, js: string, inner: string)
    requires js == JsOpen + inner + JsClose
    ensures Anchors(mid, JsOpen, JsClose).None? ==> Splice(mid, JsOpen, JsClose, inner) == mid
    ensures Anchors(mid, JsOpen, JsClose).Some? ==>
      var (a, b) := Anchors(mid, JsOpen, JsClose).value;
      Splice(mid, JsOpen, JsClose, inner) == mid[..a] + js + mid[b + |JsClose|..]
  {
  }
}
