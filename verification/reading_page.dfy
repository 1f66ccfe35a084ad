/** The page side of the reading-progress reconciler: the fixed-width
    progress bar and its reading, the "in progress" section of the page, the
    entries found there, and the add / update / complete decision for each
    entry of the reading list. */
module ReadingPage {
  import opened Wrappers
  import opened Strings
  import opened ReadingList

  // ---------------------------------------------------------------------
  // generateProgressBar and the bar pattern `I(-*)(\*)(-*)I`

  /** Ten cells between two `I`s, with a `*` in cell `p` when `p` is 1..10. */
  function ProgressBar(p: int): (r: string)
    ensures |r| == 12 && r[0] == 'I' && r[11] == 'I'
    ensures forall k :: 1 <= k <= 10 ==> r[k] == '*' || r[k] == '-'
    ensures forall k :: 0 <= k < 12 ==> (r[k] == '*' <==> 1 <= p <= 10 && k == p)
  {
    "I" + seq(10, i requires 0 <= i < 10 => if i + 1 == p then '*' else '-') + "I"
  }

  /** The first index at or after `j` that does not hold a dash. */
  function DashEnd(s: string, j: nat): (e: nat)
    requires j <= |s|
    decreases |s| - j
    ensures j <= e <= |s| && (e == |s| || s[e] != '-')
    ensures forall k :: j <= k < e ==> s[k] == '-'
  {
    if j < |s| && s[j] == '-' then DashEnd(s, j + 1) else j
  }

  /** The dash run from `j` ends at the first non-dash. */
  lemma DashEndAt(s: string, j: nat, e: nat)
    requires j <= e <= |s| && (e == |s| || s[e] != '-')
    requires forall k :: j <= k < e ==> s[k] == '-'
    ensures DashEnd(s, j) == e
  {
  }

  /** The bar pattern matched at `i`: the progress it encodes, which is the
      number of dashes before the `*` plus one. */
  function BarAt(s: string, i: nat): (r: Option<nat>)
    ensures r.Some? ==> 1 <= r.value && i + r.value < |s| && s[i] == 'I' && s[i + r.value] == '*'
    ensures r.Some? ==> forall k :: i < k < i + r.value ==> s[k] == '-'
    ensures r.Some? ==> exists e :: i + r.value < e < |s| && s[e] == 'I' && DashesBetween(s, i + r.value + 1, e)
  {
    if i < |s| && s[i] == 'I' then
      var j := DashEnd(s, i + 1);
      if j < |s| && s[j] == '*' then
        var k := DashEnd(s, j + 1);
        if k < |s| && s[k] == 'I' then Some(j - i) else None
      else None
    else None
  }

  /** Only dashes stand in `s[j..e]`. */
  predicate DashesBetween(s: string, j: nat, e: nat)
    requires j <= e <= |s|
  {
    forall k :: j <= k < e ==> s[k] == '-'
  }

  /** The converse of `BarAt`'s contract: wherever `I`, `v - 1` dashes, `*`,
      dashes and `I` stand from `i`, the pattern matches there with `v`. */
  lemma BarAtOf(s: string, i: nat, v: nat, e: nat)
    requires 1 <= v && i + v < e < |s|
    requires s[i] == 'I' && s[i + v] == '*' && s[e] == 'I'
    requires DashesBetween(s, i + 1, i + v) && DashesBetween(s, i + v + 1, e)
    ensures BarAt(s, i) == Some(v)
  {
    DashEndAt(s, i + 1, i + v);
    DashEndAt(s, i + v + 1, e);
  }

  function DecodeFrom(s: string, i: nat): (r: nat)
    decreases |s| - i
    ensures r == 0 <==> forall k :: i <= k < |s| ==> BarAt(s, k).None?
    ensures r > 0 ==> r < |s|
    ensures r > 0 ==> exists k :: i <= k < |s| && BarAt(s, k) == Some(r)
                                   && forall m :: i <= m < k ==> BarAt(s, m).None?
  {
    if i >= |s| then 0
    else match BarAt(s, i)
      case Some(v) => v
      case None =>
        var r := DecodeFrom(s, i + 1);
        FirstBarStep(s, i, r);
        r
  }

  /** A miss at `i` carries the leftmost match from `i + 1` back to `i`. */
  lemma FirstBarStep(s: string, i: nat, r: nat)
    requires i < |s| && BarAt(s, i).None?
    requires r > 0 ==> exists k :: i + 1 <= k < |s| && BarAt(s, k) == Some(r)
                                   && forall m :: i + 1 <= m < k ==> BarAt(s, m).None?
    ensures r > 0 ==> exists k :: i <= k < |s| && BarAt(s, k) == Some(r)
                                  && forall m :: i <= m < k ==> BarAt(s, m).None?
  {
    if r > 0 {
      var k :| i + 1 <= k < |s| && BarAt(s, k) == Some(r)
               && forall m :: i + 1 <= m < k ==> BarAt(s, m).None?;
      assert forall m :: i <= m < k ==> BarAt(s, m).None?;
    }
  }

  /** The progress read back from a bar: the leftmost match of the bar
      pattern, or 0 when there is none. */
  function DecodeBar(s: string): (r: nat)
    ensures r == 0 <==> forall k :: 0 <= k < |s| ==> BarAt(s, k).None?
    ensures r > 0 ==> r < |s|
    ensures r > 0 ==> exists k :: 0 <= k < |s| && BarAt(s, k) == Some(r)
                                   && forall m :: 0 <= m < k ==> BarAt(s, m).None?
  {
    DecodeFrom(s, 0)
  }

  /** Round trip: the page reads back the progress it was written with, and
      a bar without a star reads as 0. */
  lemma DecodeProgressBar(p: int)
    ensures DecodeBar(ProgressBar(p)) == if 1 <= p <= 10 then p else 0
  {
    var bar := ProgressBar(p);
    if 1 <= p <= 10 {
      DashEndAt(bar, 1, p);
      DashEndAt(bar, p + 1, 11);
      assert BarAt(bar, 0) == Some(p);
    } else {
      forall k | 0 <= k < |bar| ensures BarAt(bar, k).None? {
        assert forall m :: 0 <= m < |bar| ==> bar[m] != '*';
      }
    }
  }

  // ---------------------------------------------------------------------
  // The author/title split at the last ", "

  /** `author, title` cut at its last ", ": the title holds no ", ". */
  function SplitAuthorTitle(full: string): (r: Option<(string, string)>)
    ensures r.None? <==> !Contains(full, ", ")
    ensures r.Some? ==> full == r.value.0 + ", " + r.value.1
    ensures r.Some? ==> !Contains(r.value.1, ", ")
  {
    match LastIndexOf(full, ", ")
    case None => None
    case Some(k) =>
      var title := full[k + 2..];
      AfterLastHasNone(full, ", ", k);
      assert full == full[..k] + ", " + title;
      Some((full[..k], title))
  }

  lemma JoinedSeparators(author: string, title: string)
    requires !Contains(title, ", ")
    ensures OccursAt(author + ", " + title, ", ", |author|)
    ensures forall m :: |author| < m ==> !OccursAt(author + ", " + title, ", ", m)
  {
    var full := author + ", " + title;
    var n := |author|;
    assert full[n..n + 2] == ", ";
    forall m | n < m ensures !OccursAt(full, ", ", m) {
      if m == n + 1 && m + 2 <= |full| {
        assert full[m..m + 2][0] == full[n + 1] == ' ';
      } else if n + 2 <= m && m + 2 <= |full| {
        assert full[m..m + 2] == title[m - n - 2..m - n];
        NotContains(title, ", ", m - n - 2);
      }
    }
  }

  /** Round trip with the row the page is written with,
      `${author}, ${title}`, for any title without ", ". */
  lemma {:induction false} SplitAuthorTitleJoin(author: string, title: string)
    requires !Contains(title, ", ")
    ensures SplitAuthorTitle(author + ", " + title) == Some((author, title))
  {
    var full := author + ", " + title;
    JoinedSeparators(author, title);
    LastIndexOfAt(full, ", ", |author|);
    assert full[..|author|] == author && full[|author| + 2..] == title;
  }

  // ---------------------------------------------------------------------
  // extractExistingEntries

  const InProgressMarker := "<i>in progress</i><br>"

  /** The section ends where `<br><br>` or `</p>` starts. */
  predicate EndsSectionAt(s: string, k: int) {
    OccursAt(s, "<br><br>", k) || OccursAt(s, "</p>", k)
  }

  function SectionEnd(s: string, from: nat): (e: nat)
    requires from <= |s|
    decreases |s| - from
    ensures from <= e <= |s|
    ensures forall k :: from <= k < e ==> !EndsSectionAt(s, k)
    ensures e < |s| ==> EndsSectionAt(s, e)
  {
    if from == |s| then |s|
    else if EndsSectionAt(s, from) then from
    else SectionEnd(s, from + 1)
  }

  /** `data-pagecount` as `parseInt` leaves it: absent (`null`), a number, or `NaN`. */
  datatype PageCount = NoCount | Count(n: int) | NotANumber

  /** One `<div class="row" ...>` of the section, as the row pattern captures
      it: the `data-isbn10` value ("" when absent), the page count, and the
      text of the author and progress cells. */
  datatype Row = Row(isbnAttr: string, pageCount: PageCount, authorCell: string, progressCell: string, fullMatch: string)

  datatype Existing = Existing(
    author: string,
    title: string,
    progress: nat,
    pageCount: PageCount,
    isbn10: string,
    fullMatch: string)

  /** A row becomes an entry when its author cell has a ", " to split at. */
  function EntryOfRow(row: Row): (r: Option<Existing>)
    ensures r.None? <==> !Contains(Trim(row.authorCell), ", ")
    ensures r.Some? ==> r.value.author + ", " + r.value.title == Trim(row.authorCell)
    ensures r.Some? ==> !Contains(r.value.title, ", ")
    ensures r.Some? ==> r.value.progress == DecodeBar(Trim(row.progressCell))
    ensures r.Some? ==> r.value.isbn10 == NormalizeIsbn(row.isbnAttr) && '-' !in r.value.isbn10
    ensures r.Some? ==> r.value.pageCount == row.pageCount && r.value.fullMatch == row.fullMatch
  {
    match SplitAuthorTitle(Trim(row.authorCell))
    case None => None
    case Some((author, title)) =>
      Some(Existing(author, title, DecodeBar(Trim(row.progressCell)), row.pageCount,
                    NormalizeIsbn(row.isbnAttr), row.fullMatch))
  }

  /** The entries of the rows that split, in row order. */
  function EntriesOf(rows: seq<Row>): (r: seq<Existing>)
    ensures |r| <= |rows|
    ensures forall x :: x in r ==> exists row :: row in rows && EntryOfRow(row) == Some(x)
    ensures forall row :: row in rows && EntryOfRow(row).Some? ==> EntryOfRow(row).value in r
  {
    if |rows| == 0 then []
    else
      var init := rows[..|rows| - 1];
      var last := rows[|rows| - 1];
      assert rows == init + [last];
      var rest := EntriesOf(init);
      match EntryOfRow(last)
      case None => rest
      case Some(x) => rest + [x]
  }

  /** One row contributes its entry when it splits, and nothing otherwise. */
  lemma EntriesOfOne(row: Row)
    ensures EntriesOf([row]) == if EntryOfRow(row).Some? then [EntryOfRow(row).value] else []
  {
    assert [row][..0] == [];
  }

  /** Row order is kept: the entries of consecutive stretches of rows are
      the concatenation of their entries, duplicates included. */
  lemma {:induction false} EntriesOfAppend(a: seq<Row>, b: seq<Row>)
    ensures EntriesOf(a + b) == EntriesOf(a) + EntriesOf(b)
    decreases |b|
  {
    if |b| == 0 {
      assert a + b == a;
    } else {
      var init := b[..|b| - 1];
      var last := b[|b| - 1];
      assert (a + b)[..|a + b| - 1] == a + init;
      assert (a + b)[|a + b| - 1] == last;
      EntriesOfAppend(a, init);
    }
  }

  datatype Extraction = Extraction(entries: seq<Existing>, inProgressIndex: int, endSectionIndex: Option<nat>)

  /** The section runs from just after the first marker to the first
      `<br><br>` or `</p>` after it, or to the end of the page; its rows are
      found by `rowsIn` (the row pattern). Without a marker there is no
      section: no entries and index -1. */
  function ExtractExistingEntries(html: string, rowsIn: string -> seq<Row>): (r: Extraction)
    ensures r.inProgressIndex == -1 <==> !Contains(html, InProgressMarker)
    ensures r.inProgressIndex == -1 ==> r.entries == [] && r.endSectionIndex.None?
    ensures r.inProgressIndex != -1 ==>
      var start := r.inProgressIndex;
      && |InProgressMarker| <= start <= |html|
      && OccursAt(html, InProgressMarker, start - |InProgressMarker|)
      && (forall k :: 0 <= k < start - |InProgressMarker| ==> !OccursAt(html, InProgressMarker, k))
      && r.endSectionIndex.Some?
      && start <= r.endSectionIndex.value <= |html|
      && (forall k :: start <= k < r.endSectionIndex.value ==> !EndsSectionAt(html, k))
      && (r.endSectionIndex.value < |html| ==> EndsSectionAt(html, r.endSectionIndex.value))
      && r.entries == EntriesOf(rowsIn(html[start..r.endSectionIndex.value]))
  {
    match FindFrom(html, InProgressMarker, 0)
    case None => Extraction([], -1, None)
    case Some(m) =>
      var start := m + |InProgressMarker|;
      var e := SectionEnd(html, start);
      Extraction(EntriesOf(rowsIn(html[start..e])), start, Some(e))
  }

  // ---------------------------------------------------------------------
  // determineChanges

  /** The first entry on the page with this author and title. */
  function FindExisting(existing: seq<Existing>, author: string, title: string): (r: Option<Existing>)
    ensures r.None? <==> forall x :: x in existing ==> !(x.author == author && x.title == title)
    ensures r.Some? ==> r.value in existing && r.value.author == author && r.value.title == title
    ensures r.Some? ==> exists i :: 0 <= i < |existing| && existing[i] == r.value &&
                                    (forall j :: 0 <= j < i ==> !(existing[j].author == author && existing[j].title == title))
  {
    if |existing| == 0 then None
    else if existing[0].author == author && existing[0].title == title then Some(existing[0])
    else
      var r := FindExisting(existing[1..], author, title);
      assert forall x :: x in existing ==> x == existing[0] || x in existing[1..];
      if r.Some? then
        var i :| 0 <= i < |existing[1..]| && existing[1..][i] == r.value &&
          forall j :: 0 <= j < i ==> !(existing[1..][j].author == author && existing[1..][j].title == title);
        assert existing[i + 1] == r.value;
        r
      else r
  }

  /** What happens to one reading-list entry. */
  datatype Action = Add | Update(found: Existing) | Complete(lookup: Option<Existing>) | Keep

  function Classify(e: MdEntry, existing: seq<Existing>): (a: Action)
    ensures a.Complete? <==> e.isCompleted
    ensures a.Complete? ==> a.lookup == FindExisting(existing, e.author, e.title)
    ensures a.Add? <==> !e.isCompleted && FindExisting(existing, e.author, e.title).None?
    ensures a.Update? ==> FindExisting(existing, e.author, e.title) == Some(a.found)
    ensures a.Update? ==> a.found.progress != e.progress || a.found.pageCount != Count(e.totalPages)
    ensures a.Keep? <==>
      && !e.isCompleted
      && FindExisting(existing, e.author, e.title).Some?
      && FindExisting(existing, e.author, e.title).value.progress == e.progress
      && FindExisting(existing, e.author, e.title).value.pageCount == Count(e.totalPages)
  {
    var found := FindExisting(existing, e.author, e.title);
    if e.isCompleted then Complete(found)
    else if found.None? then Add
    else if found.value.progress != e.progress || found.value.pageCount != Count(e.totalPages) then Update(found.value)
    else Keep
  }

  /** An entry to rewrite or remove, with the ISBN and the row text found on the page. */
  datatype Pending = Pending(entry: MdEntry, isbn10: string, existingMatch: Option<string>)

  datatype Changes = Changes(toAdd: seq<MdEntry>, toUpdate: seq<Pending>, completed: seq<Pending>)

  function CountKept(md: seq<MdEntry>, existing: seq<Existing>): nat
  {
    if |md| == 0 then 0
    else CountKept(md[..|md| - 1], existing) + (if Classify(md[|md| - 1], existing).Keep? then 1 else 0)
  }

  /** The three buckets of `determineChanges`, filled in one pass over the
      reading list. */
  function DetermineChanges(md: seq<MdEntry>, existing: seq<Existing>): (c: Changes)
    ensures |c.toAdd| + |c.toUpdate| + |c.completed| + CountKept(md, existing) == |md|
  {
    if |md| == 0 then Changes([], [], [])
    else
      var e := md[|md| - 1];
      var c := DetermineChanges(md[..|md| - 1], existing);
      match Classify(e, existing)
      case Add => Changes(c.toAdd + [e], c.toUpdate, c.completed)
      case Update(x) => Changes(c.toAdd, c.toUpdate + [Pending(e, x.isbn10, Some(x.fullMatch))], c.completed)
      case Complete(found) =>
        var p := match found
          case Some(x) => Pending(e, x.isbn10, Some(x.fullMatch))
          case None => Pending(e, "", None);
        Changes(c.toAdd, c.toUpdate, c.completed + [p])
      case Keep => c
  }

  /** Every reading-list entry lands in at most one bucket: completed books
      always, unknown unfinished books in `toAdd`, known ones whose progress
      or page count moved in `toUpdate`, and the rest nowhere. */
  lemma {:induction false} DetermineChangesBuckets(md: seq<MdEntry>, existing: seq<Existing>)
    ensures var c := DetermineChanges(md, existing);
      && (forall e :: e in c.toAdd <==> e in md && Classify(e, existing).Add?)
      && (forall u :: u in c.toUpdate ==>
            && u.entry in md && Classify(u.entry, existing).Update?
            && u.isbn10 == Classify(u.entry, existing).found.isbn10
            && u.existingMatch == Some(Classify(u.entry, existing).found.fullMatch))
      && (forall e :: e in md && Classify(e, existing).Update? ==>
            exists u :: u in c.toUpdate && u.entry == e)
      && (forall u :: u in c.completed ==>
            && u.entry in md && u.entry.isCompleted
            && var found := FindExisting(existing, u.entry.author, u.entry.title);
            && u.isbn10 == (if found.Some? then found.value.isbn10 else "")
            && u.existingMatch == (if found.Some? then Some(found.value.fullMatch) else None))
      && (forall e :: e in md && e.isCompleted ==> exists u :: u in c.completed && u.entry == e)
    decreases |md|
  {
    if |md| > 0 {
      var init := md[..|md| - 1];
      var e := md[|md| - 1];
      assert md == init + [e];
      assert forall x :: x in md <==> x in init || x == e;
      DetermineChangesBuckets(init, existing);
    }
  }

  // ---------------------------------------------------------------------
  // The buckets in reading-list order

  /** The values `pick` yields along `md`, front to back. */
  function Select<T>(md: seq<MdEntry>, pick: MdEntry -> Option<T>): seq<T>
  {
    if |md| == 0 then []
    else (if pick(md[0]).Some? then [pick(md[0]).value] else []) + Select(md[1..], pick)
  }

  lemma {:induction false} SelectSnoc<T>(md: seq<MdEntry>, e: MdEntry, pick: MdEntry -> Option<T>)
    ensures Select(md + [e], pick) == Select(md, pick) + (if pick(e).Some? then [pick(e).value] else [])
    decreases |md|
  {
    if |md| == 0 {
      assert md + [e] == [e];
      assert [e][1..] == [];
    } else {
      assert (md + [e])[0] == md[0];
      assert (md + [e])[1..] == md[1..] + [e];
      SelectSnoc(md[1..], e, pick);
    }
  }

  /** The unknown unfinished books. */
  function AddPick(existing: seq<Existing>): MdEntry -> Option<MdEntry> {
    e => if Classify(e, existing).Add? then Some(e) else None
  }

  /** The known books whose progress or page count moved, with what the page holds for them. */
  function UpdatePick(existing: seq<Existing>): MdEntry -> Option<Pending> {
    e => match Classify(e, existing)
      case Update(x) => Some(Pending(e, x.isbn10, Some(x.fullMatch)))
      case _ => None
  }

  /** The finished books, with what the page holds for them if anything. */
  function CompletePick(existing: seq<Existing>): MdEntry -> Option<Pending> {
    e => match Classify(e, existing)
      case Complete(Some(x)) => Some(Pending(e, x.isbn10, Some(x.fullMatch)))
      case Complete(None) => Some(Pending(e, "", None))
      case _ => None
  }

  lemma {:induction false} AddsInOrder(md: seq<MdEntry>, existing: seq<Existing>)
    ensures DetermineChanges(md, existing).toAdd == Select(md, AddPick(existing))
    decreases |md|
  {
    if |md| > 0 {
      var init := md[..|md| - 1];
      assert md == init + [md[|md| - 1]];
      AddsInOrder(init, existing);
      SelectSnoc(init, md[|md| - 1], AddPick(existing));
    }
  }

  lemma {:induction false} UpdatesInOrder(md: seq<MdEntry>, existing: seq<Existing>)
    ensures DetermineChanges(md, existing).toUpdate == Select(md, UpdatePick(existing))
    decreases |md|
  {
    if |md| > 0 {
      var init := md[..|md| - 1];
      assert md == init + [md[|md| - 1]];
      UpdatesInOrder(init, existing);
      SelectSnoc(init, md[|md| - 1], UpdatePick(existing));
    }
  }

  lemma {:induction false} CompletionsInOrder(md: seq<MdEntry>, existing: seq<Existing>)
    ensures DetermineChanges(md, existing).completed == Select(md, CompletePick(existing))
    decreases |md|
  {
    if |md| > 0 {
      var init := md[..|md| - 1];
      assert md == init + [md[|md| - 1]];
      CompletionsInOrder(init, existing);
      SelectSnoc(init, md[|md| - 1], CompletePick(existing));
    }
  }

  /** Each bucket lists its entries in the order of the reading list, which
      is the order the new rows go into the page. */
  lemma DetermineChangesInOrder(md: seq<MdEntry>, existing: seq<Existing>)
    ensures DetermineChanges(md, existing) ==
      Changes(Select(md, AddPick(existing)), Select(md, UpdatePick(existing)), Select(md, CompletePick(existing)))
  {
    AddsInOrder(md, existing);
    UpdatesInOrder(md, existing);
    CompletionsInOrder(md, existing);
  }
}
