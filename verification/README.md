# A verified model of the teos.dk maintenance scripts

The site keeps three small tools next to its pages. This project models their
logic in Dafny and proves what each operation promises:

- **Reading progress** (`read/update-reading-progress.js`). A line of the
  reading list (`author, title, NofM`, with `\` escaping a comma) is split into
  fields, and its page progress becomes a 1–10 step drawn as an `I--*-------I`
  bar. The rows already on the page are read back from the "in progress"
  section. The list is compared with them to decide what to add, update or
  complete, and repeated books are reported.
  Modules: `MdFields`, `ReadingList`, `ReadingPage`.
- **AI project gallery** (`projects/ai/update_images.py`). The description file
  (`# name` headings) becomes an ordered map of descriptions. Each project's
  images are picked from the directory listing and ordered by a three-tier sort
  key. The project blocks and the JavaScript image table are generated and
  spliced between the page's anchors.
  Modules: `ImageOrder`, `GalleryPage`.
- **Post publisher** (`wrote/generate_post.py`). A markdown post
  (title / date / body) becomes a page named after the file. A dated link is
  inserted after the first `<p>` of the section index unless it is already
  there. The "Recently wrote" block of the main index is replaced.
  Module: `PostPublisher`.

Shared modules:

- `Wrappers`: `Option` and `Result`.
- `Strings`: trimming, searching, splitting, joining, decimal digits.
- `Assoc`: an insertion-ordered map with Python `dict` semantics.

Files, the directory listing, the clock and the markdown renderer are not
modelled. Their contents are parameters, and every operation is a pure
function of them. A run of the publisher returns the list of files it would
write, in order, together with the error it stopped with.

Regular expressions are modelled as explicit scanners with the same leftmost,
lazy or greedy choices. The scanners are checked against characterising
lemmas: first occurrence, maximal digit run, and so on.

Numbers are exact:

- The JavaScript progress percentage is the exact ceiling of tenths.
- Python `float` sort keys are Dafny `real`s.

Three behaviours of the code are worth knowing:

- The section-index entry is `<span class="entry-date">date</span> <a href=...>title</a><br>`.
- A section index without `<p>` stops the run after the post's page has been
  written (`PostPublisher.PublishIndexSteps`).
- The "Recently wrote" edit is not idempotent (see Findings).

## Model

| member | source | states |
|---|---|---|
| `ReadingList.NormalizeIsbn` | read/update-reading-progress.js:2-4 | The result has no hyphen. Every other character keeps its number of occurrences. A hyphen-free ISBN comes back unchanged. |
| `ReadingList.NormalizeIsbnIdempotent` | read/update-reading-progress.js:2-4 | Normalising twice is normalising once. |
| `MdFields.Fields` | read/update-reading-progress.js:26-37 | Every field is trimmed. There are as many fields as unescaped commas, plus one exactly when the raw text after the last unescaped comma is not blank after trimming; that last field is then non-empty. |
| `MdFields.SplitLine` | read/update-reading-progress.js:8-37 | The character loop computes exactly `Fields` of the line. Its branches are: escaped character taken literally, backslash, unescaped comma closing a field, plain character. |
| `MdFields.EncodeRoundTrip` | read/update-reading-progress.js:8-37 | Take trimmed fields whose last is non-empty, escape commas and backslashes, and join with `, `. Parsing that text gives back exactly those fields. |
| `MdFields.FieldsOfRaw` | read/update-reading-progress.js:35-37 | When the text after the last comma is not blank, the fields are the trimmed raw pieces. |
| `ReadingList.ProgressMatch` | read/update-reading-progress.js:41 | There is no match exactly when `of` never stands between a digit and a digit. |
| `ReadingList.ProgressMatchIsLeftmost` | read/update-reading-progress.js:41 | The match is the leftmost `NofM`, with both digit runs maximal, and yields their values. |
| `ReadingList.ProgressStep` | read/update-reading-progress.js:53-57 | The step is between 1 and 10. It is 1 at page 0. Otherwise it is the `p` with `(p-1)/10 < cur/total <= p/10`. |
| `ReadingList.ParseMdLine` | read/update-reading-progress.js:7-69 | Fails exactly when the line has fewer than three fields. Author, title and progress text are fields 0–2. Without `NofM` the result is progress 1, pages 0/0, not completed. With `NofM` the pages are N and M, and the book is completed iff N >= M. Progress is 1 when completed or at page 0, and otherwise the ceiling of tenths. |
| `ReadingList.ScanDone` | read/update-reading-progress.js:242-256 | After the scan, no report was made exactly when all author/title keys are distinct. |
| `ReadingList.DetectDuplicates` | read/update-reading-progress.js:238-257 | Every report names a line whose key appeared earlier, with that first line number and its own. Every such line is reported. Reports come in line order. There are none exactly when all keys are distinct. |
| `ReadingPage.ProgressBar` | read/update-reading-progress.js:170-181 | The bar is 12 characters between two `I`. Position k holds `*` exactly when k is the step and the step is within 1–10; every other inner position holds `-`. |
| `ReadingPage.BarAt` | read/update-reading-progress.js:112-113 | A match at `i` is an `I`, then only dashes up to the `*`, then only dashes up to a closing `I`. The value is the number of dashes before the `*` plus one. |
| `ReadingPage.BarAtOf` | read/update-reading-progress.js:112-113 | Conversely, wherever that shape stands from `i`, the pattern matches there with that value. |
| `ReadingPage.DecodeBar` | read/update-reading-progress.js:112-113 | The result is 0 exactly when the pattern matches nowhere. Otherwise it is the value of the leftmost match: the pattern matches there with the result, and at no earlier position. |
| `ReadingPage.DecodeProgressBar` | read/update-reading-progress.js:112-113 | Reading a generated bar gives back its step for 1–10, and 0 for steps that draw no star. |
| `ReadingPage.SplitAuthorTitle` | read/update-reading-progress.js:106-109 | There is no split exactly when `, ` does not occur. Otherwise author + `, ` + title is the text, and the title holds no `, `: the split is at the last one. |
| `ReadingPage.SplitAuthorTitleJoin` | read/update-reading-progress.js:106-109 | `author, title` with a title free of `, ` splits back into that author and title. |
| `ReadingPage.SectionEnd` | read/update-reading-progress.js:84-89 | The end is the first `<br><br>` or `</p>` at or after the start, or the end of the text. |
| `ReadingPage.EntryOfRow` | read/update-reading-progress.js:99-124 | A row gives an entry exactly when its trimmed author cell contains `, `. The entry carries: the split, the decoded bar, the normalised ISBN, the page count and the row text. |
| `ReadingPage.EntriesOf` | read/update-reading-progress.js:99-125 | Every entry comes from a row, and every row that splits contributes its entry. |
| `ReadingPage.EntriesOfOne` | read/update-reading-progress.js:99-125 | A single row gives its entry when its author cell splits, and nothing otherwise. |
| `ReadingPage.EntriesOfAppend` | read/update-reading-progress.js:99-125 | Entries keep row order and repeats: the rows `a + b` give the entries of `a` followed by those of `b`. |
| `ReadingPage.ExtractExistingEntries` | read/update-reading-progress.js:72-132 | The index is -1 exactly when the marker is missing, and then there are no entries. Otherwise the section runs from just after the first marker to the first section end after it, and the entries are those of its rows. |
| `ReadingPage.FindExisting` | read/update-reading-progress.js:142-144 | The result is the first existing entry with the same author and title, or none when there is no such entry. |
| `ReadingPage.Classify` | read/update-reading-progress.js:146-163 | An entry is completed iff it is marked completed. It is added iff it is not completed and not on the page. It is updated iff it is on the page with a different step or page count. Otherwise it is kept. |
| `ReadingPage.DetermineChanges` | read/update-reading-progress.js:135-167 | The added, updated, completed and kept entries account for the whole list: their numbers add up to its length. |
| `ReadingPage.DetermineChangesBuckets` | read/update-reading-progress.js:140-164 | Added are exactly the list entries classified as added. Updates and completions carry the ISBN and row text of the entry found on the page, or empty / none when there is none. |
| `ReadingPage.DetermineChangesInOrder` | read/update-reading-progress.js:140-166 | Each of the three lists is the reading list filtered in its own order. |
| `ImageOrder.Suffix` | projects/ai/update_images.py:77 | `Path.suffix`: either empty, or a dot and at least one character ending the name. It is never the whole name and holds no further dot. |
| `ImageOrder.SortKeyOf` | projects/ai/update_images.py:49-67 | Tier 0 is exactly the names with `prefix_N[.M]` or `prefixN`. Tier 1 is exactly the remaining `ulysquotC` names. Tier 2 is the rest, with number 0. The key ends with the file name. |
| `ImageOrder.SortKeyDotted` | projects/ai/update_images.py:52-54 | `prefix_W.F…` has tier 0 and the exact decimal value W.F. |
| `ImageOrder.SortKeyUnderscore` | projects/ai/update_images.py:52-54 | `prefix_W…` without a fraction has tier 0 and the value W. |
| `ImageOrder.SortKeyRun` | projects/ai/update_images.py:57-59 | `prefixNNNN…` has tier 0 and the value of the digits, leading zeros ignored. |
| `ImageOrder.SortKeyContinued` | projects/ai/update_images.py:62-65 | `ulysquotCNNN…` under the prefix `ulysquot` has tier 1, so it follows every tier-0 name. |
| `ImageOrder.TrailingZero` | projects/ai/update_images.py:54 | A trailing zero in the fraction does not change the number: `1.10` and `1.1` tie. |
| `ImageOrder.WholeDominates` | projects/ai/update_images.py:54 | A smaller whole part sorts first whatever the fractions: `1.9` comes before `2.0`. |
| `ImageOrder.BeforeTotal` | projects/ai/update_images.py:80 | Any two names are ordered one way or the other. |
| `ImageOrder.BeforeTrans` | projects/ai/update_images.py:80 | The key order is transitive. |
| `ImageOrder.BeforeAntisym` | projects/ai/update_images.py:80 | Names ordered both ways are equal, since the key ends with the name. |
| `ImageOrder.SortImages` | projects/ai/update_images.py:80 | The result is a permutation of the input, sorted by key. |
| `ImageOrder.SortedUnique` | projects/ai/update_images.py:80 | Two sorted permutations of the same names are equal, so the order is reproducible. |
| `ImageOrder.Candidates` | projects/ai/update_images.py:76-78 | A name occurs exactly as often as in the listing when it has an image extension and starts with the project name. Otherwise it does not occur. |
| `ImageOrder.ImagesFor` | projects/ai/update_images.py:75-80 | The result is sorted and is a permutation of the candidates. It holds a name iff the listing has it, it is an image, and it starts with the project. |
| `ImageOrder.FindProjectImages` | projects/ai/update_images.py:70-85 | The keys are distinct and are the projects with at least one image, in project order. Each project maps to its sorted images, and one without images is absent. |
| `ImageOrder.FindProjectImagesOrderFree` | projects/ai/update_images.py:76 | The result does not depend on the order of the directory listing. |
| `GalleryPage.HeadingNameSpec` | projects/ai/update_images.py:35 | A heading line is `# `, a non-empty word, then only whitespace. |
| `GalleryPage.HeadingNameOf` | projects/ai/update_images.py:35 | Every such line is a heading, with that word as name. |
| `GalleryPage.BlocksOfSpec` | projects/ai/update_images.py:35-41 | Every block is named by a word. A file whose lines have no newline gives bodies without one. |
| `GalleryPage.BlocksOfRender` | projects/ai/update_images.py:35-41 | Well-formed blocks written out after heading-free lines read back as exactly those blocks. |
| `GalleryPage.Collapse` | projects/ai/update_images.py:43 | A description is empty exactly when all its lines are blank, and holds no newline. |
| `GalleryPage.CollapseIsJoin` | projects/ai/update_images.py:43 | A description is the trimmed non-blank lines joined by single spaces. |
| `GalleryPage.CollapseTrimmed` | projects/ai/update_images.py:43 | A description neither starts nor ends with whitespace. |
| `GalleryPage.DescriptionsLastWins` | projects/ai/update_images.py:44 | A repeated heading overwrites: each name carries the description of its last block. |
| `GalleryPage.ParseProjDesc` | projects/ai/update_images.py:29-46 | The keys are distinct, and no description holds a newline. |
| `GalleryPage.ParseProjDescOfRender` | projects/ai/update_images.py:29-46 | Write a description file from well-formed blocks after heading-free lines. Its keys are exactly the block names, and each maps to the collapsed body of its last block. |
| `GalleryPage.ImageLinesSpec` | projects/ai/update_images.py:107-119 | The thumbnail opens the lightbox exactly when there are images and shows the first one. A badge with the image count appears when there is more than one image. Otherwise the placeholder is shown. |
| `GalleryPage.ProjectLines` | projects/ai/update_images.py:102-130 | A block is 14 lines with a badge and 13 without. It holds the heading with the name and the description line, and ends with an empty line. |
| `GalleryPage.ReadProjectLines` | projects/ai/update_images.py:102-130 | One generated block reads back as its project name, its description and its image count. |
| `GalleryPage.GalleryShowsProjects` | projects/ai/update_images.py:133-139 | The generated page holds the projects' blocks one after another, in description order. Read back, it shows each project's name, description and image count. |
| `GalleryPage.ImagesJsShape` | projects/ai/update_images.py:88-99 | The table is its header, the entries in project order separated by `,\n`, and its closing line. It is header and closing line only when there are no projects. |
| `GalleryPage.AnchorsSpec` | projects/ai/update_images.py:148 | The match is the first opening anchor and the first closing anchor after it. There is none exactly when every closing anchor starts before the end of every opening one. |
| `GalleryPage.SpliceSpec` | projects/ai/update_images.py:148-149 | Both anchors and everything outside them stay byte for byte, and the text between them becomes the new text. Without a match the page is unchanged. |
| `GalleryPage.SpliceIdempotent` | projects/ai/update_images.py:148-154 | Splicing the same text in again changes nothing. |
| `GalleryPage.UpdateHtml` | projects/ai/update_images.py:142-156 | A page with neither pair of anchors comes back unchanged. |
| `GalleryPage.UpdateHtmlSpec` | projects/ai/update_images.py:142-156 | The project blocks plus a tab go between the first `<hr>\n\n` and the first lightbox comment after it, both kept; without that pair the text is unchanged. Then the first `const projectImages = {` … `\n\t\t};` table of that text is replaced whole by the generated table; without one nothing more changes. Everything else is kept. |
| `PostPublisher.BaseName` | wrote/generate_post.py:10 | The base name holds no `/` and ends the path, right after its last `/`. |
| `PostPublisher.Stem` | wrote/generate_post.py:10 | `splitext`: the stem is cut at the last dot unless everything before that dot is dots. Otherwise it is the whole name. |
| `PostPublisher.Slugify` | wrote/generate_post.py:9-10 | The slug ends with `.html`, holds no `/`, and starts the base name. |
| `PostPublisher.SlugifyOf` | wrote/generate_post.py:9-10 | `dir/name.ext` becomes `name.html`. |
| `PostPublisher.SlugifyHidden` | wrote/generate_post.py:10 | `dir/.name` keeps its leading dot: `.name.html`. |
| `PostPublisher.ParseMd` | wrote/generate_post.py:12-20 | Fails exactly when there are fewer than three lines. Otherwise it gives: the first line without leading `#`s and whitespace, trimmed; the trimmed second line; the remaining lines joined and trimmed. |
| `PostPublisher.TitleOfHeading` | wrote/generate_post.py:17 | `# title` gives back the title. |
| `PostPublisher.ParseMdOf` | wrote/generate_post.py:12-20 | A post written as heading, date and body parses back into them. |
| `PostPublisher.ParseMdTrimmed` | wrote/generate_post.py:17-19 | Title, date and body carry no surrounding whitespace. |
| `PostPublisher.ReadRenderedPage` | wrote/generate_post.py:22-48 | A page rendered from a title and date without `<` gives back its title, date and body. |
| `PostPublisher.RenderHtmlInjective` | wrote/generate_post.py:22-48 | Posts whose titles and dates hold no `<` render to different pages when they differ. |
| `PostPublisher.UpdateIndex` | wrote/generate_post.py:50-78 | An index that already links the page is returned unchanged. It fails exactly when the link is new and no line strips to `<p>`. Otherwise the entry is inserted right after the first such line. |
| `PostPublisher.UpdateIndexRemoveEntry` | wrote/generate_post.py:65-72 | The new index is the old one with exactly one line added, the entry. |
| `PostPublisher.UpdateIndexIdempotent` | wrote/generate_post.py:55-57 | A second insertion for the same page changes nothing, so no link is ever doubled. |
| `PostPublisher.FirstMatch` | wrote/generate_post.py:94-98 | The match is the leftmost anchor followed by whitespace and `<p>`. It ends at the first `</p><br>` after that. |
| `PostPublisher.ReplaceBlockSpec` | wrote/generate_post.py:94-114 | It fails exactly when the pattern matches nowhere. Otherwise everything up to the `<p>` and everything after the `</p><br>` are kept, and the block is replaced. |
| `PostPublisher.UpdateRecentlyWroteHasBlock` | wrote/generate_post.py:82-117 | After a successful edit, the main index contains the new block. |
| `PostPublisher.UpdateRecentlyWroteAddsNewline` | wrote/generate_post.py:86-102 | As written, a second run for the same post makes the main index one character longer. |
| `PostPublisher.UpdateRecentlyWroteCorrectedIdempotent` | wrote/generate_post.py:86-102 | With the block's trailing newline dropped, a second run leaves the main index as the first left it. |
| `PostPublisher.Steps` | wrote/generate_post.py:128-139 | The page is written first. A section index without `<p>` stops the run right after it. A new link writes the updated section index, joined, second. A main index without a block stops the run after the page, plus the section index for a new link. A finished run writes the main index last. |
| `PostPublisher.PublishIndexSteps` | wrote/generate_post.py:119-141 | In `main` a section index without `<p>` stops the run right after the page is written. A new link writes `wroteindex.html` second, holding the updated index lines. A main index without a "Recently wrote" block stops the run exactly when the section index updated. The main index is then never written, so one or two files have been written. A finished run writes last the main index with the block as the script builds it. |
| `PostPublisher.PublishCorrectedSettles` | wrote/generate_post.py:119-141 | With the corrected block, a finished run leaves a main index that a second edit for the same post does not change. |

## Left out

- File reading and writing, `print`/`console` output, exit codes and the
  argument-count check of `main` are not modelled. File contents are
  parameters. Errors are `Result` failures or the error field of a run.
- `handleCompletedBooks`, `updateReadingProgress` and the top-level call of the
  JavaScript tool are not modelled. They are file edits driven by the modelled
  `determineChanges`. The same holds for the `__main__` block and the summary
  printout of the gallery script.
- `projects/photography/imageGallery.js` is not part of this model.
- ReadingPage.ExtractExistingEntries: the row regular expression is the
  parameter `rowsIn`, a scanner of the section text. `parseInt` of
  `data-pagecount` is taken as already read into `PageCount`, with NaN as its
  own value.
- PostPublisher.Publish: `markdown.markdown` is a parameter. Python's
  universal-newline reading of the post is not modelled; lines are given
  already split.
- PostPublisher.ReplaceBlock: only the first match is replaced. `pattern.subn`
  (generate_post.py:102) replaces every non-overlapping match, so a page with
  two "Recently wrote" anchors differs.
- PostPublisher.UpdateRecentlyWrote: the new block is inserted literally.
  `subn` reads `r'\1' + new_block` as a template (generate_post.py:102), so a
  title or date holding a backslash escape such as `\d` makes the script raise
  instead.
- PostPublisher.UpdateRecentlyWroteCorrectedIdempotent: requires that the
  anchor's first occurrence is the one that matches (`FirstAnchorMatches`), and
  that the new block closes only at its own end (`OwnCloseOnly`).
- GalleryPage.Splice: only the first match is replaced. `re.sub`
  (update_images.py:149,154) replaces every non-overlapping match.
- GalleryPage.Splice: the replacement text is taken literally. Python
  expands backslash escapes in a `re.sub` template, so a description holding
  `\d` makes the script raise instead.
- GalleryPage.IsWordChar: `\w` is taken as ASCII letters, digits and `_`.
  Python's `\w` also accepts non-ASCII letters and digits
  (update_images.py:35).
- GalleryPage.BlocksOf: the file is read line by line. The `\s*$` of the
  heading pattern can also take up the blank lines after a heading, which
  changes only blank lines that the collapse drops anyway.
- Strings.IsDigit: digits are ASCII `0`–`9`. Python's `\d` and `float`
  accept other Unicode digits (update_images.py:52,57,63).
  JavaScript's `\d` is ASCII-only, as modelled.
- Strings.IsSpace: whitespace is ASCII space, tab, newline, carriage return,
  vertical tab and form feed. JavaScript `trim` also removes the Unicode
  space separators, U+00A0, U+1680, U+2028, U+2029 and U+FEFF. Python
  `strip` and `\s` also remove the ASCII separators `\x1c`–`\x1f`, `\x85`,
  and the Unicode space separators.
- GalleryPage.Capitalize: `str.capitalize` is modelled on ASCII letters only
  (update_images.py:104,111).
- Strings.Lower: the lower-casing of the suffix (update_images.py:77) is
  ASCII-only.
- ReadingList.ProgressStep: the percentage is computed exactly, as the
  ceiling of tenths. The source uses floating-point division and `Math.ceil`,
  which could round differently for very large page counts.
- ReadingList.ParseMdLine: the page numbers are exact naturals. `parseInt`
  loses precision beyond 2^53.
- ImageOrder.SortKeyOf: `float` keys are exact reals. Python's floats would
  tie distinct decimals that round to the same double.
- ImageOrder.FindProjectImages: the directory listing is a sequence of file
  names. Subdirectories and the filesystem's listing order are not modelled,
  and `FindProjectImagesOrderFree` shows the order does not matter.

## Findings

| source | as written | input that shows it | evidently intended | confidence | as-written member | corrected member |
|---|---|---|---|---|---|---|
| wrote/generate_post.py:86-102 | `new_block` ends with `</p><br>\n`, but the pattern stops at `</p><br>` and keeps the old line end, so each run adds one more newline after the block | a main index with the "Recently wrote" anchor and a `<p>…</p><br>\n` block, published twice with the same post: the second run's output is one character longer than the first's | replacing the block with the same post leaves the index unchanged (no `\n` after `</p><br>` in the new block) | not executed | `PostPublisher.UpdateRecentlyWroteAddsNewline` | `PostPublisher.UpdateRecentlyWroteCorrectedIdempotent` |
