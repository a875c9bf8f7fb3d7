# PDF signature-line finder, modelled in Dafny

The system scans the words of each PDF page for signature lines. An anchor is:

- a rule of at least five underscores;
- a rule of at least five hyphens; or
- a word containing `assinatura` in any letter case.

Each anchor is paired with the text of the line just below it, when that line
starts less than 20 units below the anchor. The system records where every
anchor is. When a signer's name is given, it stamps the name just above each
anchor in one of three styles and saves the stamped copy under a derived
name. The web front end accepts only `.pdf` uploads. The browser draws
signature previews whose size follows the length of the name.

The model has one module per component:

- `Text` (`text.dfy`): the Python string operations the finder relies on.
  These are `isspace`, `lower`, `strip`, `in`, `join` and `replace`.
- `Normalize` (`normalize.dfy`): `normalize_text`.
- `Detector` (`detector.dfy`): `find_signature_lines`, written as the same
  two loops over a `map` from top edge to words. Its result is proved equal
  to the specification function `Detect`.
- `DetectorFacts` (`detector.dfy`): what `Detect` means.
  - One region per anchor.
  - Regions come line after line from the top.
  - Within a line they keep the engine's order.
  - Each region is described by the nearest line below, as given by a
    reference definition that does not use the sorted list of lines.
  - Entries too short to be words are ignored.
  - A worked page shows all of this.
- `Processor` (`processor.dfy`): `process_pdf_signatures`.
  - The document engine is a `Document` class whose pages, saved copies and
    closed flag the methods update.
  - The method is proved against specification functions for the statistics
    and for the stamped pages.
  - The lemmas state the statistics invariants, the page order of the
    locations, one stamp per region, and how the output name is formed.
- `Upload` (`upload.dfy`): `allowed_file`.
- `SignatureSvg` (`svg_sizing.dfy`): the style table, the width, height, centre
  and font size of `generateSignatureSVG`, and the preview placeholder name.
- `Wrappers` (`wrappers.dfy`): `Option` and `Result`.

The model follows the code where the code is more specific than its comments.
The anchor test is `strip`-based, so a mixed rule such as `__--_` is not an
anchor. The description gap is measured from the anchor's own bottom edge to
the next line's top edge.

A name with no lower-case `.pdf` in it, such as `X.PDF`, is its own output
name, because the replacement of `.pdf` is case-sensitive
(`Processor.OutputPathUnchanged`). The upload route shown in `main.py` hands
files to the highlighting code, not to `process_pdf_signatures`, so the two
are never chained.

## Model

| member | source | states |
|---|---|---|
| Text.LowerChar | pdf_finder.py:69 | a character changes under lower-casing exactly when it is an ASCII or Latin-1 capital; each capital becomes the letter at the same position of the lower-case alphabet (`A`→`a`, `À`→`à`); the result is never a capital; `.`, `_`, `-` are unchanged |
| Text.Lower | pdf_finder.py:32 | lower-casing keeps the length, leaves no capital, and keeps every character that is not a capital in its place |
| Text.LowerIdempotent | pdf_finder.py:32 | lower-casing a lower-cased text changes nothing |
| Text.StripCharEmpty | pdf_finder.py:65-67 | `s.strip(c) == ''` exactly when every character of `s` is `c` |
| Text.StripEmpty | pdf_finder.py:88 | `s.strip() == ''` exactly when `s` is all whitespace |
| Text.TrimNoEdges | pdf_finder.py:33 | after stripping, neither end is a stripped character |
| Text.ReplaceAllGrows | pdf_finder.py:100 | replacing by a longer text never shortens, and lengthens exactly when the pattern occurs |
| Text.ReplaceAllAbsent | pdf_finder.py:100 | replacing a pattern that does not occur leaves the text unchanged |
| Normalize.DropCombining | pdf_finder.py:31 | the result holds no combining mark and is never longer than the input |
| Normalize.DropCombiningKeeps | pdf_finder.py:31 | every character that is not a combining mark is kept as often as it occurs; every combining mark is removed |
| Normalize.DropCombiningAppend | pdf_finder.py:31 | dropping marks distributes over concatenation, so kept characters stay in order |
| Normalize.DropCombiningNone | pdf_finder.py:31 | a text without combining marks is kept whole |
| Normalize.NormalizeText | pdf_finder.py:28-34 | no whitespace at either end, only `' '` as whitespace, never two spaces in a row; the same words as the lower-cased decomposition without combining marks |
| Normalize.CollapseIsJoinSplit | pdf_finder.py:33 | substituting whitespace runs and stripping equals joining the whitespace-separated words with single spaces |
| Normalize.SplitJoin | pdf_finder.py:33 | splitting words joined by single spaces gives the words back |
| Normalize.CollapseShape | pdf_finder.py:33 | collapsing yields the collapsed shape and keeps the words |
| Normalize.CollapseIdempotent | pdf_finder.py:33 | collapsing twice equals collapsing once |
| Normalize.CollapseTwoWords | pdf_finder.py:33 | two words padded and separated by a whitespace run collapse to the words with one space between |
| Normalize.NormalizeWord | pdf_finder.py:30-34 | a text whose prepared form is one word normalizes to that word |
| Normalize.UpperKeywordNormalized | pdf_finder.py:30-34 | `ASSINATURA` normalizes to `assinatura` |
| Normalize.CapitalKeywordNormalized | pdf_finder.py:30-34 | `Assinatura` normalizes to `assinatura` |
| Normalize.AccentRemoved | pdf_finder.py:30-32 | an accent split off as a combining mark is removed before lower-casing: `Café` becomes `cafe` |
| Detector.AnchorIff | pdf_finder.py:63-70 | a word is an anchor exactly when it is all `_` with length at least 5, all `-` with length at least 5, or its lower-case form contains `assinatura` |
| Detector.RuleExamples | pdf_finder.py:65-67 | underscore and hyphen rules of every length from 5 up are anchors |
| Detector.NonAnchorExamples | pdf_finder.py:63-70 | `__`, `----`, the mixed `__--_` and the empty text are not anchors |
| Detector.KeywordExamples | pdf_finder.py:69 | `Assinatura:`, `ASSINATURA` and `(assinatura)` are anchors |
| DetectorFacts.GroupedContents | pdf_finder.py:47-53 | `words_by_y` has a key exactly for each top edge of a word; its group holds only words of the page with that top edge, each as often as the page lists it |
| Detector.AnchorWordsAreAnchors | pdf_finder.py:63-72 | every selected word is an anchor taken from the word list |
| Detector.GroupedStep | pdf_finder.py:51-53 | adding one word appends it to its top edge's group, creating the group if missing |
| Detector.SortedSeq | pdf_finder.py:56 | `sorted(keys)` holds each key once, in strictly increasing order |
| Detector.GroupByTop | pdf_finder.py:44-53 | the first loop builds exactly the grouping of the words with at least five fields, whose keys are their distinct top edges |
| Detector.ScanLine | pdf_finder.py:59-90 | the inner loop yields the regions of one line's anchors |
| Detector.FindSignatureLines | pdf_finder.py:36-92 | the method returns `Detect(entries)` |
| DetectorFacts.LineTop | pdf_finder.py:51-53 | every word of a group has that group's top edge and comes from the word list |
| DetectorFacts.TextBelowIsNext | pdf_finder.py:74-80 | the next key in sorted order is the nearest line below the anchor |
| DetectorFacts.DetectDescribed | pdf_finder.py:36-92 | the result is one region per anchor in reading order, carrying the anchor's box and text and the text of the nearest line below when it starts less than 20 units below the anchor's bottom edge |
| DetectorFacts.AnchorWordsCount | pdf_finder.py:63-72 | every anchor of the page is selected as often as the page lists it, and no other word is |
| DetectorFacts.ReadingOrderPermutation | pdf_finder.py:56-59 | the reading order holds the selected anchors (all anchors of the page, by `AnchorWordsCount`) exactly once each; the number of regions equals the number of anchors |
| DetectorFacts.LinesPermutation | pdf_finder.py:56-59 | walking every line in increasing order of top edge neither loses nor repeats a word |
| DetectorFacts.ReadingOrderSorted | pdf_finder.py:56-58 | regions never go back up the page |
| DetectorFacts.ReadingOrderStable | pdf_finder.py:53 | within one line the anchors keep the order the engine listed them in |
| DetectorFacts.HasDescriptionIff | pdf_finder.py:88 | `has_description` holds exactly when the text below has a non-whitespace character |
| DetectorFacts.DetectRegionsAreAnchors | pdf_finder.py:63-90 | every region is an anchor word of the page, described by the nearest line below |
| DetectorFacts.ShortEntryIgnored | pdf_finder.py:49 | an entry with fewer than five fields does not change the result |
| DetectorFacts.RuleAboveName | pdf_finder.py:36-92 | a rule followed by a name line yields one region; it is described as `Dr. Jane` when the name line's top is less than 20 units below the rule's bottom edge, and the description is empty at 20 units or more |
| Processor.StyleFor | pdf_finder.py:10-26 | the chosen style is always one of the table's three entries |
| Processor.StyleFallback | pdf_finder.py:138 | an unknown style name selects `Dancing Script`, size 24, blue |
| Processor.Document.Open | pdf_finder.py:102 | an opened document has the file's pages, no stamps, no saved copy and is open |
| Processor.Document.InsertText | pdf_finder.py:141-148 | inserting text appends one stamp to one page and changes nothing else |
| Processor.Document.Save | pdf_finder.py:152 | a successful save records the current pages under the path; a failed one records nothing |
| Processor.Document.Close | pdf_finder.py:160 | closing marks the document closed and keeps its contents |
| Processor.RecordAreas | pdf_finder.py:124-148 | the region loop records one location per region and, with a signer's name, one stamp per region on that page only |
| Processor.ProcessedStep | pdf_finder.py:113-148 | processing one page stamps that page and no other |
| Processor.ProcessPdfSignatures | pdf_finder.py:94-160 | a missing input fails before opening; otherwise every page is processed, the stats are those of `StatsFor`, the document is saved once exactly when the name is given and the save succeeds, a failed save is reported, and the document is always closed |
| Processor.OutputPathUnchanged | pdf_finder.py:100 | the output name equals the input exactly when the input has no `.pdf`, and is never shorter |
| Processor.OutputPathOfPdf | pdf_finder.py:100 | a name ending in its only `.pdf` gets `_assinado` before the extension |
| Processor.TotalIsLocations | pdf_finder.py:121-133 | `total_signature_lines` equals the number of locations |
| Processor.PagesWithBounds | pdf_finder.py:119-121 | `pages_with_signatures` is at most the page count and at most the region count |
| Processor.StatsConsistent | pdf_finder.py:103-133 | `pages_processed` is the page count, the counters agree with the locations, `output_path` and `signer_name` are recorded as given |
| Processor.LocationsInPageOrder | pdf_finder.py:113-127 | locations come in page order, each tagged with an existing page |
| Processor.LocationsOfEachPage | pdf_finder.py:124-133 | the locations tagged with a page are exactly that page's regions, in the finder's order |
| Processor.StampsPerRegion | pdf_finder.py:136-148 | with a name, each page has one stamp per region at the anchor's left edge, 0.5675 above its top, in the chosen style's font, size and colour; without a name no page is stamped |
| Upload.Extension | main.py:21 | the extension is the dot-free text after the last dot |
| Upload.ExtensionOfTail | main.py:21 | a name ending in a dot and a dot-free tail has that tail as extension |
| Upload.AllowedFileIff | main.py:18-21 | a name is accepted exactly when it ends in a dot followed by three characters that lower-case to `pdf` |
| Upload.AcceptedExamples | main.py:21 | `a.exe.pdf`, `.pdf` and `X.PDF` are accepted |
| Upload.RejectedExamples | main.py:21 | `noext`, `a.pdf.exe`, `a.pdfx` and `a.` are rejected |
| SignatureSvg.StyleOf | static/signatures/signature_styles.js:2-33 | the chosen style is always an entry of the table |
| SignatureSvg.StyleFallback | static/signatures/signature_styles.js:110 | an unknown style name selects the `cursive` entry; a known one its own |
| SignatureSvg.Utf16Length | static/signatures/signature_styles.js:117 | the length lies between one and two code units per character, and equals the character count when every character is in the Basic Multilingual Plane |
| SignatureSvg.Utf16Single | static/signatures/signature_styles.js:117 | one character is one code unit inside the Basic Multilingual Plane and two outside it |
| SignatureSvg.Utf16Append | static/signatures/signature_styles.js:117 | the code units of a concatenation are those of its parts, so with `Utf16Single` the count is exact for every text |
| SignatureSvg.Utf16Mixed | static/signatures/signature_styles.js:117 | a letter followed by an emoji is three code units |
| SignatureSvg.LeadingDigits | static/signatures/signature_styles.js:134 | the longest digit prefix of the size string |
| SignatureSvg.ParseTwoDigits | static/signatures/signature_styles.js:134 | `parseInt` of two digits followed by a unit is their value |
| SignatureSvg.StyleSizes | static/signatures/signature_styles.js:2-33 | every style's nominal size parses to between 42 and 52 pixels |
| SignatureSvg.Width | static/signatures/signature_styles.js:114-117 | the width lies between 200 and 500 |
| SignatureSvg.WidthFollowsLength | static/signatures/signature_styles.js:114-117 | the width is 20 per code unit between 10 and 25 code units, 200 below and 500 above |
| SignatureSvg.HeightBand | static/signatures/signature_styles.js:118 | the height is 0.4 of the width up to 100 and lies between 80 and 100 |
| SignatureSvg.SignatureLayout | static/signatures/signature_styles.js:120-128 | the text is anchored at the centre of the view box |
| SignatureSvg.FontSizeBounds | static/signatures/signature_styles.js:134 | the font size is defined, at most the nominal size, at most a fifth of the width, and between 40 and 52 |
| SignatureSvg.PreviewName | static/signatures/signature_styles.js:150 | the preview name is never empty and is the typed name when one is typed |
| SignatureSvg.PlaceholderPreview | static/signatures/signature_styles.js:150 | without a name the preview shows `Nome` at the minimum width 200 and height 80 |

## Left out

- Reading and writing files and running the PDF engine are not modelled. A
  file system is a map from path to page contents. A page's words are given
  as `Entry` values. Whether a save succeeds is a parameter.
- Exceptions raised inside the engine (a file that exists but is not a PDF,
  a failing `insert_text` or `get_text`) are not modelled. Only a failed
  save is, on the error path.
- Logging is not modelled.
- Normalize.NormalizeText: the Unicode NFKD decomposition and the
  combining-mark test are parameters of the model. Their Unicode tables are
  not part of it.
- Text.LowerChar: lower-casing is exact for ASCII and Latin-1 capitals only.
  Other scripts' case mappings, and those that change the length, are not
  modelled. Neither `assinatura` nor `pdf` can be completed by such a
  mapping.
- Coordinates are exact reals, not IEEE doubles. The code only compares and
  subtracts them.
- The colours, fonts and sizes of stamps are recorded, not rendered.
- The `type` field of regions and locations is always `signature_line` and
  is not represented.
- SignatureSvg.LeadingDigits: `parseInt` is modelled for strings that start
  with their digits. Leading whitespace, signs and hexadecimal prefixes do
  not occur in the style table and are not modelled.
- SignatureSvg.StyleOf: JavaScript object keys inherited from the prototype
  (such as `toString`) are not modelled; such a name falls back like any
  unknown name.
- The SVG and DOM element creation, the drawing canvas and touch handling
  are not modelled. Neither is `static/js/script.js`.
- The Flask routes, uploads, redirects and temporary-directory handling in
  `main.py` are not modelled.
- `highlight_text_in_pdf`, imported by `main.py`, is not part of this model.
