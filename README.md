# Bible verse slides: a Dafny model of the slide generator

The program turns a Korean Bible reference such as `창1:1-3,2:1-2; 왕상3:1-5` into a
PowerPoint deck. There is one slide per verse. A verse longer than a character limit is
spread over several slides by a greedy word wrap. Each slide is a copy of the first slide
of a template file. Its text boxes `TitleBox`, `VerseBox` and `ContentBox` receive the
reference (`창세기 1장`), the verse number and the verse text.

This project models that pipeline from `core/ppt_generator.py` and proves properties of it.
The model follows the source's own shape:

- `pytext.dfy` (`PyText`): the Python string built-ins the code relies on.
  - `str.strip()`, `str.split(sep)`, `str.split()` and `sep.join`.
  - `int()` on base-10 text (whitespace, a sign, digits and single underscores). `int()` does not skip the separators U+001C to U+001F that `strip()` removes, so it fails on them.
  - `str()` of an integer.
- `bible.dfy` (`Bible`):
  - the 66-entry abbreviation table `BIBLE_BOOK_ABBR`;
  - the fixed translation name;
  - the shape of the verse dataset.
- `selection.dfy` (`Selection`): `parse_selection`.
  - `Parse` is a specification in three layers: `;` segments, `,` fragments and verse tokens.
  - `ParseSelection`, `ParseChapterRanges` and `ParseVerseTokens` are the three nested loops. Each is proved equal to its layer.
  - The `ValueError`s the parser raises (a bad unpacking, a bad `int()`) become `Err(ValueError(fragment))`. The interpreter's size limits are not modelled (see below).
- `lookup.dfy` (`Lookup`): `get_verses`.
  - `Verses` is the specification.
  - `GetVerses` is the nested loop (its inner loop is `LookupSelection`), proved equal to it.
- `chunking.dfy` (`Chunking`): the greedy word wrap of `_create_split_slides`, as groups of words.
- `frames.dfy` (`Frames`):
  - text frames, paragraphs and runs;
  - `set_text_preserve_style`, as a method that removes runs and paragraphs one by one.
- `slides.dfy` (`Slides`):
  - the class `Presentation`, whose slide list the methods change;
  - `clone_slide`, `_create_slide`, `_create_split_slides` and `create_ppt`;
  - the pure plan (`DeckPlan`, `Rendered`) that those methods are proved to produce.

## Model

| member | source | states |
|---|---|---|
| PyText.Strip | core/ppt_generator.py:44-74 | `strip()` as used at lines 44, 56, 66 and 74: the result is no longer than the input and neither starts nor ends with whitespace |
| PyText.StripSpec | core/ppt_generator.py:44 | `strip()` returns a contiguous piece of the input with only whitespace cut from both ends, and the result neither starts nor ends with whitespace |
| PyText.SplitOnSpec | core/ppt_generator.py:43 | the pieces of `split(sep)` contain no separator and join back to the input |
| PyText.SplitOnJoin | core/ppt_generator.py:43 | `split(sep)` inverts joining separator-free pieces |
| PyText.SplitOnAppend | core/ppt_generator.py:43 | splitting `a + sep + b` gives the pieces of `a` followed by those of `b` |
| PyText.SplitWords | core/ppt_generator.py:224 | `split()`: every piece is a non-empty, whitespace-free word |
| PyText.SplitWordsBlank | core/ppt_generator.py:224 | `split()` of text that is all whitespace (or empty) is the empty list |
| PyText.SplitWordsNext | core/ppt_generator.py:224 | after any leading whitespace, `split()` takes the whole next maximal word and continues after it; with `SplitWordsBlank` this fixes `split()` on every string |
| PyText.SplitWordsJoin | core/ppt_generator.py:224 | `split()` of words joined by single spaces gives back exactly those words |
| PyText.JoinSnoc | core/ppt_generator.py:229 | adding a word to a space-joined text is `text + " " + word`, or just `word` when there was no text |
| PyText.ParseInt | core/ppt_generator.py:72-81 | `int()` on base-10 text: a string holding one of U+001C to U+001F fails, as those are not skipped as whitespace; a success means the stripped text is non-empty, and the value is negative exactly when that text starts with `-` and is not zero |
| PyText.ParseIntNumeral | core/ppt_generator.py:72-81 | a successful `int(s)` read a numeral: the stripped text is an optional leading sign and then only digits and underscores, the digits are leading zeros followed by `str(abs(n))`, and a negative result had a `-` |
| PyText.ParseIntOfString | core/ppt_generator.py:91 | `int(str(n)) == n` for every integer, so the decimal chapter and verse keys read back as the numbers |
| PyText.IntToStringInjective | core/ppt_generator.py:91 | different chapter or verse numbers give different dataset keys |
| Bible.Abbreviation | core/ppt_generator.py:19-30 | the 66 entries of `BIBLE_BOOK_ABBR`, entry for entry, and nothing for any other key |
| Bible.Resolve | core/ppt_generator.py:60-63 | the result is the name itself or the table's full name for it, and is never itself an abbreviation |
| Bible.ResolveIdempotent | core/ppt_generator.py:60-63 | resolving a book name twice changes nothing, and no full name is itself an abbreviation |
| Bible.ResolveExamples | core/ppt_generator.py:19-30 | an exact abbreviation maps to its full name; a full name, a padded name or a foreign name passes through unchanged |
| Selection.Parse | core/ppt_generator.py:36-83 | what `parse_selection` returns, or the `ValueError` it raises; every error names a fragment that holds a `:` |
| Selection.ParseFragment | core/ppt_generator.py:66-82 | one `,` fragment: an error is a `ValueError` naming the stripped fragment, which holds a `:` |
| Selection.ParseToken | core/ppt_generator.py:73-82 | one verse token: an error names the token's fragment; a success is at most one selection, of the fragment's book and chapter |
| Selection.ExpandVerses | core/ppt_generator.py:77-81 | the verse list of one stripped token: `a-b` as a range, anything else as one number, `None` where `int()` or the unpacking raises |
| Selection.Range | core/ppt_generator.py:79 | `list(range(a, b+1))` has `b-a+1` elements `a, a+1, …` (none when `a > b`) |
| Selection.FindMarkFrom | core/ppt_generator.py:50-55 | the result is the leftmost position where `\d+:` matches, or there is no match at all |
| Selection.MarkAfterName | core/ppt_generator.py:50-57 | when no `\d+:` match starts inside the book name, the split position is exactly where the chapter digits start |
| Selection.ParseSelection | core/ppt_generator.py:36-83 | the segment loop returns exactly `Parse(selection)`: the selections in order, or the first `ValueError` |
| Selection.ParseChapterRanges | core/ppt_generator.py:65-82 | the fragment loop returns exactly the fragment layer of the specification |
| Selection.ParseVerseTokens | core/ppt_generator.py:73-82 | the verse-token loop returns exactly the token layer of the specification |
| Selection.ParseSemicolon | core/ppt_generator.py:43 | `parse("A;B")` is `parse("A")` followed by `parse("B")`, and fails with the first failure |
| Selection.ParseSegmentsAppend | core/ppt_generator.py:43-63 | segments are parsed independently and their selections are concatenated in order |
| Selection.SegmentBook | core/ppt_generator.py:44-63 | a blank segment or one without `\d+:` gives nothing; otherwise every selection's book is the resolved trimmed text before the mark, with at most one selection per fragment |
| Selection.FragmentSelection | core/ppt_generator.py:65-82 | a fragment without `:` gives nothing; a second `:` or a non-numeric chapter raises; otherwise it gives exactly the selection of its single verse token |
| Selection.FragmentsBook | core/ppt_generator.py:65-82 | all selections of a segment carry that segment's book, at most one per fragment |
| Selection.BareFragmentIgnored | core/ppt_generator.py:69-70 | a fragment with no colon, such as the bare `5` in `1:1-3,5`, adds nothing |
| Selection.TokensErrSticks | core/ppt_generator.py:78-81 | a `ValueError` in a verse token escapes, whatever follows it |
| Selection.FragmentsErrSticks | core/ppt_generator.py:71-72 | a `ValueError` in a fragment escapes, whatever follows it |
| Selection.SegmentsErrSticks | core/ppt_generator.py:43-82 | a `ValueError` in a segment escapes, whatever follows it |
| Selection.ExpandRange | core/ppt_generator.py:77-79 | the token `a-b` expands to the inclusive range from `a` to `b`, and a reversed range to the empty list |
| Selection.ExpandSingle | core/ppt_generator.py:80-81 | a token without `-` is the one verse `[int(v)]` |
| Selection.ExpandNegative | core/ppt_generator.py:77-78 | a token `-n` is split at the dash and raises on `int("")` |
| Selection.ExpandRejectsSeparator | core/ppt_generator.py:77-78 | a range whose first end holds one of U+001C to U+001F raises, as `int()` rejects that end |
| Selection.SeparatorRangeRejected | core/ppt_generator.py:77-78 | the token `1<U+001F>-3` raises instead of expanding to `[1, 2, 3]` |
| Selection.RangeFragment | core/ppt_generator.py:71-82 | the fragment `c:a-b` is one selection of chapter `c` with verses `a..b` |
| Selection.SingleRangeReference | core/ppt_generator.py:36-83 | `<name><c>:<a>-<b>`, for a name without `;` and without a `\d+:` match inside it, parses to one selection of the resolved book, chapter `c` and verses `a..b` |
| Selection.NumberedLetterReference | core/ppt_generator.py:50-63 | `요한1서<c>:<a>-<b>` keeps the full name `요한1서`: the search skips the digit inside the name |
| Selection.ParseExample | core/ppt_generator.py:36-83 | `창1:1-3` parses to `[("창세기", 1, [1, 2, 3])]` |
| Lookup.VerseText | core/ppt_generator.py:91-93 | the text at `[개역개정][book][str(chapter)][str(verse)]`, or nothing where that subscript chain raises `KeyError` |
| Lookup.LookupSelection | core/ppt_generator.py:89-94 | the inner loop over one selection's verse numbers returns exactly `SelectionVerses`, skipping numbers whose key path is missing |
| Lookup.GetVerses | core/ppt_generator.py:85-95 | the nested loop returns exactly `Verses(data, selections)`, whatever translation is named |
| Lookup.VersesMember | core/ppt_generator.py:85-95 | a verse is returned if and only if some selection names its book, chapter and number and the fixed translation holds its text there |
| Lookup.SelectionVersesMember | core/ppt_generator.py:89-94 | within one selection, a verse is returned if and only if its number is listed and its text exists |
| Lookup.VersesAppend | core/ppt_generator.py:88 | output order is selection order |
| Lookup.SelectionVersesAppend | core/ppt_generator.py:89 | within a selection, output order is verse order, duplicates kept |
| Lookup.AllPresent | core/ppt_generator.py:89-94 | when every entry exists, each verse number gives exactly one verse, in order |
| Lookup.NoTranslationNoVerses | core/ppt_generator.py:86-93 | a dataset without `개역개정` yields no verses and no error |
| Chunking.Groups | core/ppt_generator.py:224-244 | the groups of words the greedy loop closes: a word joins the current group while the joined text stays within `max_chars`, and the last non-empty group is closed after the loop |
| Chunking.GroupsFlatten | core/ppt_generator.py:224-244 | the slide groups, read in order, are exactly the words of `full_text.split()` |
| Chunking.GroupsNonEmpty | core/ppt_generator.py:234-244 | no slide is emitted without a word |
| Chunking.GroupsFit | core/ppt_generator.py:229-231 | every group of two or more words fits in `max_chars` |
| Chunking.GroupsHead | core/ppt_generator.py:238 | the word that did not fit opens the next slide |
| Chunking.GroupsMaximal | core/ppt_generator.py:229-238 | a slide is closed only when its next word would not fit |
| Chunking.JoinAllWords | core/ppt_generator.py:229 | a space-joined list of words is empty exactly when the list is |
| Chunking.ChunksOfWords | core/ppt_generator.py:222-244 | the slide texts are non-empty; one over the limit is a single word; their words in order are the verse's words |
| Frames.ReplacedText | core/ppt_generator.py:114-125 | the frame `set_text_preserve_style` leaves: one paragraph with the first run retexted when there is a first run, the plain fallback otherwise |
| Frames.PlainFrame | core/ppt_generator.py:123-125 | the fallback `shape.text = ...`: one paragraph per line of the text, all without formatting |
| Frames.SetTextPreserveStyle | core/ppt_generator.py:110-125 | removing runs and paragraphs one by one leaves exactly `ReplacedText(frame, text)` |
| Frames.ReplacedReadBack | core/ppt_generator.py:110-125 | reading the frame back gives exactly the new text, on both paths |
| Frames.ReplacedKeepsStyle | core/ppt_generator.py:114-122 | with a first run, one paragraph with one run is left, keeping the first paragraph's and first run's formatting |
| Frames.FallbackIsPlain | core/ppt_generator.py:123-125 | without a first run, the frame becomes one unformatted paragraph per line |
| Frames.PlainFrameTexts | core/ppt_generator.py:125 | the fallback's paragraph texts are the lines of the new text |
| Frames.LastWriteWins | core/ppt_generator.py:114-115 | on a frame with a first run, setting text twice equals setting the second text once |
| Slides.Title | core/ppt_generator.py:210 | the title text `f"{book} {chapter}장"` |
| Slides.TextFor | core/ppt_generator.py:209-213 | `name_to_text`: the title, verse label or verse text for the three box names, nothing for any other name |
| Slides.Rendered | core/ppt_generator.py:196-220 | the slide `_create_slide` adds: the template's shapes, behind one more background picture when there is an image, with the three boxes filled |
| Slides.VersePlan | core/ppt_generator.py:185-192 | the slides of one verse: one with the whole text when it fits in `max_chars`, otherwise one per greedy group |
| Slides.DeckPlan | core/ppt_generator.py:185-192 | the slides of all verses, verse after verse, duplicates kept |
| Slides.Presentation.AddSlide | core/ppt_generator.py:99 | a new last slide with the layout's placeholders; earlier slides unchanged |
| Slides.Presentation.CloneSlide | core/ppt_generator.py:97-108 | the new last slide has the template's layout and exactly its shapes, in order |
| Slides.Presentation.InsertBehind | core/ppt_generator.py:154-155 | the background shape goes in front of the slide's shape list and nothing else changes |
| Slides.Presentation.FillSlide | core/ppt_generator.py:215-220 | every text box named in `name_to_text` gets its text; every other shape and slide is unchanged |
| Slides.Presentation.CreateSlide | core/ppt_generator.py:196-220 | appends exactly `Rendered(template, texts, hasImage)` |
| Slides.Presentation.AddGroupSlide | core/ppt_generator.py:234-237 | closing a group appends the slide of that group |
| Slides.Presentation.CreateSplitSlides | core/ppt_generator.py:222-244 | appends one rendered slide per greedy group, all with the same title and verse label |
| Slides.Presentation.AddVerse | core/ppt_generator.py:186-192 | one verse adds exactly the rendering of `VersePlan` after the existing slides |
| Slides.Presentation.AddVerses | core/ppt_generator.py:185-192 | the verse loop adds exactly the rendering of `DeckPlan`, verse after verse, after the existing slides |
| Slides.Presentation.CreatePpt | core/ppt_generator.py:142-194 | with no slide it fails; it fails with the missing names exactly when the template lacks a required text box, leaving no slides; otherwise the deck is exactly the rendering of `DeckPlan` |
| Slides.RenderedReadBack | core/ppt_generator.py:209-220 | a verse slide keeps the template's shapes in order; `TitleBox`, `VerseBox` and `ContentBox` read back the title, label and text; other shapes are untouched |
| Slides.VersePlanLabels | core/ppt_generator.py:185-192 | every slide of a verse has title `<book> <chapter>장` and label `str(verse)`; a short verse has exactly one slide holding its whole text |
| Slides.LongVersePlan | core/ppt_generator.py:222-244 | a long verse's slide texts are non-empty, over the limit only as a single word, reproduce `text.split()` in order, and each is closed because the next word overflows |
| Slides.BlankLongVerse | core/ppt_generator.py:224-244 | a whitespace-only verse longer than the limit gets no slide |
| Slides.DeckPlanAppend | core/ppt_generator.py:185-192 | slides appear in verse order |
| Slides.BackgroundNotCounted | core/ppt_generator.py:178-182 | the added background shape never satisfies the name check; only the template's own text boxes do |

## Left out

- Loading the dataset from JSON (`load_bible_data`, core/ppt_generator.py:32-34) is file I/O. The dataset is a parameter.
- Copying the template file, opening it, and `prs.save`, in `create_ppt`, are file I/O.
  - The presentation's slides and layouts are the initial state of `Presentation`.
  - `hasImage` stands for "a background image path is given and the file exists". Both checks are taken to give the same answer.
- `copy_slide_background` is never called by the slide pipeline. It only works on library fill objects.
- Library drawing details are not modelled:
  - slide size;
  - shape geometry;
  - the black fill and missing outline of the background rectangle;
  - the transparency setting.
  
  Only the kind of background shape and its position behind the others are kept.
- The library names its background shapes `Picture N` and `Rectangle N`. The model names them `Picture` and `Rectangle`. In both cases neither is one of the required names.
- Slides.Presentation.CloneSlide: copies shapes as values, so it does not model relationship ids. The library's deep copy keeps each picture's `r:embed` id from the template slide's part, and the new slide's part has no such relationship. A copied picture may therefore lose its image, or show the picture `_create_slide` adds under the next free id.
- Slides.Presentation.CloneSlide: does not copy the template slide's own background (`p:bg`); `clone_slide` copies shapes only. The solid fill and transparency set on the template background (core/ppt_generator.py:149-150) therefore never reach a generated slide. `Slide` has no background, which matches this.
- Slide deletion drops a slide relationship in the package. Here it removes the first slide from the list.
- Shapes, paragraphs and runs are values. Element identity and the XML tree are not modelled.
  - `FillSlide` updates a copy of the slide's shape list and stores it once at the end.
  - Only runs are modelled inside a paragraph. Line breaks and fields are not, nor the library's vertical-tab handling when text is assigned.
  - The fallback assignment is modelled as one paragraph per line, with one run per non-empty line.
- `\d` and `int()` are modelled over ASCII digits only. Python also accepts other Unicode decimal digits.
- PyText.ParseInt: does not model the interpreter's limit on the length of integer strings (4300 digits by default, adjustable at run time), beyond which `int()` raises `ValueError`; the model returns the number.
- Selection.Range: does not model the `OverflowError` or `MemoryError` that `list(range(start, end+1))` raises for a range too long for a Python list (more than `sys.maxsize` elements, or more than memory holds); the model returns the whole range.
- Error messages are not modelled.
  - Every `ValueError` of the parser carries the stripped fragment it came from. This applies to a bad unpacking and to a bad `int()` alike.
  - The missing-names exception carries the set of missing names.
- `parse_selection` is one function. Here its three nested loops are three methods, one per loop.
- `print` calls and the whole GUI (`ui/gui.py`) are outside this model.
