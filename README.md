# PDF bookmark splitter — a verified model

`pdf_bookmark_splitter.py` splits a PDF along its outline (its bookmarks).
It takes the table of contents as a list of `(level, title, page)` entries
and proceeds as follows:

- It keeps the level-1 entries as top-level bookmarks and the level-2
  entries as sub-level bookmarks.
- It writes one `_<clean title>.pdf` per top-level bookmark that is not
  skipped. A bookmark is skipped when its start page lies after the page
  before the next top-level bookmark; the last one is skipped when its page
  is past the document's last page. Each file requests the page ids from
  that bookmark's page up to the page before the next top-level bookmark;
  the last one runs to the end of the document. The ids are clamped to the
  document. (Which pages those ids actually copy is the subject of
  "## Findings".)
- It writes one `_<page>_<clean title>.pdf` per sub-level bookmark that is
  not skipped, computing its range the same way over the sub-level list.
- It creates a directory `_<clean title>` for each top-level file when no
  directory or file of that name exists yet.
- It moves each sub-level file into the directory of the first top-level
  range that contains its page, when there is such a range and its
  directory exists. Otherwise the file stays in the working directory: for
  instance a page before the first top-level bookmark, or a page inside a
  skipped top-level section, whose directory was never made.
- Finally it moves each top-level file into its own directory, when that
  directory exists; otherwise the file stays where it is.

Titles are sanitised before they become file names. Every character in
`< > : " / \ | ? *` becomes `_`. Dots and spaces are then stripped from
both ends.

The model is split into these files:

- `sanitize.dfy`: `clean_filename`, modelled as pure functions.
- `outline.dfy`: the outline entry and `get_bookmark_hierarchy`. The
  hierarchy is a loop, proved against a filter function.
- `ranges.dfy`: the page-range arithmetic of the two split functions. It
  covers the skip test, the clamping to `[1, page_count]`, the page ids
  requested and the file names. The two split functions are methods whose
  loops are proved against specification functions.
- `organizer.dfy`: the three directory operations. They are methods of a
  `Workspace` class that holds the working directory's directories and
  files. Each method is proved against a function on an abstract
  file-system state.
- `scenarios.dfy`: worked examples on small outlines.

A sub-level range ends just before the next sub-level bookmark. It does not
end at the end of its top-level section. So for the outline
`[(1,Intro,1), (1,Body,5), (2,A,1), (2,B,6)]` on 10 pages, `_1_A.pdf`
requests page ids 1–5 (`Scenarios.TwoSectionsSubPages`). A sub-level file can
therefore overlap the next top-level section. This model follows the code
on this point.

## Model

| member | source | states |
|---|---|---|
| Sanitize.ReplaceInvalid | pdf_bookmark_splitter.py:13 | keeps the length; at every position an invalid character becomes `_` and every other character is kept |
| Sanitize.LeadingTrimSpec | pdf_bookmark_splitter.py:15 | the prefix `strip` removes from the front is all dots and spaces, and the next character (if any) is neither |
| Sanitize.LeadingTrimIs | pdf_bookmark_splitter.py:15 | conversely, any index with only dots and spaces before it and something else at it is where the front cut ends |
| Sanitize.TrailingKeepSpec | pdf_bookmark_splitter.py:15 | the suffix `strip` removes from the end is all dots and spaces, and the character before it (if any) is neither |
| Sanitize.TrailingKeepIs | pdf_bookmark_splitter.py:15 | conversely, any index with only dots and spaces after it and something else just before it is where the end cut starts |
| Sanitize.StripDecomposes | pdf_bookmark_splitter.py:15 | `strip('. ')` returns a slice of its input; everything before and after that slice is a dot or a space, and the slice has neither at either end |
| Sanitize.StripUnique | pdf_bookmark_splitter.py:15 | any split of a string into an all-trim prefix, a middle with no dot or space at either end, and an all-trim suffix has `strip` equal to that middle |
| Sanitize.CleanFilenameValid | pdf_bookmark_splitter.py:10-16 | a cleaned name contains no invalid character, has no dot or space at either end, and is no longer than the title |
| Sanitize.CleanFilenameFixesClean | pdf_bookmark_splitter.py:10-16 | a title that is already clean is returned unchanged |
| Sanitize.CleanFilenameIdempotent | pdf_bookmark_splitter.py:10-16 | cleaning twice is the same as cleaning once |
| Outline.GetBookmarkHierarchy | pdf_bookmark_splitter.py:18-30 | the two lists are the outline's level-1 entries and its level-2 entries, each in outline order |
| Outline.AtLevelAppend | pdf_bookmark_splitter.py:23-28 | classifying distributes over concatenation of outlines (order is preserved) |
| Outline.AtLevelCounts | pdf_bookmark_splitter.py:23-28 | each entry of the level is kept as many times as it occurs, and no entry of another level is kept |
| Outline.AtLevelMembers | pdf_bookmark_splitter.py:23-28 | an entry is in a level's list if and only if it is in the outline at that level |
| Outline.HierarchyDropsOnlyDeeperLevels | pdf_bookmark_splitter.py:23-28 | the two lists together are never longer than the outline, and are exactly as long if and only if every level is 1 or 2 |
| Ranges.Clamp | pdf_bookmark_splitter.py:51-52 | `max(1, min(x, page_count))` is at least 1, at most `page_count` when that is positive, and leaves an in-range page unchanged |
| Ranges.ClampMonotone | pdf_bookmark_splitter.py:51-52 | clamping preserves `start <= end` |
| Ranges.KeptBelowIncreasing | pdf_bookmark_splitter.py:36-48 | the indices of the bookmarks that produce a file are strictly increasing, so files come out in bookmark order |
| Ranges.KeptBelowMembers | pdf_bookmark_splitter.py:40-48 | a bookmark produces a file if and only if its raw range is not skipped (start not after end) |
| Ranges.SurvivorRequestsPages | pdf_bookmark_splitter.py:50-62 | for a bookmark that is not skipped, the clamped range is non-empty and within the document, and the ids requested are exactly the pages of that range, ascending; so the `page_count > 0` test passes |
| Ranges.RequestPages | pdf_bookmark_splitter.py:58-59 | `range(start, end + 1)` yields the consecutive ids from `start` to `end`, and none when `start > end` |
| Ranges.RequestsAreInterval | pdf_bookmark_splitter.py:58-59 | the ids produced by the page loop are the interval `start..end` |
| Ranges.RecordsOfAppend | pdf_bookmark_splitter.py:61-67 | keeping one more bookmark appends exactly its record and its page request to the outputs |
| Ranges.SplitTopLevel | pdf_bookmark_splitter.py:32-74 | returns one record `TopRecord` = `(_<clean title>.pdf, clean title)` per bookmark that is not skipped (`Kept`), in bookmark order, with the clamped page ids requested for it |
| Ranges.SplitSubLevel | pdf_bookmark_splitter.py:76-118 | as for the top level, with records `SubRecord` = `(_<page>_<clean title>.pdf, clean title, page)` that use the raw, unclamped page |
| Ranges.KeptAll | pdf_bookmark_splitter.py:36-48 | when no bookmark is skipped, every bookmark produces a file, in order |
| Ranges.IntervalSplit | pdf_bookmark_splitter.py:58 | adjacent page intervals concatenate to one interval |
| Ranges.RangesFromTile | pdf_bookmark_splitter.py:36-59 | in a well-formed outline, the ranges of the bookmarks from `i` onwards cover exactly the pages from bookmark `i` to the end |
| Ranges.IncreasingNoneSkipped | pdf_bookmark_splitter.py:40-48 | when the start pages strictly increase and the last is within the document, no bookmark is skipped |
| Ranges.TopLevelRangesTile | pdf_bookmark_splitter.py:36-59 | when the start pages strictly increase from page 1, nothing is skipped and the requested ranges partition pages 1..`page_count` with no gap and no overlap |
| Ranges.AsWrittenIndicesMissFirstPage | pdf_bookmark_splitter.py:58-59 | with the indices passed as written, one bookmark on page 1 of a 3-page document never asks for index 0 and does ask for index 3, past the last page |
| Ranges.PageIndicesInRange | pdf_bookmark_splitter.py:50-59 | with corrected indices, every index a surviving bookmark requests lies in `0..page_count-1` |
| Ranges.TopLevelCopiesEveryPageOnce | pdf_bookmark_splitter.py:36-59 | with corrected indices, a well-formed top-level outline copies indices `0..page_count-1` exactly once each, in order |
| Ranges.NatDigitsRoundTrip | pdf_bookmark_splitter.py:109 | the decimal digits of a page number are non-empty, are all digits, and parse back to that number |
| Ranges.DecimalStringRoundTrip | pdf_bookmark_splitter.py:109 | `str(page)` is non-empty, contains no `_`, and parses back to the page, negative pages included |
| Ranges.UnderscoreAfter | pdf_bookmark_splitter.py:109 | in `_<page>_<title>`, the first `_` after the leading one ends the page number, whatever the title contains |
| Ranges.SubFileNameRoundTrip | pdf_bookmark_splitter.py:109 | `_<page>_<title>.pdf` parses back to its page and clean title |
| Ranges.SubFileNameInjective | pdf_bookmark_splitter.py:109 | two sub-level file names are equal only when their pages and clean titles are equal |
| Organizer.RangeRowMatchesSplit | pdf_bookmark_splitter.py:138-144 | a row of the containment table holds a page if and only if the page is in the raw range the top-level split uses, except that the last row is unbounded (`float('inf')`) |
| Organizer.BuildRangeTable | pdf_bookmark_splitter.py:136-144 | returns exactly the containment table `RangeTable`: one row per top-level bookmark, skipped ones included, with its start page, an end just before the next bookmark (unbounded for the last) and its raw title |
| Organizer.FirstFrom | pdf_bookmark_splitter.py:150-153 | the index found is the first row, from the given one on, that holds the page; no index means no such row |
| Organizer.FindTarget | pdf_bookmark_splitter.py:147-153 | the loop with `break` returns `_<clean title>` of the first row holding the page, or `None` |
| Organizer.SortedPlacement | pdf_bookmark_splitter.py:136-153 | for strictly increasing top-level pages, a page between bookmark `k`'s page and the next one goes to bookmark `k`'s directory |
| Organizer.BeforeFirstSection | pdf_bookmark_splitter.py:147-153 | a page before the first top-level bookmark has no target directory |
| Organizer.MissingDirsExactly | pdf_bookmark_splitter.py:120-131 | the directories created are exactly the `_<title>` names that did not exist, each listed once |
| Organizer.CreateMakesAllExist | pdf_bookmark_splitter.py:124-128 | after creation every `_<title>` exists; files are unchanged and no directory is lost |
| Organizer.NothingMissing | pdf_bookmark_splitter.py:126 | when every `_<title>` already exists, nothing is created |
| Organizer.CreateDirsIdempotent | pdf_bookmark_splitter.py:120-131 | running directory creation a second time creates nothing and changes nothing |
| Organizer.ApplyMovesAppend | pdf_bookmark_splitter.py:155-165 | a sequence of moves composes: running `a + b` is running `a` then `b` |
| Organizer.ApplyMovesKeepsDirs | pdf_bookmark_splitter.py:155-165 | moves never create or remove directories |
| Organizer.ApplyMovesWellFormed | pdf_bookmark_splitter.py:155-165 | moves keep every file inside an existing directory |
| Organizer.ApplyMovesUntouched | pdf_bookmark_splitter.py:155-165 | a file whose name no move mentions is where it was |
| Organizer.ApplyMovesAddsNoRootFile | pdf_bookmark_splitter.py:155-165 | moves never add a file to the working directory |
| Organizer.ApplyMovesKeepsPlaced | pdf_bookmark_splitter.py:155-165 | a file already in a directory stays there |
| Organizer.ApplyMovesPlaces | pdf_bookmark_splitter.py:155-163 | a file whose target exists as a directory, and which no earlier move names, ends up in that directory and no longer in the working directory |
| Organizer.ApplyMovesLeavesUnplaceable | pdf_bookmark_splitter.py:155-165 | a file every one of whose moves has no existing target stays where it was |
| Organizer.TopFileReachesItsDirectory | pdf_bookmark_splitter.py:167-181 | after creating the directories and moving the top-level files, each top-level file is in its `_<title>` directory and no longer in the working directory |
| Organizer.Workspace.MoveInto | pdf_bookmark_splitter.py:159-163 | the move succeeds if and only if the target is a directory and the file is in the working directory; otherwise the handler leaves everything unchanged |
| Organizer.Workspace.MoveIfTargetExists | pdf_bookmark_splitter.py:155-165 | one move step: a move is attempted only when there is a target and it exists |
| Organizer.Workspace.CreateTopLevelDirectories | pdf_bookmark_splitter.py:120-131 | returns exactly the missing `_<title>` names and adds them as directories; files are unchanged |
| Organizer.Workspace.OrganizeSubLevelFiles | pdf_bookmark_splitter.py:133-165 | the new state is the plan of sub-level moves to the first containing range's directory, applied in order |
| Organizer.Workspace.MoveTopLevelFilesToDirectories | pdf_bookmark_splitter.py:167-181 | the new state is the plan of top-level moves to each file's own directory, applied in order |
| Scenarios.PlainTitle | pdf_bookmark_splitter.py:10-16 | a title made only of letters is its own clean name |
| Scenarios.TwoSectionsClassified | pdf_bookmark_splitter.py:18-30 | the two-section outline splits into top-level Intro, Body and sub-level A, B |
| Scenarios.TwoSectionsTopKept | pdf_bookmark_splitter.py:36-48 | on 10 pages both top-level bookmarks produce a file |
| Scenarios.TwoSectionsIntroName | pdf_bookmark_splitter.py:64-67 | the first of those files is `_Intro.pdf` |
| Scenarios.TwoSectionsBodyName | pdf_bookmark_splitter.py:64-67 | the second is `_Body.pdf` |
| Scenarios.TwoSectionsTopPages | pdf_bookmark_splitter.py:36-59 | Intro requests pages 1–4 and Body pages 5–10 |
| Scenarios.TwoSectionsSubPages | pdf_bookmark_splitter.py:80-102 | both sub-level bookmarks produce a file; A requests pages 1–5 and B pages 6–10 |
| Scenarios.TwoSectionsSubNames | pdf_bookmark_splitter.py:108-111 | their files are `_1_A.pdf` and `_6_B.pdf` |
| Scenarios.TwoSectionsIntroPlacement | pdf_bookmark_splitter.py:147-153 | page 1 goes to `_Intro` |
| Scenarios.TwoSectionsBodyPlacement | pdf_bookmark_splitter.py:147-153 | page 6 goes to `_Body` |
| Scenarios.ScenarioDecreasingPages | pdf_bookmark_splitter.py:36-59 | a bookmark whose next sibling starts earlier is skipped; the next one still gets its pages |

## Findings

| source | as written | input that shows it | evidently intended | confidence | as-written member | corrected member |
|---|---|---|---|---|---|---|
| pdf_bookmark_splitter.py:59 | `insert_pdf(doc, from_page=page_id, to_page=page_id)` passes the 1-based outline page id as PyMuPDF's 0-based page index (line 103 does the same) | one top-level bookmark on page 1 of a 3-page document: the indices asked for are 1, 2, 3, so index 0 (the first page) is never copied and index 3 is past the last page | `from_page=page_id - 1`, so that each section copies its own pages and a well-formed outline copies every page exactly once | medium: follows from `from_page` counting from 0; not executed | Ranges.AsWrittenIndicesMissFirstPage | Ranges.TopLevelCopiesEveryPageOnce |

The split methods return the 1-based page ids that the loop visits. The
model reads page `id` at index `PageIndices` gives, which is `id - 1`.

## Left out

- PyMuPDF is not modelled: opening the document, `get_toc`, `insert_pdf`,
  `save`, `close`. The document is reduced to its page count. The split
  methods return the page ids they would request; they make no claim about
  page content.
- Saving a split file is not modelled as a write to the working directory.
  The organiser operations start from a given file-system state.
- The file system is flat: a set of directories of the working directory
  and a set of files, each either in the working directory or in one of
  those directories. Nested paths, permissions and `chdir` are not
  modelled.
- `os.path.exists` is modelled as membership in the directory set or among
  the working directory's files (`Workspace.PathExists`, `Exists`).
- Names compare exactly, as on a case-sensitive file system. On a
  case-insensitive one (Windows, macOS by default) `_INTRO` exists once
  `_Intro` does, so the source creates and returns one directory for the
  titles "Intro" and "INTRO" where `MissingDirs` returns two.
- `FindUnderscore` and `ParseSubFileName` have no counterpart in the
  source: they read a sub-level file name back only so that
  `SubFileNameRoundTrip` and `SubFileNameInjective` can state that the
  name determines its page and title.
- Exceptions from `shutil.move` are modelled as "nothing changes". The
  model's move fails exactly when the target is not a directory or the file
  is not in the working directory; other causes (permissions, a full disk)
  are not modelled. `os.makedirs` is assumed not to fail.
- `float('inf')` as the last row's end is modelled as `None`, an unbounded
  end.
- `process_pdf` is not modelled: its `chdir` into the PDF's directory,
  its message boxes, its early exit on a missing file or an empty
  outline, and its fixed stage order (described in a comment in
  `organizer.dfy`). The file dialog, the command-line parser and all
  `print` logging are left out as well.
- Two top-level bookmarks with the same clean title (or two sub-level ones
  with the same page and clean title) write the same file name; the later
  save wins. Saves are not modelled, so this collision is not modelled
  either.
- Organizer.ApplyMovesPlaces: only proved for a file that no earlier move
  in the plan names, because an earlier move of the same name may already
  have moved or replaced it.
- Ranges.SplitTopLevel and Ranges.SplitSubLevel: the `page_count > 0`
  test is modelled as "at least one page id was requested". The warning
  branch it guards cannot be reached for a bookmark that is not skipped
  (`Ranges.SurvivorRequestsPages`).
- Integers are unbounded, like Python's.
