# Story packaging model

A Dafny model of the download side of a multi-language story pipeline
(`src/utils/file_handler.py`). Once a story has been written and translated,
the application builds these documents from it:

- a **comparison table**: the Chinese story and a target story are split into
  lines and aligned row by row, with the shorter side padded with empty cells;
- a **language package**: the table under a heading, a separator, then the
  target story verbatim under a second heading;
- a **story summary**: the source story followed by one section per language
  of the fixed language list (`chinese`, `english`, `french`, `german`,
  `spanish`, `portuguese`), where a language is included only when its story is
  non-empty;
- a **metadata summary**: the source metadata and the translated metadata
  under fixed headings;
- a **zip bundle**: one `{code}_story_package.md` member per language with a
  non-empty story, each holding that language's package against the Chinese
  story.

Modules:

- `Wrappers` (`wrappers.dfy`): `Option` and `Result`.
- `Text` (`text.dfy`): Python's `str.strip()` (whitespace is the
  `str.isspace` set), `str.split('\n')` and its inverse `'\n'.join`.
- `Comparison` (`comparison.dfy`): the aligned rows of the comparison table.
  The pandas markdown rendering is a parameter `render`.
- `Languages` (`languages.dfy`): the language list, the translations map, the
  `KeyError` a missing language raises, the selection of languages with a
  story, and ASCII `capitalize`.
- `Packaging` (`packaging.dfy`): the package, both summaries, and the zip
  bundle as an ordered list of members.

The comparison table, the story summary and the zip bundle are each built by
a method proved equal to a specification function:
`Comparison.CreateComparisonTable` builds the rows step by step, and
`Packaging.CreateSummaryStoryFile` and `Packaging.CreateFullZipPackage` loop
over the language list. The package and the metadata summary are functions,
as their source has no loop or state. The lemmas state the properties of the
specification functions.

The translations argument is modelled as a map from language code to story
text. A language code missing from the map makes the source raise `KeyError`.
The model returns `Err(KeyError(code))` for the first missing code in list
order.

Behaviour of the code worth noting:

- Two blank documents give a table of one row with two empty cells, because
  stripping and splitting an empty string yields one empty line.
- The zip packages compare each language against the Chinese translation
  (`translations['chinese']`). The per-language download buttons in `app.py`
  (lines 278 and 294) compare against the confirmed source story instead,
  when there is one.
- The metadata summary always prints both headings and the separator, even
  when a block is empty.
- The story summary and the zip bundle skip languages with an empty story.
  Both raise `KeyError` at the first language of the list that has no entry in
  the translations.

## Model

| member | source | states |
|---|---|---|
| Text.Strip | src/utils/file_handler.py:8-9 | the stripped text is empty or starts and ends with a non-whitespace character |
| Text.StripParts | src/utils/file_handler.py:8-9 | strip removes only whitespace, and only at the two ends: the kept text is one contiguous slice |
| Text.StripEmptyIff | src/utils/file_handler.py:8-9 | stripping gives the empty string exactly when the text is all whitespace |
| Text.StripIdempotent | src/utils/file_handler.py:8-9 | stripping twice is stripping once |
| Text.Split | src/utils/file_handler.py:8-9 | splitting on newlines gives at least one piece, and no piece contains a newline |
| Text.JoinSplit | src/utils/file_handler.py:8-9 | joining the split pieces with newlines gives the text back |
| Text.SplitJoin | src/utils/file_handler.py:8-9 | splitting newline-free pieces joined with newlines gives the pieces back |
| Text.SplitSingleEmpty | src/utils/file_handler.py:8-9 | the split is a single empty line exactly when the text is empty |
| Text.Lines | src/utils/file_handler.py:8-9 | a document always has at least one line |
| Text.LinesOfBlank | src/utils/file_handler.py:8-9 | a document's lines are one empty line exactly when it is all whitespace |
| Text.LinesJoin | src/utils/file_handler.py:8-9 | joining a document's lines gives the stripped document |
| Comparison.Max | src/utils/file_handler.py:11 | the maximum is at least each argument and equals one of them |
| Comparison.Pad | src/utils/file_handler.py:14-15 | padding reaches the requested length, keeps the lines as a prefix and adds only empty cells |
| Comparison.Rows | src/utils/file_handler.py:17-21 | the table has one row per line of the longer document |
| Comparison.ComparisonTable | src/utils/file_handler.py:6-23 | the table is the rendering of the rows of the two documents after stripping, so surrounding whitespace never reaches it |
| Comparison.CreateComparisonTable | src/utils/file_handler.py:6-23 | the row count is the larger line count, row i is numbered i+1 and holds line i of each document or an empty cell, and the table is the rendering of these rows |
| Comparison.RowCountPositive | src/utils/file_handler.py:11 | there is at least one row, and at least as many rows as either document has lines |
| Comparison.RowNumbering | src/utils/file_handler.py:18 | rows are numbered 1..n, strictly increasing |
| Comparison.ColumnsArePadded | src/utils/file_handler.py:14-15 | each column is its document's lines padded with empty cells to the row count |
| Comparison.PaddingCellsEmpty | src/utils/file_handler.py:14-15 | a cell beyond its document's last line is empty; a cell within it holds that line |
| Comparison.ColumnsRecoverDocuments | src/utils/file_handler.py:8-21 | the first lines of each column, joined with newlines, give the stripped document back |
| Comparison.SelfAligned | app.py:282-285 | a document compared with itself gives one row per line, both cells equal to that line |
| Comparison.BlankDocuments | src/utils/file_handler.py:8-15 | two blank documents give exactly one row, numbered 1, with two empty cells |
| Comparison.SurroundingWhitespaceIgnored | src/utils/file_handler.py:8-9 | whitespace around either document does not change the rows |
| Comparison.ThreeAgainstTwo | src/utils/file_handler.py:6-21 | a three-line script against a two-line translation gives three rows, and the third target cell is empty |
| Comparison.LinesOfPlainText | src/utils/file_handler.py:8-9 | a document with no whitespace at either end has as lines exactly the newline-free pieces it was joined from |
| Languages.FirstMissing | src/utils/file_handler.py:49-50 | no code is missing exactly when every listed code has an entry; a reported code has no entry, and every code listed before it has one |
| Languages.FirstMissingAt | src/utils/file_handler.py:49-50 | the loop's first missing code is the key reported |
| Languages.Present | src/utils/file_handler.py:49-50 | the selected languages all have non-empty stories and are at most as many as listed |
| Languages.PresentSnoc | src/utils/file_handler.py:49-50 | one more loop step appends the language exactly when its story is non-empty |
| Languages.PresentMembers | src/utils/file_handler.py:49-50 | a language is selected exactly when it is listed and its story is non-empty |
| Languages.PresentOrder | src/utils/file_handler.py:49 | two selected languages keep their list order |
| Languages.PresentDistinct | src/utils/file_handler.py:48-50 | selecting from languages with distinct codes gives distinct codes |
| Languages.PresentNone | src/utils/file_handler.py:50 | when every story is empty, nothing is selected |
| Languages.LangMapDistinct | src/utils/file_handler.py:48 | the six language codes are pairwise different |
| Languages.Capitalize | src/utils/file_handler.py:51 | capitalizing keeps the length |
| Languages.CapitalizeLetters | src/utils/file_handler.py:51 | capitalizing keeps every letter and changes only its case: the first character is not lower case and no later one is upper case |
| Languages.CapitalizeIdempotent | src/utils/file_handler.py:51 | capitalizing twice is capitalizing once |
| Packaging.PackageContent | src/utils/file_handler.py:25-40 | the target story is read back verbatim from the end of the package |
| Packaging.PackageRoundTrip | src/utils/file_handler.py:25-40 | the package is exactly its heading, the rendered table, the separator and script heading, the untrimmed target story and a final newline; each part is read back, so equal packages with equal-length targets have equal targets |
| Packaging.PackageLayout | src/utils/file_handler.py:32-38 | for any table and target, the exact length and each part of the layout: heading, table, separator `\n\n---\n\n`, script heading, target, final newline |
| Packaging.SectionText | src/utils/file_handler.py:51-52 | a section's text has the length of its parts, and its heading and its body are read back from it |
| Packaging.Concat | src/utils/file_handler.py:44-52 | the sections' text starts with the first section and ends with the last |
| Packaging.LangSection | src/utils/file_handler.py:51-52 | a language's section holds its story as body, under a heading as long as the name, the code and the three characters ` ()` |
| Packaging.HeadingParts | src/utils/file_handler.py:51 | a language heading is the display name, ` (`, the capitalized code and `)`, whatever the story |
| Packaging.LangMapHeading | src/utils/file_handler.py:48-51 | the k-th language of `lang_map` is printed under the k-th of the six headings `中文 (Chinese)` … `葡萄牙语 (Portuguese)` |
| Packaging.LangMapHeadingsDistinct | src/utils/file_handler.py:48-51 | no two languages of `lang_map` share a heading |
| Packaging.SourceSection | src/utils/file_handler.py:45-46 | the source section's heading is the fixed source heading |
| Packaging.StorySections | src/utils/file_handler.py:44-52 | the source section comes first, then one section per selected language |
| Packaging.StorySummary | src/utils/file_handler.py:42-54 | the summary exists exactly when every listed language has an entry; otherwise the error names a missing code |
| Packaging.SummaryStep | src/utils/file_handler.py:49-52 | one loop step appends the language's section exactly when its story is non-empty |
| Packaging.CreateSummaryStoryFile | src/utils/file_handler.py:42-54 | the document built by the loop, or the `KeyError` it stops with, equals the summary function |
| Packaging.SummaryStart | src/utils/file_handler.py:44-46 | before the loop the document is the title and the source section |
| Packaging.SourceOnlyText | src/utils/file_handler.py:44-46 | the title followed by the source section alone is the three lines written before the loop |
| Packaging.SingleSectionText | src/utils/file_handler.py:44-46 | a title and a single section is the title, the heading line, the body and the separator |
| Packaging.SummaryEnd | src/utils/file_handler.py:54 | after the whole loop the document is the summary |
| Packaging.AppendSection | src/utils/file_handler.py:51-52 | the two appends of one iteration add one whole section |
| Packaging.SummaryHasSectionIffStory | src/utils/file_handler.py:49-52 | after the source section, a section under a language's heading exists exactly when its story is non-empty, and then the language's section with its story is in the summary |
| Packaging.ConsHeadings | src/utils/file_handler.py:44-46 | with the source section in front, a heading occurs after the first place exactly when it occurs among the language sections |
| Packaging.LangSectionsIff | src/utils/file_handler.py:49-52 | the same, for any language list whose headings are pairwise different |
| Packaging.SectionOfStory | src/utils/file_handler.py:49-52 | a listed language with a non-empty story has its section among the selected ones |
| Packaging.StoryOfSection | src/utils/file_handler.py:49-52 | a selected section under a listed language's heading means that language's story is non-empty, when headings are pairwise different |
| Packaging.SummaryOrder | src/utils/file_handler.py:49-52 | sections of two languages appear after the source section, in list order |
| Packaging.SectionsOrder | src/utils/file_handler.py:49-52 | the same, for any language list |
| Packaging.SummaryOfSourceOnly | src/utils/file_handler.py:42-54 | with every story empty the summary is the title and the source section alone |
| Packaging.MetadataSummary | src/utils/file_handler.py:56-67 | the summary's length is that of its parts, and it starts with the title and the source heading |
| Packaging.MetadataRoundTrip | src/utils/file_handler.py:56-67 | both metadata blocks are read back verbatim, and the separator and translations heading sit between them even when they are empty |
| Packaging.ZipArchive.constructor | src/utils/file_handler.py:71-72 | a new archive has no members |
| Packaging.ZipArchive.WriteStr | src/utils/file_handler.py:81 | writing appends exactly one member and keeps the others |
| Packaging.Entries | src/utils/file_handler.py:75-81 | one member per selected language, the k-th named after the k-th selected code |
| Packaging.PackageEntry | src/utils/file_handler.py:77-81 | a member is named after its language code |
| Packaging.ZipEntries | src/utils/file_handler.py:69-84 | the bundle exists exactly when every listed language has an entry; the Chinese story is then present; otherwise the error names a missing code |
| Packaging.ZipStep | src/utils/file_handler.py:75-81 | one loop step writes the language's member exactly when its story is non-empty |
| Packaging.CreateFullZipPackage | src/utils/file_handler.py:69-84 | the members written by the loop, or the `KeyError` it stops with, equal the bundle function |
| Packaging.ZipHasEntryIffStory | src/utils/file_handler.py:75-81 | a member named after a language exists exactly when its story is non-empty, and then holds its package |
| Packaging.EntriesIff | src/utils/file_handler.py:75-81 | the same, for any language list |
| Packaging.EntryOfStory | src/utils/file_handler.py:75-81 | a listed language with a story has its member |
| Packaging.StoryOfEntry | src/utils/file_handler.py:75-81 | a member named after a language implies the language's story is non-empty |
| Packaging.ZipMembersWellFormed | src/utils/file_handler.py:74-81 | every member is the package of a listed language with a story, and no two members share a name |
| Packaging.EntriesWellFormed | src/utils/file_handler.py:75-81 | the same, for any language list with distinct codes |
| Packaging.NameSuffixInjective | src/utils/file_handler.py:81 | different codes give different member names |
| Packaging.ZipOfNoStories | src/utils/file_handler.py:75-76 | with every story empty the bundle has no members and is not an error |
| Packaging.ZipOrder | src/utils/file_handler.py:75 | members of two languages appear in list order |
| Packaging.EntriesOrder | src/utils/file_handler.py:75-81 | the same, for any language list |

## Left out

- UTF-8 encoding of the documents: the model stops at strings.
- The zip file format, including DEFLATE compression and the byte buffer: the bundle is its ordered list of member names and contents.
- `DataFrame.to_markdown`: the table is a parameter `render` applied to the rows, and its text layout is not modelled.
- Languages.Capitalize: only ASCII letters change case; Python's Unicode case mapping is not modelled because every language code is ASCII.
- The inner `{'story': ...}` record of each translation is abstracted to its story text. A missing `'story'` key, which also raises `KeyError`, is not modelled.
- Python truthiness of non-string stories (e.g. `None`): stories are strings and empty means `""`.
- The Streamlit pages in `app.py`, the agents and tasks that produce the stories: not part of this model.
