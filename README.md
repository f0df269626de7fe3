# Unity version extraction from an APK, modelled in Dafny

This project models the core of `UnityVersionExtractor`, the part of the APK
version finder that decides which Unity engine version built an Android
package. Three parts are modelled:

- **The validator.** `_is_valid_unity_version` accepts a string that looks
  like a Unity version. It checks the length, an allow-list of leading
  majors, a dot, and a full match of `YYYY.MINOR.PATCH[letter][build]` or
  `D.MINOR.PATCH[letter][build]`.
- **The byte search.** `_find_version_in_data` looks through the bytes of
  one archive entry in three tiers:
  - the windows around the first ten offsets of `Unity`;
  - the first 500000 bytes;
  - printable runs that start with `20`, `5.`, `4.` or `3.`.
  The three regular expressions are written as deterministic scanners. The
  leftmost, non-overlapping `findall` is written out over them.
- **The staged extraction.** `extract_version` proceeds in stages:
  - reject a file that is not a ZIP;
  - open the archive;
  - gate on a Unity indicator entry;
  - read the priority targets in their fixed order, with a warning for each
    unreadable one;
  - fall back to the first twenty entries of `assets/bin/Data/`;
  - assemble the result record.

The validator has no loop and is a single predicate. The byte search and
the staged extraction are each written twice. A function states what the
result is. A method mirrors the source's loops and is proved to compute that
function. Lemmas then prove what the source promises about the functions.

Module layout:

| file | module | contents |
|---|---|---|
| `wrappers.dfy` | `Wrappers` | `Option` |
| `bytes.dfy` | `Bytes` | bytes, byte classes, `find` and the repeated-`find` offset list, ASCII decoding |
| `validation.dfy` | `Validation` | the validator and its properties |
| `patterns.dfy` | `Patterns` | the three version patterns and `findall` |
| `search.dfy` | `Search` | the three search tiers as functions, the search as methods, and soundness of each tier |
| `search_complete.dfy` | `SearchCompleteness` | completeness of each search tier: a tier finds nothing exactly when no candidate it inspects is valid |
| `pattern_spec.dfy` | `PatternSpec` | the three version patterns stated as shapes, and `findall` as leftmost non-overlapping matching |
| `search_examples.dfy` | `SearchExamples` | a worked instance of the anchored tier |
| `extractor.dfy` | `Extractor` | archive, result record, the extraction as functions and methods, and closed forms of the two scans |
| `extraction_facts.dfy` | `ExtractionFacts` | the guarantees of the whole extraction |

The archive is an input value, not a file:

- `NotAZip`: the container check fails;
- `OpenFailed(failure)`: opening raises `BadZipFile`, `PermissionError` or
  another exception;
- `Opened(names, entries)`: the entry names in archive order, and for each
  name the bytes that reading it yields or the text of the exception it
  raises.

`ExtractVersion` also returns a ghost log of the entries it read, in order.
The facts about read order are stated over that log.

## Model

| member | source | states |
|---|---|---|
| Validation.DotCheckRedundant | pauvf.py:236-246 | A string is accepted exactly when its length is 5 to 20, it starts with an allowed major, and it fully matches the shape; the separate `'.' in version` check never rejects anything the other checks accept |
| Validation.StartsWithAnySpec | pauvf.py:240-242 | The start check holds exactly when some entry of the allow-list is a prefix of the string |
| Validation.ValidMajor | pauvf.py:240-246 | An accepted string starts with one of the twelve allowed majors, and its major is either four digits or one digit, followed by a dot |
| Validation.ValidChars | pauvf.py:245-246 | Every character of an accepted string is a digit, a letter or a dot, except a single final newline that `$` lets through |
| Validation.AcceptsYearVersion | pauvf.py:236-246 | `2021.3.1f1` is accepted |
| Validation.AcceptsLegacyVersion | pauvf.py:236-246 | `5.6.4` is accepted |
| Validation.RejectsExamples | pauvf.py:238-242 | `20`, `20xx` and `10.2.3` are rejected. The first two are under 5 characters long; `10.2.3` has an allowed length but fails the allow-list check on its leading major |
| Validation.TrailingNewlineAccepted | pauvf.py:245-246 | `5.6.4` followed by a newline is accepted, because `$` also matches before a final newline |
| Bytes.FindSpec | pauvf.py:189 | `find` returns the first offset at or after the start where the needle occurs, and -1 exactly when it occurs nowhere from there |
| Bytes.OccurrencesSpec | pauvf.py:185-193 | The repeated `find` lists offsets where `Unity` occurs, in strictly ascending order, and misses none |
| Search.FindEach | pauvf.py:185-193 | The collecting loop returns exactly the repeated-`find` offset list |
| Search.AnchorsAreFirstTen | pauvf.py:195 | The anchors are at most ten occurrences of `Unity`, ascending; any occurrence left out lies after all ten |
| Patterns.MatchAt | pauvf.py:36-40 | A match of a version pattern captures a non-empty group of digits, letters and dots that starts with a digit; the `Unity ` and `unity version` patterns match their literal, ignoring case, before the group |
| Patterns.FindAll | pauvf.py:200 | `findall` yields captures at or after the start offset, in order and without overlap, each made of digits, letters and dots |
| PatternSpec.MatchAtSpec | pauvf.py:36-40 | A pattern matches at an offset exactly when the bytes there have its shape: `D+.D+.D+` with an optional letter and trailing digits, `Unity ` (any case) then `D+.D+.D+`, or `unity version` (any case), one or more colons or whitespace bytes, then the full shape. The group is the leftmost such span with the greedy, longest end |
| PatternSpec.FindAllSpec | pauvf.py:200 | `findall` returns the groups of the leftmost matches from the start offset on, each search resuming at the end of the previous match; no offset skipped over has a match |
| Patterns.FindAllEmpty | pauvf.py:200 | `findall` is empty exactly when the pattern matches at no offset from the start on |
| Search.SearchPatternsIn | pauvf.py:199-204 | Trying each pattern's captures in turn returns the first valid decoded capture of the first pattern that has one |
| Search.SearchPatternsSound | pauvf.py:199-204 | A string returned from a buffer is a valid version spelled in that buffer |
| SearchCompleteness.FirstValidNone | pauvf.py:200-204 | No capture is returned exactly when no capture of the list decodes to a valid version |
| SearchCompleteness.FirstValidFirst | pauvf.py:200-204 | A returned capture is the first in the list that decodes to a valid version |
| SearchCompleteness.SearchPatternsFirst | pauvf.py:199-204 | A result from a pattern list is the result of the first pattern in the list that yields one; every earlier pattern yields nothing |
| SearchCompleteness.SearchPatternsNone | pauvf.py:199-204 | Trying a list of patterns yields nothing exactly when no pattern in the list has a valid capture |
| SearchCompleteness.SearchBufferNone | pauvf.py:199-210 | A buffer yields nothing exactly when none of the three patterns has a valid capture in it |
| SearchCompleteness.AnchoredSearchNone | pauvf.py:195-204 | The anchored loop yields nothing exactly when no anchor's window holds a valid capture |
| SearchCompleteness.AnchoredSearchFirst | pauvf.py:195-204 | A result from the anchored loop is the result of the first window, in anchor order, that yields one; every earlier window yields nothing |
| SearchCompleteness.AnchoredTierNone | pauvf.py:185-204 | The anchored tier yields nothing exactly when no window around the first ten `Unity` offsets holds a valid capture |
| SearchCompleteness.LexicalFromNone | pauvf.py:213-231 | One token's scan from an offset yields nothing exactly when no occurrence of the token from there up to offset 500000 starts a candidate run |
| SearchCompleteness.LexicalFromFirst | pauvf.py:213-231 | A result from one token's scan is the run at an occurrence of the token at or after the start and at most offset 500000, and no earlier occurrence in that stretch starts a candidate run |
| SearchCompleteness.LexicalStartsNone | pauvf.py:211-231 | Scanning a list of start tokens yields nothing exactly when no token in it has a candidate run |
| SearchCompleteness.LexicalTierNone | pauvf.py:211-231 | The lexical tier yields nothing exactly when none of `20`, `5.`, `4.`, `3.` has a candidate run |
| SearchCompleteness.FindVersionNone | pauvf.py:183-233 | The search of an entry's bytes returns nothing exactly when no window capture, no capture in the first 500000 bytes and no lexical run is a valid version |
| Validation.IsValidUnityVersion | pauvf.py:236-246 | An accepted string has 5 to 20 characters and starts with a digit |
| Search.FindVersion | pauvf.py:183-233 | Any version the search returns passes the validator |
| Search.AnchoredTierSound | pauvf.py:195-204 | A version from the anchored tier is valid and spelled inside the window from 50 bytes before one of the anchors to 200 bytes after it |
| Search.BulkTierSound | pauvf.py:205-210 | A version from the bulk tier is valid and spelled inside the first 500000 bytes |
| Search.RunEnd | pauvf.py:219-223 | The run loop stops at the first byte that is not printable, or at the cap of 30 bytes or the end of the data |
| Search.RunCandidate | pauvf.py:219-228 | The run at an offset is kept when it is longer than five bytes and its decoding passes the validator |
| Search.ScanStart | pauvf.py:213-231 | The scan of one start token visits its occurrences up to offset 500000 in order and returns the first candidate run |
| Search.LexicalScan | pauvf.py:211-231 | The lexical tier tries the start tokens `20`, `5.`, `4.`, `3.` in that order |
| Search.LexicalFromSound | pauvf.py:213-231 | A run returned by one token's scan is valid and starts at an occurrence of the token at or after the scan's start |
| Search.LexicalTierSound | pauvf.py:211-231 | A version from the lexical tier is valid, 6 to 20 bytes long, and is a maximal printable run of at most 30 bytes that starts at an occurrence of a start token at an offset of at most 500000 |
| Search.FindVersionInData | pauvf.py:183-233 | The search returns the anchored tier's result if there is one, else the bulk tier's, else the lexical tier's |
| Search.FindVersionSound | pauvf.py:183-233 | Any version the search returns is valid and spelled in the entry's bytes |
| SearchExamples.AnchoredFindsSample | pauvf.py:195-204 | In the bytes of `Unity 2021.3.1f1`, the anchored tier, and so the whole search, finds `2021.3.1f1` |
| Extractor.FirstIndicatorSpec | pauvf.py:105-117 | The indicator reported is the first in list order that some entry name starts with; there is none exactly when no entry name starts with any indicator |
| Extractor.PresentTargets | pauvf.py:126 | The targets kept are exactly those whose path is an entry name, and there are no more of them than targets |
| Extractor.DataFiles | pauvf.py:149 | The data files are exactly the entry names under `assets/bin/Data/`, and there are no more of them than entries |
| Extractor.PresentTargetsOrder | pauvf.py:126-129 | The present targets keep the order of the target list: they are targets at strictly increasing positions, and every target whose path is an entry name is among them |
| Extractor.DataFilesOrder | pauvf.py:149 | The data files keep archive order: they are entry names at strictly increasing positions of the name list, and every name under `assets/bin/Data/` is among them |
| ExtractionFacts.DeepScanFilesSpec | pauvf.py:149-152 | The deep scan reads the first min(20, n) data files, where n is the number of data files: a prefix of the data-file list, of that length |
| ExtractionFacts.DeepScanOrder | pauvf.py:149-152 | The deep scan reads data-folder entries in archive order: they sit at strictly increasing positions of the name list, and any data-folder entry it leaves out comes after all of them |
| Extractor.FirstFoundSpec | pauvf.py:129-146 | The first entry in which the search finds a version is located correctly: it yields one and no earlier entry does |
| Extractor.PriorityScanClosed | pauvf.py:129-146 | The priority scan stops at the first present target that yields a version. It records one warning per unreadable target read before that one, and otherwise hands over to the deep scan |
| Extractor.DeepScanClosed | pauvf.py:152-171 | The deep scan stops at the first data file that yields a version; otherwise it ends with "could not be determined". Failed reads leave no trace |
| Extractor.ScanTargets | pauvf.py:126-146 | The target loop either returns the record the priority scan specifies, or hands the deep scan the record and log it specifies |
| Extractor.ScanDataFolder | pauvf.py:148-171 | The data-folder loop returns the record the deep scan specifies |
| Extractor.ExtractVersion | pauvf.py:66-180 | The staged procedure returns the record and read log that the stage-by-stage specification gives for the archive |
| Extractor.Extract | pauvf.py:66-180 | Unity is reported exactly when the archive opened and an entry name starts with an indicator, and then the first detail names the first such indicator; otherwise the record carries an error, no success and no detail, and nothing is read |
| ExtractionFacts.FoundInNone | pauvf.py:129-171 | An entry yields no version exactly when its read fails or its bytes hold no valid candidate in any tier |
| ExtractionFacts.UndeterminedMeansNoCandidate | pauvf.py:148-171 | "Could not be determined" is reported exactly when the archive is Unity and every entry read, priority targets and data files alike, yields no version |
| ExtractionFacts.ExtractClosed | pauvf.py:113-171 | For a Unity archive, the extraction's outcome is a closed form: the first present target with a version, else the first of the deep-scan files with one, else "could not be determined" |
| ExtractionFacts.WarningsSpec | pauvf.py:145-146 | Each warning names a target whose read failed, with the failure's text; every target whose read fails gets such a warning; and there are no more warnings than targets |
| ExtractionFacts.ExtractionGuarantees | pauvf.py:66-180 | The record is consistent: success means a version, a source and no error. A version is valid, spelled in the reported entry's bytes, and comes from the first entry read that yields one. Unity is reported exactly when the archive opened and holds an indicator; then the first detail names that indicator and the reads follow targets-then-data-files order. Otherwise nothing is read and no detail is recorded |
| ExtractionFacts.ErrorStages | pauvf.py:92-121 | A non-ZIP gives the invalid-APK error, and an open failure gives its message; neither reads anything. "Not a Unity game" is reported exactly when the archive opened without an indicator. For an archive that opened, "could not be determined" is reported exactly when it is Unity and no version was found |
| ExtractionFacts.DetailsAreWarnings | pauvf.py:116-146 | After the indicator line, every detail line is a warning about a present priority target whose read failed |

## Left out

- Progress callbacks, `time.sleep` calls and progress percentages are left out. For a callback that returns normally, they change nothing in the result record. A callback that raises would turn a read into a `Could not read` warning, or end the extraction with an unexpected error; that is not modelled.
- Reading the file system and the ZIP container is not modelled. The archive is an input value: the outcome of `is_zipfile`, the failure raised on opening, and, per entry, its bytes or the failure text raised on reading it.
- The text of an exception (`str(e)`) is an opaque string carried in the input.
- A name in the name list with no read outcome in `entries` reads as a failure with the text `no such entry`. A real archive lists only entries it holds; an archive value meets this when every name in `names` is a key of `entries`, and all the facts hold either way.
- Duplicate entry names: the model maps a name to a single read outcome, so two entries with the same name read the same.
- An exception raised after the archive opened, outside the per-entry `try` blocks, is not modelled. The search itself raises nothing, and `namelist` is part of the input.
- The `try`/`except` around the lexical tier's run loop never fires: the run loop's indexing stays in bounds, and decoding a printable run cannot fail. The model has no error path there.
- Decoding with `errors='ignore'` is modelled only on ASCII byte spans. Every span the search decodes is made of digits, letters and dots, or of printable ASCII, so nothing is dropped.
- Validation.IsValidUnityVersion: `\d` in a Python `str` pattern also matches non-ASCII digits; the model accepts only `0`-`9`. Every string the search passes to the validator is ASCII, so the search's behaviour is the same.
- The GUI, threading and the rest of the application outside `UnityVersionExtractor` are not part of this model.
