# Python-XKCD, modelled in Dafny

The program mirrors the xkcd web comic into a folder of Markdown records. Each run does four things:

- It reads the newest id already mirrored. This is the largest number spelled by the stem of any `.md` file anywhere below the image folder.
- It asks the xkcd JSON API for the next `max_once` ids. Every comic that answers gets a record file named after its zero-padded id, rendered from a template.
- It files every record at the top of the folder into a three-level hierarchy of ranges: 1000 ids wide, then 100, then 10. A record is moved only if a file of its name is not already in the bucket. The run stops with an error, keeping the moves done so far, when a bucket directory would have to be created where a file already is.
- With at least five comics fetched in this run, it fills the README template. The template gets the newest comic and three comics sampled from the run.

The model has one module per part of `src/main.py`:

- `Decimal` covers `str(n)` and the part of `int(s)` the program relies on.
- `Text` covers `str.replace`.
- `Format` covers `format_str`, `f"{x:04}"` and the record file names.
- `Bucket` covers the range arithmetic and the directory labels.
- `Markdown` covers `get_md` and `write_md`.
- `Numbering` covers `get_latest_number`.
- `Fetch` covers `get_xkcd_comics`, as a method with a loop.
- `Organize` covers `organize_comics`, as a method with a loop over the folder.
- `Readme` covers `pick_and_generate_readme`.

The folder is a `map` from paths to file contents. A path is a sequence of names relative to the image folder, so `["0042.md"]` is a top-level record and `["0001-1000", "0001-0100", "0041-0050", "0042.md"]` is the same record filed away. Directories are implicit: a directory exists when some file lies below it.

The following are parameters of the model:

- the settings from the configuration module (`Config`, and `count` for `max_once`);
- the HTTP responses (a function from id to an optional comic);
- the order in which `glob` and `rglob` list files;
- the positions `random.sample` picks.

## Model

| member | source | states |
|---|---|---|
| Decimal.Show | src/main.py:24 | `str(n)` of a non-negative number is non-empty, all ASCII digits, and has no leading zero unless it is `"0"` |
| Decimal.ShowInt | src/main.py:24 | `str(i)` is non-empty, starts with `-` exactly when `i` is negative, and is ASCII digits after that sign |
| Decimal.Parse | src/main.py:82 | `int(s)` succeeds exactly on an optional sign followed by at least one digit; its value is the digits' value, negated after a `-` |
| Decimal.ParseShowInt | src/main.py:24-26 | `int(str(i)) == i` for every integer |
| Decimal.ParseZeroPadded | src/main.py:28 | leading zeros in front of `str(n)` do not change the number `int` reads |
| Decimal.ShowIntInjective | src/main.py:24 | different integers have different decimal forms |
| Text.ReplaceAll | src/main.py:34-37 | `s.replace(pat, rep)`: every non-overlapping occurrence of `pat`, scanning left to right, becomes `rep`; an empty `pat` puts `rep` before every character and at the end; its properties are the `Replace*` and `LeftmostNonOverlapping` lemmas below |
| Text.ReplaceAbsent | src/main.py:34-37 | `replace` leaves a string without the (non-empty) pattern unchanged |
| Text.ReplaceSelf | src/main.py:34-37 | replacing a pattern by itself changes nothing, for any pattern including the empty one |
| Text.LeftmostNonOverlapping | src/main.py:34-37 | occurrences are replaced leftmost first and never overlap: `"aaa".replace("aa", "b") == "ba"` |
| Text.ReplaceFront | src/main.py:34-37 | a pattern at the front is replaced and the scan continues after it |
| Text.ReplaceAfterPrefix | src/main.py:34-37 | a prefix that cannot start an occurrence is kept and the rest is replaced on its own |
| Text.ReplaceBeforeSuffix | src/main.py:34-37 | a suffix that cannot end an occurrence is kept and what comes before it is replaced on its own |
| Text.ReplaceInside | src/main.py:34-37 | replacing inside a string framed by such a prefix and suffix replaces only the middle part |
| Text.ReplaceWhole | src/main.py:34-37 | a string that is exactly the pattern becomes the replacement |
| Format.FormatStr | src/main.py:23-28 | the result has length `max(len(s), width)`, ends with `s`, and is padded in front with the pad character only; a string already as wide as the width is returned as is |
| Format.FormatId | src/main.py:42 | `format_str(index)` as `write_md` calls it: `str(index)` padded with zeros to width 4 (`FormatIdShape`, `FormatIdRoundTrip`) |
| Format.RecordName | src/main.py:42 | the record file name `f"{format_str(index)}.md"` (`RecordNameRoundTrip`, `RecordNameInjective`) |
| Format.Format04 | src/main.py:100-102 | `f"{x:04}"`: the sign, then zeros, then the digits of `abs(x)`, at least four characters (`Format04Digits`, `Format04RoundTrip`, `Format04AgreesWithFormatId`) |
| Format.FormatIdShape | src/main.py:23-28 | `format_str(n)` is zeros followed by `str(n)`, at least four characters wide |
| Format.FormatIdRoundTrip | src/main.py:23-28 | `int(format_str(n)) == n` for every non-negative `n` |
| Format.IsMdName | src/main.py:79 | the `*.md` pattern of `glob` here and of `rglob` at line 50: the name ends in `.md` (`RecordNameRoundTrip`, `DirNamesAreNotRecords`) |
| Format.Stem | src/main.py:82 | the stem of a `*.md` name longer than `.md` is the name without its `.md` suffix; for the name `.md` itself Python's stem is `.md` and the model's is empty, and `int()` fails on both |
| Format.StemNumber | src/main.py:82 | `int(file.stem)`, also computed in the sort key at line 79 and in the scan at line 50: `None` where Python raises ValueError (`RecordNameRoundTrip`, `LatestOfRecords`) |
| Format.RecordNameRoundTrip | src/main.py:42 | the file `write_md` writes for id `n` matches `*.md`, and `int` of its stem is `n` |
| Format.RecordNameInjective | src/main.py:42 | different non-negative ids get different record file names |
| Format.Format04AgreesWithFormatId | src/main.py:100-102 | for non-negative numbers the directory labels' `{x:04}` and `format_str` agree |
| Format.Format04RoundTrip | src/main.py:100-102 | `int(f"{x:04}") == x` for every integer, negative ones included |
| Format.Format04Digits | src/main.py:100-102 | `{x:04}` is at least four characters and ends in a digit; for non-negative `x` it is digits only |
| Bucket.BucketsOf | src/main.py:86-95 | the three nested ranges `organize_comics` computes for an id, with `//` as floor division (`BucketsAreAligned`, `BucketsNest`, `SameBucketsIff`) |
| Bucket.BucketsAreAligned | src/main.py:86-95 | the nested computation of each level's start equals aligning `num` to 1000, 100 and 10 directly |
| Bucket.BucketsNest | src/main.py:86-95 | every range contains `num`; the ranges are 1000, 100 and 10 ids wide, nest inside each other, and start one past a multiple of their width |
| Bucket.SameBucketsIff | src/main.py:86-95 | two ids get the same three ranges exactly when they lie in the same 10-wide range |
| Bucket.RangeName | src/main.py:98-103 | the directory label `f"{start:04}-{end:04}"` of a range (`RangeNameInjective`, `DirNamesAreNotRecords`) |
| Bucket.BucketDirs | src/main.py:86-103 | the three directory names of an id, outermost first, always three of them (`SameDirsIff`, `BucketDirsOfFirstId`, `BucketDirsOf1005`) |
| Bucket.RangeNameInjective | src/main.py:98-103 | for non-negative bounds, two ranges get the same label `start:04-end:04` exactly when they are the same range |
| Bucket.SameDirsIff | src/main.py:86-103 | two ids from 1 up get the same three directory names exactly when they lie in the same 10-wide range |
| Bucket.DirNamesAreNotRecords | src/main.py:98-103 | no directory name ends in `.md`, so `glob('*.md')` never lists a bucket |
| Bucket.BucketDirsOfFirstId | src/main.py:86-103 | id 1 is filed under `0001-1000/0001-0100/0001-0010` |
| Bucket.BucketDirsOf1005 | src/main.py:86-103 | id 1005 is filed under `1001-2000/1001-1100/1001-1010` |
| Markdown.GetMd | src/main.py:30-38 | `get_md`: the four replace passes over the record template, image, URL, title, index, in that order (`GetMdWithoutPlaceholders`, `GetMdUrlSlot`, `GetMdTitleSlot`) |
| Markdown.GetMdWithoutPlaceholders | src/main.py:30-38 | a template with none of the four placeholders is returned unchanged |
| Markdown.GetMdTitleSlot | src/main.py:30-38 | for a template `pre + "$title$" + post` with no `$` around the slot, the result is `pre`, then the title with its `$index$` occurrences replaced by the index (the index pass runs last), then `post`; a title without `$index$` is inserted verbatim |
| Markdown.GetMdUrlSlot | src/main.py:30-38 | for a template `pre + "$url$" + post` with no `$` around the slot, the image pass leaves the slot alone and the slot receives `f"{xkcd_url}/{index}"` with the title and index passes run over it; a base URL without `$` lands verbatim |
| Markdown.RecordPathInjective | src/main.py:42 | different non-negative ids are written to different paths |
| Markdown.RecordPath | src/main.py:42 | the record path `Path(image_path) / f"{format_str(index)}.md"`, directly in the image folder (`RecordPathInjective`) |
| Markdown.WriteMd | src/main.py:40-45 | `write_md` stores `get_md` of the comic at its record path, overwriting what was there, and changes no other path; `TryFetch` and `WriteAllSnoc` tie each call to one step of `WriteAll` |
| Numbering.Stems | src/main.py:49 | the stems of every `.md` file anywhere below the folder, as `rglob('*.md')` finds them (`MoveAllKeepsStems`, `OrganizeKeepsLatest`) |
| Numbering.LatestNumber | src/main.py:47-54 | `get_latest_number`: `int` of every stem in scan order, then `max(..., default=0)`; `None` when some stem is not an integer (`LatestNumberSpec`, `LatestNumberOrderFree`) |
| Numbering.MaxOrZero | src/main.py:52 | `max(xs, default=0)` is 0 for an empty list; otherwise it is an element of the list that no element exceeds |
| Numbering.ParseAll | src/main.py:49-51 | the comprehension fails exactly when some stem is not an integer; otherwise it yields `int` of every stem, in order |
| Numbering.LatestNumberSpec | src/main.py:47-54 | the latest number fails exactly when some stem is not an integer; it is 0 when there are no records; otherwise some stem spells it and no stem spells a larger number |
| Numbering.LatestNumberOrderFree | src/main.py:47-54 | the result depends only on the set of stems, not on the order `rglob` lists them in or on repetitions |
| Numbering.BadStemCarries | src/main.py:49-51 | a stem that is not an integer fails every scan that meets it |
| Numbering.LatestOfRecords | src/main.py:42-54 | over record files named by `format_str(id)`, the latest number is the largest id |
| Fetch.Attempt | src/main.py:62-70 | one request: `(i, title, img)` when it answered with status 200, nothing otherwise (`FetchStep`) |
| Fetch.Fetched | src/main.py:57-74 | the list `comic_infos` collected over `range(start + 1, start + count + 1)`, in the order tried (`FetchedExactly`, `FetchedOrdered`, `FetchedLength`) |
| Fetch.WriteAll | src/main.py:40-45 | the effect of the loop's `write_md` calls, one after the other (`WriteAllSnoc`, `WriteAllHolds`, `WriteAllFrame`) |
| Fetch.GetXkcdComics | src/main.py:56-74 | the loop returns the comics of `range(start + 1, start + count + 1)` whose request succeeded, in order, and writes one record per comic, one after the other |
| Fetch.TryFetch | src/main.py:62-70 | one iteration: a success writes the record and appends `(i, title, img)`; a failure changes nothing |
| Fetch.FetchStep | src/main.py:61-70 | the attempt for `i` extends the list by that comic or by nothing, and a success adds exactly one more `write_md` |
| Fetch.WriteAllSnoc | src/main.py:67 | one more fetched comic means one more `write_md` after the earlier ones |
| Fetch.FetchedOrdered | src/main.py:61-68 | every returned id lies in the range, and ids strictly increase along the list |
| Fetch.FetchedExactly | src/main.py:61-68 | a tuple is in the result exactly when its id is in the range and the request for it succeeded with that title and image |
| Fetch.FetchedLength | src/main.py:61 | at most one entry per id tried, and none when `count <= 0` |
| Fetch.WriteAllHolds | src/main.py:40-45 | with pairwise distinct paths, each entry's path ends up holding that entry's rendered text |
| Fetch.WriteAllFrame | src/main.py:40-45 | a path no entry writes keeps what it held |
| Fetch.FetchedRecordsWritten | src/main.py:40-74 | after a run from a non-negative start, every fetched comic's record file holds `get_md` of that comic |
| Organize.IsListing | src/main.py:79 | what `folder.glob('*.md')` may return: every top-level `.md` file of the folder, each once and in any order |
| Organize.Entries | src/main.py:79-103 | reading the ids fails exactly when some stem is not an integer; otherwise each file is paired with `int` of its stem and the three directory names computed from that id |
| Organize.Insert | src/main.py:79 | inserting adds exactly the one entry |
| Organize.SortByNum | src/main.py:79 | sorting keeps the entries with their multiplicities |
| Organize.InsertSorted | src/main.py:79 | inserting into an ascending list keeps it ascending |
| Organize.SortByNumSpec | src/main.py:79 | `sorted(key=int(stem))` is ascending by id, a permutation of its input, and keeps names distinct |
| Organize.Target | src/main.py:98-107 | the target is the file's own name, three directories deep |
| Organize.Move | src/main.py:107-112 | a free target receives the file; an occupied target leaves the folder unchanged |
| Organize.MoveAt | src/main.py:107-112 | after a move the source is gone, the target holds the file, and every other path is as before; after a skipped move every path is as before |
| Organize.MoveSize | src/main.py:108-109 | a move neither loses nor duplicates a file |
| Organize.Blocked | src/main.py:104 | `target_dir.mkdir(parents=True, exist_ok=True)` raises: one of the three directories it would create is a file (`BlockedKept`, `MoveAllBlocked`, `MoveAllBlockedStays`) |
| Organize.MoveAll | src/main.py:81-112 | the loop's moves in order, each a move-unless-occupied, stopping with the earlier moves done at the first blocked entry (`MoveAllOutcome`, `MoveAllStops`, `MoveAllFrame`, `MoveAllSize`) |
| Organize.Organized | src/main.py:76-112 | the folder after `organize_comics`: the moves of the listed files in ascending order of id (`OrganizedFile`, `OrganizedFrame`, `LeftAtTop`, `OrganizeKeepsLatest`) |
| Organize.OrganizeComics | src/main.py:76-112 | fails, with nothing moved, when some top-level stem is not an integer; otherwise moves the files one by one in ascending order of id, each under the move-unless-occupied rule, and stops with the earlier moves done at the first file whose directories cannot be created because a file is in the way; `ok` holds exactly when neither happens |
| Organize.MoveInOrder | src/main.py:81-112 | the loop over the sorted files computes the sequence of moves, and reports success exactly when no file's directories are blocked |
| Organize.MoveFile | src/main.py:107-109 | one iteration applies the move-unless-occupied rule |
| Organize.BlockedKept | src/main.py:104-109 | moving a record file into its bucket does not change whether another file's directories are blocked |
| Organize.CompletesSorted | src/main.py:79-104 | whether some directory is blocked does not depend on the order of the files |
| Organize.MoveAllBlocked | src/main.py:104 | a run whose next file is blocked stops there, with the folder as it is |
| Organize.MoveAllStops | src/main.py:81-112 | a run that does not complete stops at a blocked file, after exactly the moves of the files before it |
| Organize.MoveAllBlockedStays | src/main.py:81-112 | a file whose own directories are blocked is never moved |
| Organize.MoveAllFrame | src/main.py:81-112 | a path that is no file's source or target keeps what it held |
| Organize.MoveAllOutcome | src/main.py:81-112 | a file with an occupied target stays at the top and the occupant is untouched; when no file is blocked, a file with a free target ends up there and is gone from the top |
| Organize.MoveAllSize | src/main.py:81-112 | the folder holds as many files afterwards as before |
| Organize.MoveAllAddsNoTopLevel | src/main.py:81-112 | the moves never create a file at the top of the folder |
| Organize.MoveKeepsStems | src/main.py:107-109 | a move keeps the file name, so the set of stems below the folder is unchanged |
| Organize.MoveAllKeepsStems | src/main.py:81-112 | the whole run keeps the set of stems below the folder |
| Organize.SortedPosition | src/main.py:79 | every file of the listing occurs in the sorted order |
| Organize.OrganizedFile | src/main.py:76-112 | a listed file whose bucket held a file of its name stays, and that file is untouched; when no directory is blocked, a file with a free target ends up in its bucket; a file whose directories are blocked stays where it was |
| Organize.OrganizedFrame | src/main.py:76-112 | nothing else changes: a path that is neither a listed file nor a target keeps what it held |
| Organize.LeftAtTop | src/main.py:76-112 | a record still at the top afterwards was listed, and either its bucket already held a file of its name or the run stopped at a blocked directory |
| Organize.OrganizeKeepsLatest | src/main.py:47-54 | because `get_latest_number` searches recursively, it reads the same number before and after organizing, whatever order either scan uses |
| Readme.IsSample | src/main.py:121 | what `random.sample(comic_infos, 3)` may return, as positions: three distinct positions of the list, in sample order (`SampleMayInclude`, `SampleMayIncludeLatest`) |
| Readme.FirstMaxIndex | src/main.py:120 | `max(key=id)` picks an entry no other exceeds, and the first such one |
| Readme.Selection | src/main.py:120-129 | four records go into the README: the first newest one, then the three sampled ones in sample order |
| Readme.Fill | src/main.py:123-128 | the README replace chain: `$new$`, then `$random1$`, `$random2$`, `$random3$` (`NewSlot`, `Random3Slot`) |
| Readme.ReadmeContent | src/main.py:123-129 | `readme_content`: the README template filled with `get_md` of the newest record and of the three sampled ones (`GeneratedContent`) |
| Readme.GenerateReadme | src/main.py:114-132 | with fewer than five comics the README is left as it was; otherwise it is written |
| Readme.GeneratedContent | src/main.py:123-132 | with five or more comics the README becomes the filled template, whatever it held before |
| Readme.SampleMayIncludeLatest | src/main.py:120-121 | the sample is drawn from all comics, so it may contain the newest one and may leave it out |
| Readme.SampleMayInclude | src/main.py:121 | with five or more comics, any position can be sampled and can be left out |
| Readme.LatestIsLastFetched | src/main.py:61-68 | after a fetch, the newest comic is the last one in the list |
| Readme.NewSlot | src/main.py:123-128 | for a template `pre + "$new$" + post` with no `$` around the slot, the slot receives the newest comic's text after the three later passes ran over it; a text holding none of their placeholders is inserted verbatim |
| Readme.Random3Slot | src/main.py:123-128 | for a template `pre + "$random3$" + post` with no `$` around the slot, the third sampled comic's text is inserted verbatim, because its pass runs last |

## Left out

- HTTP and JSON: the request for id `i` is a parameter `fetch(i)`. `Some` stands for status 200 with its `title` and `img` fields. `None` stands for any other status. Network errors and malformed JSON, which raise in the program, are not modelled.
- `time.sleep`, all logging, and the import-time `mkdir` of the image folder: they have no effect on the folder's records.
- `target_dir.mkdir`: directories are implicit in the path map, so creating a missing one has no visible effect. When a file stands where one of the three directories goes, `mkdir` raises and the run stops; the model stops there too (`Blocked`). The path map can hold a path both as a file and as a prefix of other files' paths, which no real folder can; the model does not exclude such folders.
- The configuration module: its values are parameters. `stencil`, `stencil_readme` and `xkcd_url` are fields of `Config`, `max_once` is `count`, and `image_path` is the root of the path map. `readme_path` is modelled as a cell of its own, so the model does not capture a README placed inside the image folder, where it would be listed by the scans.
- `random.sample`: the three positions are a parameter, and they are constrained only to be distinct and in range.
- The `__main__` block: the four steps are modelled separately. `OrganizeKeepsLatest` and `LatestIsLastFetched` relate them.
- Decimal.Parse: does not model the leading and trailing whitespace, the underscores between digits, or the non-ASCII digits that Python's `int()` also accepts. No record file name of the program's own contains them.
- Organize.Move: `exists()` is true for a directory as well as for a file at the target path. Directories are implicit in the model, so a directory whose name equals a record's target is not modelled.
- Failures of `rename` itself, other processes changing the folder during a run, and file permissions are not modelled.
- Format.FormatStr: requires a `base` of at least two characters whose second one is an ASCII digit. Python's `int()` also reads other Unicode decimal digits there (such as `"0٤"`), and raises for any other base. The only call uses the default `"04"`.
- The order in which `glob('*.md')` and `rglob('*.md')` list files is a parameter. Organize.SortByNum is a stable insertion sort, and its stability is not stated. For runs where no directory is blocked, `MoveAllOutcome` holds for every order of the moves, so the order among equal ids does not affect which files move. Entries with equal ids have equal directories, so they are blocked or free together; that the order among them does not change a run that stops is not stated.
- Organize.IsListing: `glob('*.md')` returns every matching path, so a top-level directory whose name ends in `.md` would be listed, sorted and moved like a record. The path map holds files only, so the model does not represent such directories. The program never creates one: its bucket names end in a digit (`DirNamesAreNotRecords`) and its record names are files.
- Numbering.Stems: `rglob('*.md')` also returns directories whose names end in `.md`, anywhere below the folder, and `int()` of such a stem may raise. The model scans file names only, so it does not represent such directories, which the program never creates.
- Organize.OrganizeComics: an `int()` failure in the sort key aborts before any file moves, because `sorted` computes every key first. A blocked `mkdir` raises after the earlier moves. The model returns `ok == false` in both cases instead of raising, with the folder as the exception leaves it.
- Numbering.LatestNumber: a failing scan is `None`, standing for the ValueError the program raises.
