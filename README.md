# Digital-archives helper scripts, modelled in Dafny

These scripts prepare born-digital and audiovisual material for ingest. Three of them are modelled here.

- **The package linter** (`lint_er`). It runs ten rules on an electronic-records package: a directory `M<digits>_(ER|DI|EM)_<digits>` holding `objects` and `metadata`. Seven rules are strict and three are advisory. The linter folds their results into the verdict `valid`, `invalid` or `needs review`, and `main` tallies the verdicts of a list of packages.
- **The bag reconciler** (`compare_bags`). It finds the bags in a directory of possible duplicates and in an authoritative main directory; a bag is a directory whose name is six digits. It splits the ids into those found on one side only and those found on both. Each shared id is then sorted by the validity of its two copies and, when both are valid, by whether their payload manifests agree.
- **The EAVie upload pre-checks** (`misc_eavie_upload`). Each media file (mp4, wav, flac) is paired with the JSON sidecar of the same stem, under the six-digit AMI id found in the stem. The file-naming convention, the barcode prefix and the reference filename recorded in the JSON are then checked. The script also computes the mp4 key under which a derivative of a FLAC or WAV file is looked for in the bucket.

## Project layout

| file | module | contents |
|---|---|---|
| `base.dfy` | `Base` | `Option` |
| `text.dfy` | `Text` | ASCII character classes, prefixes, digit runs, lower-casing, left-to-right non-overlapping replacement (`str.replace`) |
| `fs_tree.dfy` | `FsTree` | a directory tree as a value; the recursive walk `rglob('*')`; the last-match lookup `glob(name)` |
| `lint_er.dfy` | `LintEr` | the naming patterns, the ten rules, `metadata_file_has_valid_filename` with its warnings, `lint_package`, the tally of `main` |
| `lint_scenarios.dfy` | `LintScenarios` | the good package of the linter's tests and the two variants its integration tests build, with their verdicts |
| `compare_bags.dfy` | `CompareBags` | `validate_dir_paths`, `find_bags_in_dir`, `compare_bags_dicts`, `identify_duplication`, the classification loop and `main` |
| `eavie_upload.dfy` | `EavieUpload` | pathlib's `stem`/`suffix`, `get_ami_dict`, `validate_filename`, the JSON checks, the validation loop of `main`, the mp4 key |

## How the model reads the source

- **File system.** A directory tree is a value: `Dir(name, children)` or `File(name, size)`. `rglob('*')` lists everything below a directory, each entry followed at once by what lies inside it (depth first, pre-order). Only `find_bags_in_dir` depends on this order, when two bags share an id; see "## Left out". `for x in p.glob(name)` leaves `x` bound to the last match.
- **Loops** are methods with loops. Each is proved equal to a specification function, and the properties are proved about that function. Iteration over a set or a dictionary picks elements in an unspecified order (`:|`).
- **Regular expressions** are written out as predicates, and lemmas show that each predicate accepts exactly the strings the pattern describes. `\d` and `\w` are read as ASCII.
- **Behaviour kept as written, where the description of a script says otherwise:**
  - The metadata-name patterns `M\d+_(ER|DI|EM)_\d+.(csv|CSV)` and `….(tsv|TSV)` do not escape the `.`. It matches any character except a newline, so `M12345_ER_0001_csv` is accepted as a CSV name (`LintEr.UnescapedDotAcceptsAnySeparator`).
  - `re.match('^\d{6}$', name)` also accepts six digits followed by one trailing newline, because `$` matches before a final `\n` (`CompareBags.IsBagName`).
  - `validate_dir_paths` returns `None`, not `False`, when neither path is a directory. The model returns `Option<bool>`.
  - `get_ami_dict` raises when a paired media stem has no six-digit run (`re.search` returns `None`). The model returns `None` for that run.
  - `metadata_file_has_valid_filename` returns `False` for two or more CSV files because `any(good_csv)` is true. `any` tests the elements, and every `Path` object is truthy, so `any` of a list of paths is true exactly when the list is non-empty.
- **External inputs.** Bag validation (`bagit.Bag.validate`) and payload manifests (`payload_entries`) are oracles over the bag's full path: the directory given on the command line followed by the bag's path below it. Copies under two directories neither of which contains the other have different paths (`CompareBags.BagPathsApart`), so the oracles can answer differently for them. The JSON fields `referenceFilename` and `barcode` are functions of the JSON file's name.

## Model

| member | source | states |
|---|---|---|
| LintEr.PackageNameMatchesPattern | 20230417_Unit_Testing_presentation/lint_er.py:47-56 | the package-name test accepts exactly `M`, one or more digits, `_`, one of ER/DI/EM, `_`, one or more digits |
| LintEr.MetadataNameShape | 20230417_Unit_Testing_presentation/lint_er.py:107-110 | a metadata name is a valid package name, one character other than a newline (the unescaped `.`), and the extension in lower or upper case |
| LintEr.UnescapedDotAcceptsAnySeparator | 20230417_Unit_Testing_presentation/lint_er.py:107 | the CSV pattern accepts `_` or a digit in place of the dot, rejects a newline there, and does not accept a TSV name |
| LintEr.CsvAndTsvExclusive | 20230417_Unit_Testing_presentation/lint_er.py:121-124 | no file name is both a CSV and a TSV export |
| LintEr.FilesOf | 20230417_Unit_Testing_presentation/lint_er.py:93 | the files kept are exactly the file entries of the directory |
| LintEr.FilesOfCount | 20230417_Unit_Testing_presentation/lint_er.py:93 | each file is kept as often as it occurs and every directory is dropped, so the count rules see the number of files |
| LintEr.PackageHasValidName | 20230417_Unit_Testing_presentation/lint_er.py:47-56 | the package's own name is a full match of the package-name pattern |
| LintEr.PackageHasValidSubfolderNames | 20230417_Unit_Testing_presentation/lint_er.py:58-67 | the set of names of the package's entries is exactly `{objects, metadata}` |
| LintEr.ObjectsFolderHasNoAccessFolder | 20230417_Unit_Testing_presentation/lint_er.py:69-78 | no entry of the walk of the whole package is named `access` |
| LintEr.MetadataFolderIsFlat | 20230417_Unit_Testing_presentation/lint_er.py:80-88 | the `metadata` directory found by the glob has no directory entry |
| LintEr.MetadataFolderHasOneOrLessFile | 20230417_Unit_Testing_presentation/lint_er.py:90-98 | the `metadata` directory holds at most one file |
| LintEr.ObjectsFolderHasFile | 20230417_Unit_Testing_presentation/lint_er.py:143-151 | some entry of the walk of the `objects` entry is a file |
| LintEr.PackageHasNoBag | 20230417_Unit_Testing_presentation/lint_er.py:153-159 | no entry of the walk of the package is named `bagit.txt` |
| LintEr.PackageHasNoHiddenFile | 20230417_Unit_Testing_presentation/lint_er.py:161-169 | no entry of the walk of the package starts with `.` or `Thumbs` |
| LintEr.PackageHasNoZeroBytesFile | 20230417_Unit_Testing_presentation/lint_er.py:171-179 | no file of the walk of the package has size 0 |
| LintEr.NoAccessFolderAtAnyDepth | 20230417_Unit_Testing_presentation/lint_er.py:69-78 | the access rule fails iff an entry named `access` lies at any depth of the package |
| LintEr.NoBagAtAnyDepth | 20230417_Unit_Testing_presentation/lint_er.py:153-159 | the bag rule fails iff a `bagit.txt` lies at any depth |
| LintEr.NoHiddenFileAtAnyDepth | 20230417_Unit_Testing_presentation/lint_er.py:161-169 | the hidden-file rule fails iff some entry at any depth starts with `.` or `Thumbs` |
| LintEr.NoZeroBytesFileAtAnyDepth | 20230417_Unit_Testing_presentation/lint_er.py:171-179 | the zero-bytes rule fails iff some file at any depth is empty |
| LintEr.ObjectsFileAtAnyDepth | 20230417_Unit_Testing_presentation/lint_er.py:143-151 | `objects` passes iff some file lies somewhere below it; empty subfolders do not count |
| LintEr.ObjectsAsFileInvalid | 20230417_Unit_Testing_presentation/lint_er.py:143-151 | a regular file named `objects` fails the rule, and the package is `invalid` |
| LintEr.MetadataFilenameNeedsExactlyOneFile | 20230417_Unit_Testing_presentation/lint_er.py:100-141 | the filename rule passes only with exactly one metadata file, so it implies the one-or-less rule |
| LintEr.MetadataWarningsExplainFailure | 20230417_Unit_Testing_presentation/lint_er.py:100-141 | the filename rule fails exactly when it logs a warning |
| LintEr.MetadataWarnings | 20230417_Unit_Testing_presentation/lint_er.py:105-141 | the warnings logged: TSV or unknown for one file; TSV files, non-FTK files or several CSVs for more; none-found for none |
| LintEr.SortMetadataFiles | 20230417_Unit_Testing_presentation/lint_er.py:116-126 | the list lengths add up to the number of files; a file is in the CSV, TSV or unknown list iff it is an input file of that kind (CSV first, then TSV, then neither) |
| LintEr.MetadataFileHasValidFilename | 20230417_Unit_Testing_presentation/lint_er.py:100-141 | passes iff the metadata folder holds exactly one file and its name is a CSV name; the warnings logged for one file, several files or none |
| LintEr.RunCheck | 20230417_Unit_Testing_presentation/lint_er.py:192-194 | running one rule gives that rule's result |
| LintEr.Outcomes | 20230417_Unit_Testing_presentation/lint_er.py:192-208 | the i-th outcome is the result of the i-th rule |
| LintEr.Verdict | 20230417_Unit_Testing_presentation/lint_er.py:182-210 | the advisory loop from `valid`, then the strict loop from its result |
| LintEr.FoldOutcome | 20230417_Unit_Testing_presentation/lint_er.py:192-208 | a loop that overwrites the result on failure ends at the failure status iff some rule failed, else where it started |
| LintEr.StrictOutcomes | 20230417_Unit_Testing_presentation/lint_er.py:196-204 | no strict outcome is false iff all seven strict rules pass |
| LintEr.AdvisoryOutcomes | 20230417_Unit_Testing_presentation/lint_er.py:186-190 | no advisory outcome is false iff all three advisory rules pass |
| LintEr.VerdictPrecedence | 20230417_Unit_Testing_presentation/lint_er.py:182-210 | `invalid` iff a strict rule fails; `needs review` iff all strict rules pass and an advisory one fails; `valid` iff every rule passes |
| LintEr.Failing | 20230417_Unit_Testing_presentation/lint_er.py:192-208 | a rule is listed iff it is among those run and fails |
| LintEr.FoldStep | 20230417_Unit_Testing_presentation/lint_er.py:206-208 | one iteration of a rule loop, stated on the outcomes |
| LintEr.RunChecks | 20230417_Unit_Testing_presentation/lint_er.py:192-194 | the loop ends at the fold of the outcomes and collects exactly the failing rules |
| LintEr.LintPackage | 20230417_Unit_Testing_presentation/lint_er.py:182-210 | returns the verdict, and every rule is run: the failed list holds exactly the rules that fail |
| LintEr.NamesPartition | 20230417_Unit_Testing_presentation/lint_er.py:221-229 | the three name lists together are as long as the package list |
| LintEr.NamesWithMembers | 20230417_Unit_Testing_presentation/lint_er.py:224-229 | a name is listed under a verdict iff some package of that name has that verdict |
| LintEr.LintPackages | 20230417_Unit_Testing_presentation/lint_er.py:215-229 | the counter is the number of packages, each list holds the names with its verdict, and the lists add up to the counter |
| LintScenarios.FixtureShapeRules | 20230417_Unit_Testing_presentation/test_lint_er.py:11-27 | a well-named package with one plain object file and plain metadata files passes every strict rule and the hidden-file rule |
| LintScenarios.GoodPackageValid | 20230417_Unit_Testing_presentation/test_lint_er.py:255-259 | the fixture package is `valid` |
| LintScenarios.BaggedPackageInvalid | 20230417_Unit_Testing_presentation/test_lint_er.py:261-273 | adding `objects/bagfolder/bagit.txt` makes it `invalid` |
| LintScenarios.TwoCsvPackageNeedsReview | 20230417_Unit_Testing_presentation/test_lint_er.py:275-282 | adding a second metadata CSV makes it `needs review`, failing the two metadata-count rules |
| CompareBags.ValidateDirPaths | compare_bags.py:37-50 | `None` iff neither path is a directory; `True` iff both are; `False` otherwise |
| CompareBags.ProceedsIffBothDirs | compare_bags.py:117 | the comparison goes ahead iff both paths are directories |
| CompareBags.IsBagName | compare_bags.py:55-61 | `re.match('^\d{6}$')`: six digits, or six digits and a final newline |
| CompareBags.BagsDict | compare_bags.py:52-64 | the root under the path it was given by if its name is a bag name, then every bag directory of the walk under that path followed by its path below the root, later ones overwriting |
| CompareBags.FindBagsInDir | compare_bags.py:52-64 | the loop computes the root's entry followed by every entry of the walk, later ones overwriting |
| CompareBags.BagsWellFormed | compare_bags.py:52-64 | every key is a six-digit bag name, and its path lies at or below the directory searched and ends with the key |
| CompareBags.BagsComplete | compare_bags.py:57-62 | an id is a key iff the root or some directory at any depth below it carries that bag name |
| CompareBags.BagsLastWins | compare_bags.py:60-62 | for a repeated id, the path kept is that of the last directory the walk visits |
| CompareBags.BagPathsApart | compare_bags.py:53-62 | bags found under two directories neither of which contains the other are kept at different paths |
| CompareBags.CompareBagsDicts | compare_bags.py:66-74 | the ids only in the duplicate side, only in the main side, and in both |
| CompareBags.SplitPartitions | compare_bags.py:66-74 | the three sets are pairwise disjoint and together hold every id of either side |
| CompareBags.SplitSwap | compare_bags.py:66-74 | swapping the dictionaries swaps the one-sided sets and keeps the shared ids |
| CompareBags.IdentifyDuplication | compare_bags.py:88-110 | true iff the manifests are equal; otherwise it reports different file lists, or the main-side path of every file whose checksums differ |
| CompareBags.DifferingFiles | compare_bags.py:101-105 | the main-bag paths of the files whose checksums differ |
| CompareBags.MapsDifferAtSomeKey | compare_bags.py:94-103 | unequal manifests with the same files differ at some file |
| CompareBags.AuthoritativeNotEmpty | compare_bags.py:101-105 | when the files agree but the manifests differ, at least one file is reported |
| CompareBags.AuthoritativeExactly | compare_bags.py:101-105 | a file is reported iff its checksums differ |
| CompareBags.Classify | compare_bags.py:131-141 | each of the five outcomes iff its combination of the two validity results and the manifest verdict |
| CompareBags.OutcomeOf | compare_bags.py:131-135 | the outcome from validating both copies and comparing their manifests |
| CompareBags.EveryOutcomeReachable | compare_bags.py:131-141 | when the two copies of an id sit at different paths, each of the five outcomes occurs for some answer of the bag library |
| CompareBags.Append | compare_bags.py:133-141 | appending to one list changes only that list and adds one to the total |
| CompareBags.AppendDistinct | compare_bags.py:129-141 | appending an id not yet listed keeps the list free of repeats |
| CompareBags.ClassifyOne | compare_bags.py:131-141 | the body of the loop for one shared id yields that id's outcome |
| CompareBags.ClassifiedStep | compare_bags.py:129-141 | one more id classified extends a classification of the ids seen so far |
| CompareBags.ClassifyNext | compare_bags.py:129-141 | one pass of the loop moves some unclassified id into the list of its outcome, keeping the classification exact for the ids seen so far |
| CompareBags.ClassifyDups | compare_bags.py:123-141 | each shared id is listed once, in the list its outcome names, and nothing else is listed |
| CompareBags.ExactlyOneList | compare_bags.py:123-141 | a shared id is in its outcome's list and in no other, and the list lengths add up to the number of shared ids |
| CompareBags.Reconcile | compare_bags.py:112-141 | results exist iff both paths are directories; they are the two bag dictionaries, each under the path it was searched at, their split, and the classification of the shared ids |
| EavieUpload.LastDot | misc_eavie_upload.py:53 | the index of the last dot of the name, or none if the name has no dot |
| EavieUpload.Suffix | misc_eavie_upload.py:53-54 | `Path.suffix`: from the last dot, when that dot is neither the first nor the last character |
| EavieUpload.Stem | misc_eavie_upload.py:57-59 | `Path.stem`: the name before the suffix |
| EavieUpload.StemSuffixSplit | misc_eavie_upload.py:53-59 | stem and suffix concatenate to the name, and a non-empty suffix is a dot followed by characters other than a dot |
| EavieUpload.MediaSuffixCaseInsensitive | misc_eavie_upload.py:52-53 | the media test ignores case (`.FLAC`, `.Mp4`), rejects `.mov`, and treats a leading dot as part of the stem |
| EavieUpload.MediaAndJsonExclusive | misc_eavie_upload.py:53-54 | no name is both media and JSON |
| EavieUpload.IsMedia | misc_eavie_upload.py:52-53 | the lower-cased suffix is `.mp4`, `.wav` or `.flac` |
| EavieUpload.IsJson | misc_eavie_upload.py:54 | the lower-cased suffix is `.json` |
| EavieUpload.FirstSixDigits | misc_eavie_upload.py:60 | the leftmost position at or after `i` where six digits start, or none if there is none |
| EavieUpload.AmiId | misc_eavie_upload.py:60 | an id exists iff the stem contains six consecutive digits, and it is the leftmost such run |
| EavieUpload.MediaPaths | misc_eavie_upload.py:53 | a name is kept iff it is in the listing and has a media suffix |
| EavieUpload.JsonPaths | misc_eavie_upload.py:54 | a name is kept iff it is in the listing and has a JSON suffix |
| EavieUpload.MatchesFor | misc_eavie_upload.py:58-62 | the pairs written for one media file are exactly its JSON files of the same stem |
| EavieUpload.Pairs | misc_eavie_upload.py:56-62 | the pairs written are exactly the media and JSON files of the listing with equal stems |
| EavieUpload.StoreMatches | misc_eavie_upload.py:58-62 | the inner loop computes the dictionary after that media file's writes, or the error |
| EavieUpload.GetAmiDict | misc_eavie_upload.py:49-64 | the nested loops compute the dictionary of all writes in order, or the error |
| EavieUpload.AmiDict | misc_eavie_upload.py:49-64 | the writes of every same-stem media/JSON pair, in loop order, under the id of the media stem; none where the id lookup raises |
| EavieUpload.CollectNone | misc_eavie_upload.py:60 | the writes raise iff one of them is for a media stem without an id |
| EavieUpload.CollectEntries | misc_eavie_upload.py:60-62 | each stored pair is one of the writes and sits under its own id, and every write's id is a key |
| EavieUpload.CollectLastWins | misc_eavie_upload.py:62 | for a repeated id, the last write is kept |
| EavieUpload.AmiDictPairs | misc_eavie_upload.py:49-64 | every value pairs a listed media file and a listed JSON file of the same stem, under the first six-digit run of that stem |
| EavieUpload.AmiDictComplete | misc_eavie_upload.py:56-62 | every media file with a JSON partner of the same stem has an entry under its id |
| EavieUpload.AmiDictRaises | misc_eavie_upload.py:56-62 | the function raises iff some paired media stem has no six-digit run |
| EavieUpload.AmiDictLaterMediaWins | misc_eavie_upload.py:56-62 | when two pairs share an id, the later one is kept |
| EavieUpload.FilenameConventionMatchesPattern | misc_eavie_upload.py:66-68 | the fixed-position test accepts exactly three word characters, `_`, six digits, `_`, one or more word characters, `_`, and `sc` or `em` |
| EavieUpload.ValidateFilename | misc_eavie_upload.py:66-73 | the naming convention holds for the stem |
| EavieUpload.WellNamedId | misc_eavie_upload.py:60-67 | in a well-named stem the id found is the six digits at positions 4 to 9 |
| EavieUpload.StemOfDotted | misc_eavie_upload.py:68 | the stem of `x.ext`, for an extension without a dot, is `x` |
| EavieUpload.FilenameConventionExamples | misc_eavie_upload.py:67 | stems the convention accepts (including `_` inside the free part) and rejects (a wrong role, five digits) |
| EavieUpload.SidecarsShareVerdict | misc_eavie_upload.py:159-160 | a media file and its JSON of the same stem get the same naming verdict |
| EavieUpload.BarcodePrefix | misc_eavie_upload.py:85-96 | the barcode passes iff it starts with `33433`; examples on both sides |
| EavieUpload.BarcodeOk | misc_eavie_upload.py:85-96 | the barcode starts with `33433` |
| EavieUpload.RefFilenameOk | misc_eavie_upload.py:75-83 | the JSON's `referenceFilename` equals the media file's full name |
| EavieUpload.PairValidated | misc_eavie_upload.py:159-162 | both names follow the convention, the reference filename matches, and the barcode has the prefix |
| EavieUpload.ValidatedIds | misc_eavie_upload.py:153-163 | an id is kept iff its pair passes all four checks |
| EavieUpload.ValidatedKeyIsNameDigits | misc_eavie_upload.py:153-163 | a validated pair sits under the six digits at positions 4 to 10 of both stems, and its reference filename is the media name |
| EavieUpload.Mp4KeyRemovesBoth | misc_eavie_upload.py:109 | neither `flac` nor `wav` occurs anywhere in the key |
| EavieUpload.Mp4Key | misc_eavie_upload.py:109 | `replace('flac', 'mp4')` and then `replace('wav', 'mp4')` |
| EavieUpload.Mp4KeyCaseSensitive | misc_eavie_upload.py:103-109 | the replacement is case-sensitive: names ending in `.FLAC` or `.WAV` are their own keys |
| EavieUpload.Mp4KeyOfSuffix | misc_eavie_upload.py:109 | `x.flac` and `x.wav` become `x.mp4` |
| EavieUpload.Mp4KeyRewritesStem | misc_eavie_upload.py:109 | every occurrence is rewritten, so `wav…` in the stem becomes `mp4…` |
| Text.DigitRunEnd | 20230417_Unit_Testing_presentation/lint_er.py:50 | the end of the greedy digit run from a position: digits up to it, and a non-digit (or the end) at it |
| Text.ReplaceAll | misc_eavie_upload.py:109 | `str.replace`: every non-overlapping occurrence, left to right, is replaced |
| Text.ReplaceAllRemoves | misc_eavie_upload.py:109 | after `str.replace`, no occurrence of the pattern is left when the replacement shares no character with it |
| Text.ReplaceAllKeepsAbsent | misc_eavie_upload.py:109 | replacing never creates an occurrence of an absent pattern that shares no character with the replacement |
| FsTree.BelowSomewhere | 20230417_Unit_Testing_presentation/lint_er.py:72 | searching the walk `rglob('*')` is searching the tree at any depth |
| FsTree.Glob | 20230417_Unit_Testing_presentation/lint_er.py:82 | the entry found has the requested name and is a child; if none is found, no child has that name |

## Left out

- Argument parsing, logging configuration and console output are not modelled. Logged messages are modelled as return values only where they tell cases apart: the metadata warnings, the duplication report, and the failed rules.
- `validate_bag` and the bag library are not modelled. Validity and payload manifests are oracles on a bag's full path. A path is a sequence of components, so `a/./b` and `a/b` are different paths to the model.
- `absent_in_bucket` and `cp_files` call the AWS command line, so only the mp4 key is modelled. The other pass through `main` is left out with them: the `direct_upload` choice between copying and looking up keys.
- `validate_dir` is left out, as are the directory listing of `main` in the upload script and its check that each pair holds two paths. That check cannot fail, because every value is a pair.
- `validate_json_ref_filename` and `validate_json_barcode` read JSON files, so the model covers only the decision on the field values. The field values are inputs.
- The other scripts of the repository are not part of this model: `mv_ami_bags.py`, `mv_towaitingforprsv.py`, `api_playground.py`, `get_er_number.py` and `compare_paths.py`.
- The linter's unit tests and its command-line tests of `main` are not restated one by one. The model restates the fixture and the three verdict tests of `lint_package`.
- Unicode is not modelled. `\d`, `\w` and `str.lower` are read on ASCII, whereas Python also accepts non-ASCII digits and letters.
- CompareBags.BagsLastWins: the walk order is the model's depth-first pre-order, not pathlib's. Only the order within one directory listing comes from the operating system. pathlib (CPython 3.8 to 3.11) lists every entry of a directory before anything below them. So for a root holding `A/123456` and, listed after it, `123456`, pathlib keeps `A/123456` where the model keeps `123456`. Which copy `find_bags_in_dir` keeps for a repeated id can therefore differ.
- The order of set and dictionary iteration is not Python's. Sets are iterated in an unspecified order.
- LintEr.LintPackage: requires a package that has a `metadata` directory and an entry named `objects` (`Lintable`). Without `metadata`, or without any `objects` entry, a rule reads a loop variable that was never bound. A `metadata` that is a regular file cannot be listed. The source raises an error in these cases, and that crash is not modelled. A regular file named `objects` is covered: the package is `invalid` (`LintEr.ObjectsAsFileInvalid`).
- LintEr.MetadataFolderIsFlat, LintEr.MetadataFolderHasOneOrLessFile: they likewise require `metadata` to be a directory. LintEr.ObjectsFolderHasFile requires an entry named `objects`.
- EavieUpload.Mp4KeyOfSuffix, EavieUpload.Mp4KeyCaseSensitive: they are stated for stems without `f` or `w`. Other stems are covered only by EavieUpload.Mp4KeyRemovesBoth and EavieUpload.Mp4KeyRewritesStem.
