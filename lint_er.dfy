/**
 * The package linter: ten rules over one package directory, seven strict
 * and three advisory, folded into a verdict `valid`, `invalid` or
 * `needs review`, and the tally over a list of packages.
 */
module LintEr {
  import opened Base
  import opened Text
  import opened FsTree

  /** The verdict `lint_package` returns. */
  datatype Status = Valid | Invalid | NeedsReview

  // ---------------------------------------------------------------------------
  // Naming patterns
  // ---------------------------------------------------------------------------

  predicate IsCollectionCode(s: string) {
    s == "ER" || s == "DI" || s == "EM"
  }

  /**
   * A full match of `M\d+_(ER|DI|EM)_\d+`: `M`, a greedy run of digits
   * (which cannot swallow the `_` after it), `_`, a two-letter code, `_`,
   * and digits up to the end.
   */
  predicate IsPackageName(s: string) {
    |s| > 1 && s[0] == 'M' &&
    var j := DigitRunEnd(s, 1);
    1 < j && j + 4 < |s| && s[j] == '_' && IsCollectionCode(s[j + 1..j + 3]) && s[j + 3] == '_' &&
    AllDigits(s[j + 4..])
  }

  /** The pattern `M\d+_(ER|DI|EM)_\d+` read as a decomposition of `s` into its parts. */
  ghost predicate PackageNameParts(s: string, a: string, code: string, b: string) {
    s == "M" + a + "_" + code + "_" + b &&
    |a| > 0 && AllDigits(a) && IsCollectionCode(code) && |b| > 0 && AllDigits(b)
  }

  /** The hand-written matcher accepts exactly the names the pattern describes. */
  lemma PackageNameMatchesPattern(s: string)
    ensures IsPackageName(s) <==> exists a, code, b :: PackageNameParts(s, a, code, b)
  {
    if IsPackageName(s) {
      PackageNameSplits(s);
    }
    if exists a, code, b :: PackageNameParts(s, a, code, b) {
      var a, code, b :| PackageNameParts(s, a, code, b);
      PackageNameJoins(s, a, code, b);
    }
  }

  /** A name the matcher accepts splits into the pattern's parts at the end of the first digit run. */
  lemma PackageNameSplits(s: string)
    requires IsPackageName(s)
    ensures var j := DigitRunEnd(s, 1); PackageNameParts(s, s[1..j], s[j + 1..j + 3], s[j + 4..])
  {
    var j := DigitRunEnd(s, 1);
    DigitsBetweenSlice(s, 1, j);
    NameLayout(s[1..j], s[j + 1..j + 3], s[j + 4..]);
    assert s == "M" + s[1..j] + "_" + s[j + 1..j + 3] + "_" + s[j + 4..];
  }

  /** A name built from the pattern's parts is one the matcher accepts. */
  lemma PackageNameJoins(s: string, a: string, code: string, b: string)
    requires PackageNameParts(s, a, code, b)
    ensures IsPackageName(s)
  {
    var j := 1 + |a|;
    NameLayout(a, code, b);
    DigitsBetweenSlice(s, 1, j);
    DigitRunEndUnique(s, 1, j);
  }

  /** Where each part of `M<a>_<code>_<b>` sits. */
  lemma NameLayout(a: string, code: string, b: string)
    requires |code| == 2
    ensures var s, j := "M" + a + "_" + code + "_" + b, 1 + |a|;
      |s| == j + 4 + |b| && s[0] == 'M' && s[1..j] == a && s[j] == '_' &&
      s[j + 1..j + 3] == code && s[j + 3] == '_' && s[j + 4..] == b
  {
  }

  /**
   * A full match of `M\d+_(ER|DI|EM)_\d+.(lo|up)`. The `.` is not escaped,
   * so it stands for any one character except a newline.
   */
  predicate IsMetadataName(s: string, lo: string, up: string)
    requires |lo| == 3 && |up| == 3
  {
    |s| >= 4 && s[|s| - 4] != '\n' && (s[|s| - 3..] == lo || s[|s| - 3..] == up) &&
    IsPackageName(s[..|s| - 4])
  }

  /** The FTK metadata CSV name, `M\d+_(ER|DI|EM)_\d+.(csv|CSV)`. */
  predicate IsFtkCsvName(s: string) {
    IsMetadataName(s, "csv", "CSV")
  }

  /** The recognised-but-wrong TSV variant, `M\d+_(ER|DI|EM)_\d+.(tsv|TSV)`. */
  predicate IsFtkTsvName(s: string) {
    IsMetadataName(s, "tsv", "TSV")
  }

  /** The metadata name is the package name, one separator character and the extension. */
  lemma MetadataNameShape(s: string, lo: string, up: string)
    requires |lo| == 3 && |up| == 3
    ensures IsMetadataName(s, lo, up) <==>
      exists stem, c, ext :: s == stem + [c] + ext && IsPackageName(stem) && c != '\n' && (ext == lo || ext == up)
  {
    if IsMetadataName(s, lo, up) {
      var stem, c, ext := s[..|s| - 4], s[|s| - 4], s[|s| - 3..];
      assert s == stem + [c] + ext;
    }
    if exists stem, c, ext :: s == stem + [c] + ext && IsPackageName(stem) && c != '\n' && (ext == lo || ext == up) {
      var stem, c, ext :| s == stem + [c] + ext && IsPackageName(stem) && c != '\n' && (ext == lo || ext == up);
      assert s[..|s| - 4] == stem && s[|s| - 4] == c && s[|s| - 3..] == ext;
    }
  }

  /** Because the `.` is unescaped, any character may stand before `csv`, a digit or `_` included. */
  lemma UnescapedDotAcceptsAnySeparator()
    ensures IsFtkCsvName("M12345_ER_0001.csv")
    ensures IsFtkCsvName("M12345_ER_0001_csv")
    ensures IsFtkCsvName("M12345_ER_00012CSV")
    ensures !IsFtkCsvName("M12345_ER_0001\ncsv")
    ensures !IsFtkCsvName("M12345_ER_0001.tsv") && IsFtkTsvName("M12345_ER_0001.tsv")
  {
    var s := "M12345_ER_0001";
    assert DigitsBetween(s, 1, 6) && s[6] == '_';
    DigitRunEndUnique(s, 1, 6);
    assert s[7..9] == "ER" && AllDigits(s[10..]);
    assert IsPackageName(s);
    assert "M12345_ER_0001.csv"[..14] == s && "M12345_ER_0001.csv"[15..] == "csv";
    assert "M12345_ER_0001_csv"[..14] == s && "M12345_ER_0001_csv"[15..] == "csv";
    assert "M12345_ER_00012CSV"[..14] == s && "M12345_ER_00012CSV"[15..] == "CSV";
    assert "M12345_ER_0001.tsv"[..14] == s && "M12345_ER_0001.tsv"[15..] == "tsv";
  }

  /** No name is both a CSV and a TSV metadata name. */
  lemma CsvAndTsvExclusive(s: string)
    ensures !(IsFtkCsvName(s) && IsFtkTsvName(s))
  {
  }

  // ---------------------------------------------------------------------------
  // The ten rules
  // ---------------------------------------------------------------------------

  function ChildNames(pkg: Node): set<string>
    requires pkg.Dir?
  {
    set c | c in pkg.children :: c.name
  }

  predicate IsAccess(n: Node) {
    n.name == "access"
  }

  predicate IsBagDeclaration(n: Node) {
    n.name == "bagit.txt"
  }

  predicate IsHidden(n: Node) {
    StartsWith(n.name, ".") || StartsWith(n.name, "Thumbs")
  }

  predicate IsFile(n: Node) {
    n.File?
  }

  predicate IsEmptyFile(n: Node) {
    n.File? && n.size == 0
  }

  /** The files among the entries `cs`, in order (`[x for x in cs if x.is_file()]`). */
  function FilesOf(cs: seq<Node>): (fs: seq<Node>)
    ensures |fs| <= |cs|
    ensures forall f :: f in fs ==> f.File? && f in cs
    ensures forall c :: c in cs && c.File? ==> c in fs
  {
    if cs == [] then []
    else
      var fs := FilesOf(cs[..|cs| - 1]);
      var last := cs[|cs| - 1];
      assert forall c :: c in cs ==> c in cs[..|cs| - 1] || c == last;
      if last.File? then fs + [last] else fs
  }

  /** `FilesOf` keeps every file as often as it occurs and drops every directory: the counts the metadata rules read. */
  lemma {:induction false} FilesOfCount(cs: seq<Node>)
    ensures forall c :: multiset(FilesOf(cs))[c] == if c.File? then multiset(cs)[c] else 0
  {
    if cs != [] {
      var init, last := cs[..|cs| - 1], cs[|cs| - 1];
      FilesOfCount(init);
      assert cs == init + [last];
    }
  }

  predicate PackageHasValidName(pkg: Node) {
    IsPackageName(pkg.name)
  }

  predicate PackageHasValidSubfolderNames(pkg: Node)
    requires pkg.Dir?
  {
    ChildNames(pkg) == {"objects", "metadata"}
  }

  predicate ObjectsFolderHasNoAccessFolder(pkg: Node) {
    !exists e :: e in Below(pkg) && IsAccess(e.node)
  }

  predicate MetadataFolderIsFlat(pkg: Node)
    requires HasSubdir(pkg, "metadata")
  {
    !exists c :: c in Subdir(pkg, "metadata").children && c.Dir?
  }

  /** The files directly inside `metadata`. */
  function MetadataFiles(pkg: Node): seq<Node>
    requires HasSubdir(pkg, "metadata")
  {
    FilesOf(Subdir(pkg, "metadata").children)
  }

  predicate MetadataFolderHasOneOrLessFile(pkg: Node)
    requires HasSubdir(pkg, "metadata")
  {
    |MetadataFiles(pkg)| <= 1
  }

  /** What `metadata_file_has_valid_filename` decides (computed by the method of that name below). */
  predicate MetadataFilenameOk(pkg: Node)
    requires HasSubdir(pkg, "metadata")
  {
    |MetadataFiles(pkg)| == 1 && IsFtkCsvName(MetadataFiles(pkg)[0].name)
  }

  /**
   * `objects` is whatever entry the glob found; when it is a regular file,
   * `rglob('*')` finds nothing in it and the rule fails.
   */
  predicate ObjectsFolderHasFile(pkg: Node)
    requires Glob(pkg, "objects").Some?
  {
    exists e :: e in Below(Glob(pkg, "objects").value) && IsFile(e.node)
  }

  predicate PackageHasNoBag(pkg: Node) {
    !exists e :: e in Below(pkg) && IsBagDeclaration(e.node)
  }

  predicate PackageHasNoHiddenFile(pkg: Node) {
    !exists e :: e in Below(pkg) && IsHidden(e.node)
  }

  predicate PackageHasNoZeroBytesFile(pkg: Node) {
    !exists e :: e in Below(pkg) && IsEmptyFile(e.node)
  }

  // Each rule that searches the walk is a search of the whole tree, at any depth.

  lemma NoAccessFolderAtAnyDepth(pkg: Node)
    ensures ObjectsFolderHasNoAccessFolder(pkg) <==> !Somewhere(pkg, IsAccess)
  {
    BelowSomewhere(pkg, IsAccess);
  }

  lemma NoBagAtAnyDepth(pkg: Node)
    ensures PackageHasNoBag(pkg) <==> !Somewhere(pkg, IsBagDeclaration)
  {
    BelowSomewhere(pkg, IsBagDeclaration);
  }

  lemma NoHiddenFileAtAnyDepth(pkg: Node)
    ensures PackageHasNoHiddenFile(pkg) <==> !Somewhere(pkg, IsHidden)
  {
    BelowSomewhere(pkg, IsHidden);
  }

  lemma NoZeroBytesFileAtAnyDepth(pkg: Node)
    ensures PackageHasNoZeroBytesFile(pkg) <==> !Somewhere(pkg, IsEmptyFile)
  {
    BelowSomewhere(pkg, IsEmptyFile);
  }

  /** `objects` has a file iff some file lies somewhere below it; empty subfolders do not count. */
  lemma ObjectsFileAtAnyDepth(pkg: Node)
    requires Glob(pkg, "objects").Some?
    ensures ObjectsFolderHasFile(pkg) <==> Somewhere(Glob(pkg, "objects").value, IsFile)
    ensures Glob(pkg, "objects").value.File? ==> !ObjectsFolderHasFile(pkg)
  {
    BelowSomewhere(Glob(pkg, "objects").value, IsFile);
  }

  /** Two or more metadata files always fail the filename rule, and so does none. */
  lemma MetadataFilenameNeedsExactlyOneFile(pkg: Node)
    requires HasSubdir(pkg, "metadata")
    ensures MetadataFilenameOk(pkg) ==> MetadataFolderHasOneOrLessFile(pkg) && |MetadataFiles(pkg)| == 1
    ensures |MetadataFiles(pkg)| != 1 ==> !MetadataFilenameOk(pkg)
  {
  }

  // ---------------------------------------------------------------------------
  // metadata_file_has_valid_filename, with the warnings it logs
  // ---------------------------------------------------------------------------

  /** The warnings `metadata_file_has_valid_filename` logs. */
  datatype MetadataWarning =
    | TsvFile(name: string)      // the single file is a TSV export
    | UnknownFile(name: string)  // the single file has an unknown name
    | TsvFiles                   // several files, some of them TSV exports
    | NonFtkFiles                // several files, some of them not FTK exports
    | SeveralCsvFiles            // several files, all of them CSV exports
    | NoFiles                    // the metadata folder has no file

  /** A file that is neither a CSV nor a TSV export. */
  predicate IsUnknownMetadata(f: Node) {
    !IsFtkCsvName(f.name) && !IsFtkTsvName(f.name)
  }

  predicate IsTsvMetadata(f: Node) {
    !IsFtkCsvName(f.name) && IsFtkTsvName(f.name)
  }

  /** The warnings logged for the metadata files `files`, in the order they are logged. */
  function MetadataWarnings(files: seq<Node>): seq<MetadataWarning> {
    if |files| == 1 then
      var name := files[0].name;
      if IsFtkCsvName(name) then [] else if IsFtkTsvName(name) then [TsvFile(name)] else [UnknownFile(name)]
    else if |files| > 1 then
      var tsv := exists f :: f in files && IsTsvMetadata(f);
      var unknown := exists f :: f in files && IsUnknownMetadata(f);
      (if tsv then [TsvFiles] else []) + (if unknown then [NonFtkFiles] else []) +
      (if !tsv && !unknown then [SeveralCsvFiles] else [])
    else [NoFiles]
  }

  /** The rule fails exactly when it logs a warning: a failure never goes unexplained. */
  lemma MetadataWarningsExplainFailure(pkg: Node)
    requires HasSubdir(pkg, "metadata")
    ensures MetadataWarnings(MetadataFiles(pkg)) == [] <==> MetadataFilenameOk(pkg)
  {
  }

  /** The loop of `metadata_file_has_valid_filename` that sorts the files into CSV, TSV and unknown exports. */
  method SortMetadataFiles(files: seq<Node>) returns (goodCsv: seq<Node>, goodTsv: seq<Node>, unknownFiles: seq<Node>)
    ensures |goodCsv| + |goodTsv| + |unknownFiles| == |files|
    ensures forall f :: f in goodCsv <==> f in files && IsFtkCsvName(f.name)
    ensures forall f :: f in goodTsv <==> f in files && IsTsvMetadata(f)
    ensures forall f :: f in unknownFiles <==> f in files && IsUnknownMetadata(f)
  {
    goodCsv, goodTsv, unknownFiles := [], [], [];
    for i := 0 to |files|
      invariant |goodCsv| + |goodTsv| + |unknownFiles| == i
      invariant forall f :: f in goodCsv <==> f in files[..i] && IsFtkCsvName(f.name)
      invariant forall f :: f in goodTsv <==> f in files[..i] && IsTsvMetadata(f)
      invariant forall f :: f in unknownFiles <==> f in files[..i] && IsUnknownMetadata(f)
    {
      assert files[..i + 1] == files[..i] + [files[i]];
      var file := files[i];
      if IsFtkCsvName(file.name) {
        goodCsv := goodCsv + [file];
      } else if IsFtkTsvName(file.name) {
        goodTsv := goodTsv + [file];
      } else {
        unknownFiles := unknownFiles + [file];
      }
    }
    assert files[..|files|] == files;
  }

  method MetadataFileHasValidFilename(pkg: Node) returns (ok: bool, warnings: seq<MetadataWarning>)
    requires HasSubdir(pkg, "metadata")
    ensures ok == MetadataFilenameOk(pkg)
    ensures warnings == MetadataWarnings(MetadataFiles(pkg))
  {
    var metadataPath := Subdir(pkg, "metadata");
    var mdFiles := FilesOf(metadataPath.children);
    if |mdFiles| == 1 {
      var name := mdFiles[0].name;
      if IsFtkCsvName(name) {
        ok, warnings := true, [];
      } else if IsFtkTsvName(name) {
        ok, warnings := false, [TsvFile(name)];
      } else {
        ok, warnings := false, [UnknownFile(name)];
      }
    } else if |mdFiles| > 1 {
      var goodCsv, goodTsv, unknownFiles := SortMetadataFiles(mdFiles);
      if |goodTsv| > 0 {
        assert goodTsv[0] in goodTsv;
      }
      if |unknownFiles| > 0 {
        assert unknownFiles[0] in unknownFiles;
      }
      warnings := [];
      if |goodTsv| > 0 || |unknownFiles| > 0 {
        if |goodTsv| > 0 {
          warnings := warnings + [TsvFiles];
        }
        if |unknownFiles| > 0 {
          warnings := warnings + [NonFtkFiles];
        }
        ok := false;
      } else {
        // `any(good_csv)`: with no TSV and no unknown file, every file is a CSV export
        assert |goodCsv| > 0;
        warnings := [SeveralCsvFiles];
        ok := false;
      }
    } else {
      ok, warnings := false, [NoFiles];
    }
  }

  // ---------------------------------------------------------------------------
  // lint_package
  // ---------------------------------------------------------------------------

  /** The ten rules, by the name of the function that checks each. */
  datatype Check =
    | ValidName | ValidSubfolderNames | NoAccessFolder | MetadataFlat | ObjectsHaveFile
    | NoBag | NoZeroBytesFile | OneOrLessMetadataFile | MetadataFilename | NoHiddenFile

  /** The advisory rules (`less_strict_tests`), in the order they run. */
  const AdvisoryChecks: seq<Check> := [OneOrLessMetadataFile, MetadataFilename, NoHiddenFile]

  /** The strict rules (`strict_tests`), in the order they run. */
  const StrictChecks: seq<Check> :=
    [ValidName, ValidSubfolderNames, NoAccessFolder, MetadataFlat, ObjectsHaveFile, NoBag, NoZeroBytesFile]

  /**
   * A package every rule can be run on without an error: a directory with
   * a `metadata` directory and an entry named `objects`. Without either, a
   * rule reads a loop variable that was never bound; a `metadata` that is a
   * regular file cannot be listed.
   */
  predicate Lintable(pkg: Node) {
    pkg.Dir? && HasSubdir(pkg, "metadata") && Glob(pkg, "objects").Some?
  }

  predicate Passes(c: Check, pkg: Node)
    requires Lintable(pkg)
  {
    match c
    case ValidName => PackageHasValidName(pkg)
    case ValidSubfolderNames => PackageHasValidSubfolderNames(pkg)
    case NoAccessFolder => ObjectsFolderHasNoAccessFolder(pkg)
    case MetadataFlat => MetadataFolderIsFlat(pkg)
    case ObjectsHaveFile => ObjectsFolderHasFile(pkg)
    case NoBag => PackageHasNoBag(pkg)
    case NoZeroBytesFile => PackageHasNoZeroBytesFile(pkg)
    case OneOrLessMetadataFile => MetadataFolderHasOneOrLessFile(pkg)
    case MetadataFilename => MetadataFilenameOk(pkg)
    case NoHiddenFile => PackageHasNoHiddenFile(pkg)
  }

  /** All seven strict rules pass. */
  predicate StrictRulesPass(pkg: Node)
    requires Lintable(pkg)
  {
    PackageHasValidName(pkg) && PackageHasValidSubfolderNames(pkg) && ObjectsFolderHasNoAccessFolder(pkg) &&
    MetadataFolderIsFlat(pkg) && ObjectsFolderHasFile(pkg) && PackageHasNoBag(pkg) && PackageHasNoZeroBytesFile(pkg)
  }

  /** All three advisory rules pass. */
  predicate AdvisoryRulesPass(pkg: Node)
    requires Lintable(pkg)
  {
    MetadataFolderHasOneOrLessFile(pkg) && MetadataFilenameOk(pkg) && PackageHasNoHiddenFile(pkg)
  }

  /** Runs one rule, as `test(package)` does. */
  method RunCheck(c: Check, pkg: Node) returns (ok: bool)
    requires Lintable(pkg)
    ensures ok == Passes(c, pkg)
  {
    match c {
      case MetadataFilename =>
        var warnings;
        ok, warnings := MetadataFileHasValidFilename(pkg);
      case _ =>
        ok := Passes(c, pkg);
    }
  }

  /** The outcome of each check of `cs`, in order. */
  function Outcomes(cs: seq<Check>, pkg: Node): (outs: seq<bool>)
    requires Lintable(pkg)
    ensures |outs| == |cs|
    ensures forall i :: 0 <= i < |cs| ==> outs[i] == Passes(cs[i], pkg)
  {
    seq(|cs|, i requires 0 <= i < |cs| => Passes(cs[i], pkg))
  }

  /** The status left by `for ok in outs: if not ok: result = onFail`, started at `r`. */
  function Fold(outs: seq<bool>, r: Status, onFail: Status): Status {
    if outs == [] then r else Fold(outs[1..], if outs[0] then r else onFail, onFail)
  }

  /** The verdict: the advisory loop first, from `valid`, then the strict loop. */
  function Verdict(pkg: Node): Status
    requires Lintable(pkg)
  {
    Fold(Outcomes(StrictChecks, pkg), Fold(Outcomes(AdvisoryChecks, pkg), Valid, NeedsReview), Invalid)
  }

  /** A regular file named `objects` makes the package invalid, without an error. */
  lemma ObjectsAsFileInvalid(pkg: Node)
    requires Lintable(pkg) && Glob(pkg, "objects").value.File?
    ensures Verdict(pkg) == Invalid
  {
    ObjectsFileAtAnyDepth(pkg);
    VerdictPrecedence(pkg);
  }

  /** A loop that overwrites on failure ends at `onFail` iff some check failed, else where it started. */
  lemma {:induction false} FoldOutcome(outs: seq<bool>, r: Status, onFail: Status)
    ensures Fold(outs, r, onFail) == if false in outs then onFail else r
  {
    if outs != [] {
      FoldOutcome(outs[1..], if outs[0] then r else onFail, onFail);
      assert false in outs <==> !outs[0] || false in outs[1..];
    }
  }

  lemma StrictOutcomes(pkg: Node)
    requires Lintable(pkg)
    ensures false !in Outcomes(StrictChecks, pkg) <==> StrictRulesPass(pkg)
  {
    var outs := Outcomes(StrictChecks, pkg);
    assert outs == [outs[0], outs[1], outs[2], outs[3], outs[4], outs[5], outs[6]];
  }

  lemma AdvisoryOutcomes(pkg: Node)
    requires Lintable(pkg)
    ensures false !in Outcomes(AdvisoryChecks, pkg) <==> AdvisoryRulesPass(pkg)
  {
    var outs := Outcomes(AdvisoryChecks, pkg);
    assert outs == [outs[0], outs[1], outs[2]];
  }

  /**
   * The precedence of the verdict: `invalid` iff a strict rule fails;
   * `needs review` iff no strict rule fails and an advisory one does;
   * `valid` iff every rule passes.
   */
  lemma VerdictPrecedence(pkg: Node)
    requires Lintable(pkg)
    ensures Verdict(pkg) == Invalid <==> !StrictRulesPass(pkg)
    ensures Verdict(pkg) == NeedsReview <==> StrictRulesPass(pkg) && !AdvisoryRulesPass(pkg)
    ensures Verdict(pkg) == Valid <==> StrictRulesPass(pkg) && AdvisoryRulesPass(pkg)
  {
    var advisory := Fold(Outcomes(AdvisoryChecks, pkg), Valid, NeedsReview);
    FoldOutcome(Outcomes(AdvisoryChecks, pkg), Valid, NeedsReview);
    FoldOutcome(Outcomes(StrictChecks, pkg), advisory, Invalid);
    StrictOutcomes(pkg);
    AdvisoryOutcomes(pkg);
  }

  /** The checks of `cs` that fail, in order: what is logged, since no check is skipped. */
  function Failing(cs: seq<Check>, pkg: Node): (fs: seq<Check>)
    requires Lintable(pkg)
    ensures forall c :: c in fs <==> c in cs && !Passes(c, pkg)
  {
    if cs == [] then []
    else
      var last := cs[|cs| - 1];
      assert forall c :: c in cs <==> c in cs[..|cs| - 1] || c == last;
      Failing(cs[..|cs| - 1], pkg) + (if Passes(last, pkg) then [] else [last])
  }

  /** One step of a check loop, stated on the outcomes. */
  lemma FoldStep(outs: seq<bool>, i: nat, r: Status, onFail: Status)
    requires i < |outs|
    ensures Fold(outs[i..], r, onFail) == Fold(outs[i + 1..], if outs[i] then r else onFail, onFail)
  {
    assert outs[i..][1..] == outs[i + 1..];
  }

  /** The loop over `cs` ending at the status it was already folding towards. */
  method RunChecks(cs: seq<Check>, pkg: Node, r0: Status, onFail: Status) returns (result: Status, failed: seq<Check>)
    requires Lintable(pkg)
    ensures result == Fold(Outcomes(cs, pkg), r0, onFail)
    ensures failed == Failing(cs, pkg)
  {
    ghost var outs := Outcomes(cs, pkg);
    result := r0;
    failed := [];
    for i := 0 to |cs|
      invariant Fold(outs[i..], result, onFail) == Fold(outs, r0, onFail)
      invariant failed == Failing(cs[..i], pkg)
    {
      assert cs[..i + 1][..i] == cs[..i];
      FoldStep(outs, i, result, onFail);
      var ok := RunCheck(cs[i], pkg);
      if !ok {
        result := onFail;
        failed := failed + [cs[i]];
      }
    }
    assert cs[..|cs|] == cs;
  }

  /**
   * `lint_package`: runs the three advisory rules and then the seven
   * strict ones, every one of them, and returns the verdict together with
   * the rules that failed (the ones it logs).
   */
  method LintPackage(pkg: Node) returns (result: Status, failed: seq<Check>)
    requires Lintable(pkg)
    ensures result == Verdict(pkg)
    ensures failed == Failing(AdvisoryChecks, pkg) + Failing(StrictChecks, pkg)
    ensures forall c :: c in failed <==> !Passes(c, pkg)
  {
    var advisoryFailed, strictFailed;
    result, advisoryFailed := RunChecks(AdvisoryChecks, pkg, Valid, NeedsReview);
    result, strictFailed := RunChecks(StrictChecks, pkg, result, Invalid);
    failed := advisoryFailed + strictFailed;
    forall c ensures c in AdvisoryChecks || c in StrictChecks {
      match c {
        case ValidName =>
        case ValidSubfolderNames =>
        case NoAccessFolder =>
        case MetadataFlat =>
        case ObjectsHaveFile =>
        case NoBag =>
        case NoZeroBytesFile =>
        case OneOrLessMetadataFile =>
        case MetadataFilename =>
        case NoHiddenFile =>
      }
    }
  }

  // ---------------------------------------------------------------------------
  // The tally in `main`
  // ---------------------------------------------------------------------------

  /** The names of the packages of `pkgs` whose verdict is `s`, in order. */
  function NamesWith(pkgs: seq<Node>, s: Status): seq<string>
    requires forall p :: p in pkgs ==> Lintable(p)
  {
    if pkgs == [] then []
    else
      var last := pkgs[|pkgs| - 1];
      NamesWith(pkgs[..|pkgs| - 1], s) + (if Verdict(last) == s then [last.name] else [])
  }

  /** Every package lands in exactly one of the three lists. */
  lemma {:induction false} NamesPartition(pkgs: seq<Node>)
    requires forall p :: p in pkgs ==> Lintable(p)
    ensures |NamesWith(pkgs, Valid)| + |NamesWith(pkgs, Invalid)| + |NamesWith(pkgs, NeedsReview)| == |pkgs|
  {
    if pkgs != [] {
      NamesPartition(pkgs[..|pkgs| - 1]);
    }
  }

  /** A name is listed under `s` iff some package with that name has verdict `s`. */
  lemma {:induction false} NamesWithMembers(pkgs: seq<Node>, s: Status, name: string)
    requires forall p :: p in pkgs ==> Lintable(p)
    ensures name in NamesWith(pkgs, s) <==> exists p :: p in pkgs && p.name == name && Verdict(p) == s
  {
    if pkgs != [] {
      var init, last := pkgs[..|pkgs| - 1], pkgs[|pkgs| - 1];
      NamesWithMembers(init, s, name);
      assert forall p :: p in pkgs <==> p in init || p == last;
    }
  }

  /** The loop of `main`: counts the packages and sorts their names by verdict. */
  method LintPackages(packages: seq<Node>)
    returns (counter: nat, valid: seq<string>, invalid: seq<string>, needsReview: seq<string>)
    requires forall p :: p in packages ==> Lintable(p)
    ensures counter == |packages|
    ensures valid == NamesWith(packages, Valid)
    ensures invalid == NamesWith(packages, Invalid)
    ensures needsReview == NamesWith(packages, NeedsReview)
    ensures |valid| + |invalid| + |needsReview| == counter
  {
    valid, invalid, needsReview := [], [], [];
    counter := 0;
    for i := 0 to |packages|
      invariant counter == i
      invariant valid == NamesWith(packages[..i], Valid)
      invariant invalid == NamesWith(packages[..i], Invalid)
      invariant needsReview == NamesWith(packages[..i], NeedsReview)
    {
      assert packages[..i + 1][..i] == packages[..i];
      var package := packages[i];
      counter := counter + 1;
      var result, failed := LintPackage(package);
      if result == Valid {
        valid := valid + [package.name];
      } else if result == Invalid {
        invalid := invalid + [package.name];
      } else {
        needsReview := needsReview + [package.name];
      }
    }
    assert packages[..|packages|] == packages;
    NamesPartition(packages);
  }
}
