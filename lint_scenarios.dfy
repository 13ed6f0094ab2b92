/**
 * The package of the linter's test fixture, `M12345_ER_0001` with one
 * object file and its FTK metadata CSV, and the variants the integration
 * tests build from it, with the verdict the model gives each.
 */
module LintScenarios {
  import opened Base
  import opened Text
  import opened FsTree
  import opened LintEr

  const ObjectFile: Node := File("randomFile.txt", 21)
  const MetadataCsv: Node := File("M12345_ER_0001.csv", 23)

  function Package(objects: seq<Node>, metadata: seq<Node>): Node {
    Dir("M12345_ER_0001", [Dir("objects", objects), Dir("metadata", metadata)])
  }

  /** The good package of the fixture. */
  function GoodPackage(): Node {
    Package([ObjectFile], [MetadataCsv])
  }

  /** With `objects/bagfolder/bagit.txt` added. */
  function BaggedPackage(): Node {
    Package([ObjectFile, Dir("bagfolder", [File("bagit.txt", 0)])], [MetadataCsv])
  }

  /** With a second metadata CSV `M12345_ER_0002.csv` holding `a`. */
  function TwoCsvPackage(): Node {
    Package([ObjectFile], [MetadataCsv, File("M12345_ER_0002.csv", 1)])
  }

  lemma FixtureName()
    ensures IsPackageName("M12345_ER_0001")
    ensures IsFtkCsvName("M12345_ER_0001.csv")
    ensures !IsPackageName("M12345")
  {
    var s := "M12345_ER_0001";
    assert DigitsBetween(s, 1, 6) && s[6] == '_';
    DigitRunEndUnique(s, 1, 6);
    assert s[7..9] == "ER" && AllDigits(s[10..]);
    assert "M12345_ER_0001.csv"[..14] == s && "M12345_ER_0001.csv"[15..] == "csv";
    var t := "M12345";
    assert DigitsBetween(t, 1, 6);
    DigitRunEndUnique(t, 1, 6);
  }

  /** A search of a package of this shape is a search of its two folders and what they hold. */
  lemma PackageSomewhere(objects: seq<Node>, metadata: seq<Node>, p: Node -> bool)
    ensures Somewhere(Package(objects, metadata), p) <==>
      p(Dir("objects", objects)) || Somewhere(Dir("objects", objects), p) ||
      p(Dir("metadata", metadata)) || Somewhere(Dir("metadata", metadata), p)
  {
    var pkg := Package(objects, metadata);
    assert pkg.children[0] == Dir("objects", objects) && pkg.children[1] == Dir("metadata", metadata);
  }

  /** A search of a folder holding only files looks at those files alone. */
  lemma FlatSomewhere(name: string, files: seq<Node>, p: Node -> bool)
    requires forall i :: 0 <= i < |files| ==> files[i].File?
    ensures Somewhere(Dir(name, files), p) <==> exists i :: 0 <= i < |files| && p(files[i])
  {
  }

  /** Both folders are found, and they are what the package was built with. */
  lemma PackageFolders(objects: seq<Node>, metadata: seq<Node>)
    ensures Lintable(Package(objects, metadata))
    ensures Subdir(Package(objects, metadata), "objects") == Dir("objects", objects)
    ensures Subdir(Package(objects, metadata), "metadata") == Dir("metadata", metadata)
    ensures PackageHasValidSubfolderNames(Package(objects, metadata))
  {
    var pkg := Package(objects, metadata);
    assert pkg.children[..1] == [Dir("objects", objects)];
    assert pkg.children[..1][..0] == [];
    assert Glob(pkg, "metadata") == Some(Dir("metadata", metadata));
    assert Glob(pkg, "objects") == Some(Dir("objects", objects));
    assert ChildNames(pkg) == {"objects", "metadata"};
  }

  /** The rules that search the whole package pass on one whose two folders hold only these files. */
  lemma SearchRulesPass(objects: seq<Node>, metadata: seq<Node>)
    requires forall i :: 0 <= i < |objects| ==> objects[i].File? && objects[i].size > 0 && !IsHidden(objects[i])
    requires forall i :: 0 <= i < |objects| ==> objects[i].name != "access" && objects[i].name != "bagit.txt"
    requires forall i :: 0 <= i < |metadata| ==> metadata[i].File? && metadata[i].size > 0 && !IsHidden(metadata[i])
    requires forall i :: 0 <= i < |metadata| ==> metadata[i].name != "access" && metadata[i].name != "bagit.txt"
    ensures var pkg := Package(objects, metadata);
      ObjectsFolderHasNoAccessFolder(pkg) && PackageHasNoBag(pkg) &&
      PackageHasNoHiddenFile(pkg) && PackageHasNoZeroBytesFile(pkg)
  {
    var pkg := Package(objects, metadata);
    PlainName("objects");
    PlainName("metadata");
    PackageSomewhere(objects, metadata, IsAccess);
    FlatSomewhere("objects", objects, IsAccess);
    FlatSomewhere("metadata", metadata, IsAccess);
    NoAccessFolderAtAnyDepth(pkg);
    PackageSomewhere(objects, metadata, IsBagDeclaration);
    FlatSomewhere("objects", objects, IsBagDeclaration);
    FlatSomewhere("metadata", metadata, IsBagDeclaration);
    NoBagAtAnyDepth(pkg);
    PackageSomewhere(objects, metadata, IsHidden);
    FlatSomewhere("objects", objects, IsHidden);
    FlatSomewhere("metadata", metadata, IsHidden);
    NoHiddenFileAtAnyDepth(pkg);
    PackageSomewhere(objects, metadata, IsEmptyFile);
    FlatSomewhere("objects", objects, IsEmptyFile);
    FlatSomewhere("metadata", metadata, IsEmptyFile);
    NoZeroBytesFileAtAnyDepth(pkg);
  }

  /** A name starting with neither `.` nor `T` is not hidden. */
  lemma PlainName(name: string)
    requires |name| > 0 && name[0] != '.' && name[0] != 'T'
    ensures !StartsWith(name, ".") && !StartsWith(name, "Thumbs")
  {
    assert name[..1][0] == name[0];
    if |name| >= 6 {
      assert name[..6][0] == name[0];
    }
  }

  lemma FixtureFilesPlain()
    ensures !IsHidden(ObjectFile) && !IsHidden(MetadataCsv) && !IsHidden(File("M12345_ER_0002.csv", 1))
  {
    PlainName(ObjectFile.name);
    PlainName(MetadataCsv.name);
    PlainName("M12345_ER_0002.csv");
  }

  /** A plain, non-empty file, neither hidden nor named like a rule's target. */
  predicate PlainFile(f: Node) {
    f.File? && f.size > 0 && !IsHidden(f) && f.name != "access" && f.name != "bagit.txt"
  }

  /** Filtering a folder that holds only files keeps all of them. */
  lemma {:induction false} FilesOfFiles(cs: seq<Node>)
    requires forall i :: 0 <= i < |cs| ==> cs[i].File?
    ensures FilesOf(cs) == cs
  {
    if cs != [] {
      FilesOfFiles(cs[..|cs| - 1]);
      assert cs[..|cs| - 1] + [cs[|cs| - 1]] == cs;
    }
  }

  /**
   * A package with a valid name whose `objects` holds one plain file and
   * whose `metadata` holds only plain files passes every strict rule and
   * the hidden-file rule, whatever the metadata files are called.
   */
  lemma FixtureShapeRules(obj: Node, metadata: seq<Node>)
    requires PlainFile(obj)
    requires forall i :: 0 <= i < |metadata| ==> PlainFile(metadata[i])
    ensures Lintable(Package([obj], metadata))
    ensures StrictRulesPass(Package([obj], metadata)) && PackageHasNoHiddenFile(Package([obj], metadata))
    ensures MetadataFiles(Package([obj], metadata)) == metadata
  {
    var pkg := Package([obj], metadata);
    FixtureName();
    PackageFolders([obj], metadata);
    SearchRulesPass([obj], metadata);
    ObjectsFileAtAnyDepth(pkg);
    assert Dir("objects", [obj]).children[0] == obj;
    FilesOfFiles(metadata);
    assert forall c :: c in metadata ==> c.File?;
  }

  lemma FixtureFilesArePlain()
    ensures PlainFile(ObjectFile) && PlainFile(MetadataCsv) && PlainFile(File("M12345_ER_0002.csv", 1))
  {
    FixtureFilesPlain();
  }

  /** The fixture itself is valid. */
  lemma GoodPackageValid()
    ensures Lintable(GoodPackage()) && Verdict(GoodPackage()) == Valid
  {
    FixtureFilesArePlain();
    FixtureName();
    FixtureShapeRules(ObjectFile, [MetadataCsv]);
    var pkg := GoodPackage();
    assert pkg == Package([ObjectFile], [MetadataCsv]);
    assert StrictRulesPass(pkg) && AdvisoryRulesPass(pkg);
    VerdictPrecedence(pkg);
  }

  /** A `bagit.txt` anywhere makes the package invalid. */
  lemma BaggedPackageInvalid()
    ensures Lintable(BaggedPackage()) && Verdict(BaggedPackage()) == Invalid
  {
    var pkg := BaggedPackage();
    var bag := Dir("bagfolder", [File("bagit.txt", 0)]);
    assert Glob(pkg, "metadata") == Some(Dir("metadata", [MetadataCsv]));
    assert Glob(pkg, "objects") == Some(Dir("objects", [ObjectFile, bag]));
    NoBagAtAnyDepth(pkg);
    assert IsBagDeclaration(bag.children[0]);
    assert Somewhere(bag, IsBagDeclaration);
    assert pkg.children[0].children[1] == bag;
    assert Somewhere(pkg.children[0], IsBagDeclaration);
    VerdictPrecedence(pkg);
  }

  /** A second metadata CSV passes every strict rule but fails two advisory ones: the package needs review. */
  lemma TwoCsvPackageNeedsReview()
    ensures Lintable(TwoCsvPackage()) && Verdict(TwoCsvPackage()) == NeedsReview
    ensures !MetadataFolderHasOneOrLessFile(TwoCsvPackage()) && !MetadataFilenameOk(TwoCsvPackage())
  {
    FixtureFilesArePlain();
    FixtureShapeRules(ObjectFile, [MetadataCsv, File("M12345_ER_0002.csv", 1)]);
    VerdictPrecedence(TwoCsvPackage());
  }
}
