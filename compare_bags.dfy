/**
 * Reconciliation of bags held in two places, a directory of possible
 * duplicates and the authoritative main directory: find the bags
 * (directories with a six-digit name) in each tree, split their ids into
 * those found on one side only and those found on both, and sort each id
 * found on both sides by the validity of its two copies and, when both
 * are valid, by whether their payload manifests agree.
 *
 * The bag library is not modelled: bag validation is an oracle on the
 * bag's path and the payload manifest a map from file name to checksum
 * that another oracle gives for the bag's path.
 */
module CompareBags {
  import opened Base
  import opened Text
  import opened FsTree

  /** A path as its components, outermost first. */
  type Path = seq<string>

  // ---------------------------------------------------------------------------
  // validate_dir_paths
  // ---------------------------------------------------------------------------

  /** `Path(p).is_dir()` for a path that names nothing, or names a file or a directory. */
  predicate IsDirPath(p: Option<Node>) {
    p.Some? && p.value.Dir?
  }

  /**
   * `validate_dir_paths`: `False` when exactly one of the two paths is not
   * a directory, `True` when both are; when neither is, the function only
   * logs and falls off its end, returning `None`.
   */
  function ValidateDirPaths(dup: Option<Node>, main: Option<Node>): (r: Option<bool>)
    ensures r == None <==> !IsDirPath(dup) && !IsDirPath(main)
    ensures r == Some(true) <==> IsDirPath(dup) && IsDirPath(main)
  {
    if !IsDirPath(dup) && !IsDirPath(main) then None
    else if !IsDirPath(dup) then Some(false)
    else if !IsDirPath(main) then Some(false)
    else Some(true)
  }

  /** Python's truth value of the result, as `if validate_dir_paths(args):` reads it. */
  predicate Truthy(r: Option<bool>) {
    r == Some(true)
  }

  /** The comparison goes ahead iff both paths are directories; `None` counts as false. */
  lemma ProceedsIffBothDirs(dup: Option<Node>, main: Option<Node>)
    ensures Truthy(ValidateDirPaths(dup, main)) <==> IsDirPath(dup) && IsDirPath(main)
    ensures !IsDirPath(dup) || !IsDirPath(main) ==> !Truthy(ValidateDirPaths(dup, main))
  {
  }

  // ---------------------------------------------------------------------------
  // find_bags_in_dir
  // ---------------------------------------------------------------------------

  /**
   * `re.match('^\d{6}$', name)`: six digits, and since `$` also matches
   * just before a final newline, six digits followed by one `\n`.
   */
  predicate IsBagName(s: string) {
    (|s| == 6 && AllDigits(s)) || (|s| == 7 && AllDigits(s[..6]) && s[6] == '\n')
  }

  /** The walk entry is one `find_bags_in_dir` records: a directory with a bag name. */
  predicate IsBagEntry(e: Entry) {
    e.node.Dir? && IsBagName(e.node.name)
  }

  /** `dir` is a path to the directory `root`: its last component is the directory's name (`Path(dir).name`). */
  predicate Names(dir: Path, root: Node) {
    |dir| > 0 && dir[|dir| - 1] == root.name
  }

  /** The dictionary before the walk: the root itself, at the path `dir` it was given by, when its own name is a bag name. */
  function RootBags(dir: Path, root: Node): map<string, Path> {
    if IsBagName(root.name) then map[root.name := dir] else map[]
  }

  /** `m` updated with the entries `es` of the walk below the directory at `dir`, in order, later entries overwriting. */
  function AddBags(m: map<string, Path>, dir: Path, es: seq<Entry>): map<string, Path> {
    if es == [] then m
    else
      var m' := AddBags(m, dir, es[..|es| - 1]);
      var e := es[|es| - 1];
      if IsBagEntry(e) then m'[e.node.name := dir + e.path] else m'
  }

  /** What `find_bags_in_dir(dir)` returns for the directory `root` found at `dir`. */
  function BagsDict(dir: Path, root: Node): map<string, Path> {
    AddBags(RootBags(dir, root), dir, Below(root))
  }

  /** The loop of `find_bags_in_dir`: the root first, then every entry of `rglob('*')` in turn, each as `dir / relative path`. */
  method FindBagsInDir(dir: Path, root: Node) returns (bags: map<string, Path>)
    ensures bags == BagsDict(dir, root)
  {
    bags := map[];
    if IsBagName(root.name) {
      bags := bags[root.name := dir];
    }
    var entries := Below(root);
    for i := 0 to |entries|
      invariant bags == AddBags(RootBags(dir, root), dir, entries[..i])
    {
      assert entries[..i + 1][..i] == entries[..i];
      var p := entries[i];
      if p.node.Dir? && IsBagName(p.node.name) {
        bags := bags[p.node.name := dir + p.path];
      }
    }
    assert entries[..|entries|] == entries;
  }

  /** The path `p` lies at or below `dir` and ends with `k`. */
  predicate BagPathUnder(p: Path, dir: Path, k: string) {
    |p| > 0 && |dir| <= |p| && p[..|dir|] == dir && p[|p| - 1] == k
  }

  /** Every key of the fold is a bag name, kept with a path at or below `dir` that ends with the key. */
  lemma {:induction false} AddBagsWellFormed(m: map<string, Path>, dir: Path, es: seq<Entry>)
    requires forall k :: k in m ==> IsBagName(k) && BagPathUnder(m[k], dir, k)
    requires forall e :: e in es ==> |e.path| > 0 && e.path[|e.path| - 1] == e.node.name
    ensures var r := AddBags(m, dir, es);
      forall k :: k in r ==> IsBagName(k) && BagPathUnder(r[k], dir, k)
  {
    if es != [] {
      AddBagsWellFormed(m, dir, es[..|es| - 1]);
      var e := es[|es| - 1];
      assert e in es;
      assert (dir + e.path)[..|dir|] == dir;
    }
  }

  /** `find_bags_in_dir`: every key matches `^\d{6}$`, and its path lies at or below the directory searched and ends with the key. */
  lemma BagsWellFormed(dir: Path, root: Node)
    requires Names(dir, root)
    ensures forall k :: k in BagsDict(dir, root) ==> IsBagName(k) && BagPathUnder(BagsDict(dir, root)[k], dir, k)
  {
    assert dir[..|dir|] == dir;
    AddBagsWellFormed(RootBags(dir, root), dir, Below(root));
  }

  /** A key is in the fold iff it was there before or names a bag entry of `es`. */
  lemma {:induction false} AddBagsKeys(m: map<string, Path>, dir: Path, es: seq<Entry>, k: string)
    ensures k in AddBags(m, dir, es) <==> k in m || exists e :: e in es && IsBagEntry(e) && e.node.name == k
  {
    if es != [] {
      var init, last := es[..|es| - 1], es[|es| - 1];
      AddBagsKeys(m, dir, init, k);
      assert forall e :: e in es <==> e in init || e == last;
    }
  }

  /** Nothing is missed: an id is a key iff the root or some directory below it carries that bag name. */
  lemma BagsComplete(dir: Path, root: Node, k: string)
    ensures k in BagsDict(dir, root) <==>
      (IsBagName(root.name) && k == root.name) || exists e :: e in Below(root) && IsBagEntry(e) && e.node.name == k
  {
    AddBagsKeys(RootBags(dir, root), dir, Below(root), k);
  }

  /** Last one wins: the path kept for `k` is that of the last bag entry of `es` named `k`. */
  lemma {:induction false} AddBagsLastWins(m: map<string, Path>, dir: Path, es: seq<Entry>, i: nat)
    requires i < |es| && IsBagEntry(es[i])
    requires forall j :: i < j < |es| ==> !(IsBagEntry(es[j]) && es[j].node.name == es[i].node.name)
    ensures var r := AddBags(m, dir, es);
      es[i].node.name in r && r[es[i].node.name] == dir + es[i].path
  {
    if i < |es| - 1 {
      AddBagsLastWins(m, dir, es[..|es| - 1], i);
    }
  }

  /** A directory visited later by the walk overwrites an earlier one with the same name, and the root. */
  lemma BagsLastWins(dir: Path, root: Node, i: nat)
    requires i < |Below(root)| && IsBagEntry(Below(root)[i])
    requires forall j :: i < j < |Below(root)| ==>
      !(IsBagEntry(Below(root)[j]) && Below(root)[j].node.name == Below(root)[i].node.name)
    ensures var k := Below(root)[i].node.name;
      k in BagsDict(dir, root) && BagsDict(dir, root)[k] == dir + Below(root)[i].path
  {
    AddBagsLastWins(RootBags(dir, root), dir, Below(root), i);
  }

  /** Neither path lies at or below the other. */
  predicate Apart(p: Path, q: Path) {
    !(|p| <= |q| && q[..|p|] == p) && !(|q| <= |p| && p[..|q|] == q)
  }

  /**
   * Bags found under two directories neither of which contains the other
   * are kept at different paths, even when the trees look alike, so the
   * two copies of an id are told apart by whatever reads their paths.
   */
  lemma BagPathsApart(dupDir: Path, dup: Node, mainDir: Path, main: Node, id: string)
    requires Names(dupDir, dup) && Names(mainDir, main) && Apart(dupDir, mainDir)
    requires id in BagsDict(dupDir, dup) && id in BagsDict(mainDir, main)
    ensures BagsDict(dupDir, dup)[id] != BagsDict(mainDir, main)[id]
  {
    BagsWellFormed(dupDir, dup);
    BagsWellFormed(mainDir, main);
    PrefixesOfOnePath(BagsDict(dupDir, dup)[id], dupDir, mainDir);
  }

  /** Two prefixes of one path are not apart: the shorter is a prefix of the longer. */
  lemma PrefixesOfOnePath(p: Path, a: Path, b: Path)
    ensures |a| <= |p| && p[..|a|] == a && |b| <= |p| && p[..|b|] == b ==> !Apart(a, b)
  {
    if |a| <= |p| && |b| <= |p| && |a| <= |b| {
      assert p[..|b|][..|a|] == p[..|a|];
    }
    if |a| <= |p| && |b| <= |p| && |b| <= |a| {
      assert p[..|a|][..|b|] == p[..|b|];
    }
  }

  // ---------------------------------------------------------------------------
  // compare_bags_dicts
  // ---------------------------------------------------------------------------

  /** The three sets `compare_bags_dicts` returns. */
  datatype Split = Split(onlyInD: set<string>, onlyInM: set<string>, realDups: set<string>)

  function CompareBagsDicts(d: map<string, Path>, m: map<string, Path>): (r: Split)
    ensures forall k :: k in r.onlyInD <==> k in d && k !in m
    ensures forall k :: k in r.onlyInM <==> k in m && k !in d
    ensures forall k :: k in r.realDups <==> k in d && k in m
  {
    Split(d.Keys - m.Keys, m.Keys - d.Keys, d.Keys * m.Keys)
  }

  /** The three sets are pairwise disjoint and together hold every id of either side. */
  lemma SplitPartitions(d: map<string, Path>, m: map<string, Path>)
    ensures var r := CompareBagsDicts(d, m);
      r.onlyInD !! r.onlyInM && r.onlyInD !! r.realDups && r.onlyInM !! r.realDups &&
      r.onlyInD + r.onlyInM + r.realDups == d.Keys + m.Keys
  {
    var r := CompareBagsDicts(d, m);
    assert r.onlyInD + r.onlyInM + r.realDups == d.Keys + m.Keys;
  }

  /** Swapping the two dictionaries swaps the one-sided sets and keeps the shared ids. */
  lemma SplitSwap(d: map<string, Path>, m: map<string, Path>)
    ensures var r, s := CompareBagsDicts(d, m), CompareBagsDicts(m, d);
      s.onlyInD == r.onlyInM && s.onlyInM == r.onlyInD && s.realDups == r.realDups
  {
    var r, s := CompareBagsDicts(d, m), CompareBagsDicts(m, d);
    assert s.realDups == r.realDups;
  }

  // ---------------------------------------------------------------------------
  // identify_duplication
  // ---------------------------------------------------------------------------

  /** A payload manifest: file name to checksum. */
  type Manifest = map<string, string>

  /** What `identify_duplication` logs besides its verdict. */
  datatype DupReport =
    | NoReport                              // the manifests are equal
    | DifferentFilenames(bagKey: string)    // the two manifests list different files
    | Authoritative(files: set<Path>)       // same files: the main copies of those whose checksums differ

  /** The main-directory paths of the files of `keys` whose checksums differ between `d` and `m`. */
  function DifferingFiles(mainBag: Path, d: Manifest, m: Manifest, keys: set<string>): set<Path>
    requires keys <= d.Keys && keys <= m.Keys
  {
    set fn | fn in keys && d[fn] != m[fn] :: mainBag + [fn]
  }

  /**
   * `identify_duplication`: `True` iff the payload manifests `d` of the
   * duplicate and `m` of the main copy are equal; otherwise, when both list
   * the same files, every file whose checksums differ is reported under the
   * main bag's path `mainBag`, and when they do not, the difference is reported.
   */
  method IdentifyDuplication(bagKey: string, mainBag: Path, d: Manifest, m: Manifest)
    returns (identical: bool, report: DupReport)
    ensures identical <==> d == m
    ensures identical ==> report == NoReport
    ensures !identical && d.Keys != m.Keys ==> report == DifferentFilenames(bagKey)
    ensures !identical && d.Keys == m.Keys ==> report == Authoritative(DifferingFiles(mainBag, d, m, d.Keys))
  {
    if d == m {
      return true, NoReport;
    }
    if d.Keys == m.Keys {
      var flagged: set<Path> := {};
      var remaining := d.Keys;
      while remaining != {}
        invariant remaining <= d.Keys
        invariant flagged == DifferingFiles(mainBag, d, m, d.Keys - remaining)
        decreases |remaining|
      {
        var fn :| fn in remaining;
        if d[fn] != m[fn] {
          flagged := flagged + {mainBag + [fn]};
        }
        remaining := remaining - {fn};
        assert d.Keys - remaining == (d.Keys - (remaining + {fn})) + {fn};
      }
      assert d.Keys - remaining == d.Keys;
      report := Authoritative(flagged);
    } else {
      report := DifferentFilenames(bagKey);
    }
    identical := false;
  }

  /** Two maps with the same keys are equal unless they differ at some key. */
  lemma MapsDifferAtSomeKey(d: Manifest, m: Manifest)
    ensures d.Keys == m.Keys && d != m ==> exists fn :: fn in d && d[fn] != m[fn]
  {
    if d.Keys == m.Keys && forall fn :: fn in d ==> d[fn] == m[fn] {
      assert d == m;
    }
  }

  /** Manifests with the same files that are not equal differ in some checksum, so something is always reported. */
  lemma AuthoritativeNotEmpty(mainBag: Path, d: Manifest, m: Manifest)
    requires d.Keys == m.Keys && d != m
    ensures DifferingFiles(mainBag, d, m, d.Keys) != {}
  {
    MapsDifferAtSomeKey(d, m);
    var fn :| fn in d && d[fn] != m[fn];
    assert mainBag + [fn] in DifferingFiles(mainBag, d, m, d.Keys);
  }

  /** A file is reported iff it is listed on both sides with different checksums. */
  lemma AuthoritativeExactly(mainBag: Path, d: Manifest, m: Manifest, fn: string)
    requires d.Keys == m.Keys
    ensures mainBag + [fn] in DifferingFiles(mainBag, d, m, d.Keys) <==> fn in d && d[fn] != m[fn]
  {
    if mainBag + [fn] in DifferingFiles(mainBag, d, m, d.Keys) {
      var g :| g in d.Keys && d[g] != m[g] && mainBag + [g] == mainBag + [fn];
      assert (mainBag + [g])[|mainBag|] == g;
    }
  }

  // ---------------------------------------------------------------------------
  // The classification loop of `main`
  // ---------------------------------------------------------------------------

  /** The list of `main` an id found on both sides ends up in. */
  datatype Outcome = IdenticalBags | UnidenticalBags | InvalidBoth | InvalidMain | InvalidDup

  /** The case split of `main` on the two validity results and, when both hold, the verdict on the manifests. */
  function Classify(validD: bool, validM: bool, same: bool): (o: Outcome)
    ensures o == IdenticalBags <==> validD && validM && same
    ensures o == UnidenticalBags <==> validD && validM && !same
    ensures o == InvalidBoth <==> !validD && !validM
    ensures o == InvalidMain <==> validD && !validM
    ensures o == InvalidDup <==> !validD && validM
  {
    if validD && validM then (if same then IdenticalBags else UnidenticalBags)
    else if !validD && !validM then InvalidBoth
    else if validD && !validM then InvalidMain
    else InvalidDup
  }

  /** The outcome for the id `id`, found in both dictionaries, given the two oracles. */
  function OutcomeOf(id: string, bagsD: map<string, Path>, bagsM: map<string, Path>,
                     valid: Path -> bool, entries: Path -> Manifest): Outcome
    requires id in bagsD && id in bagsM
  {
    Classify(valid(bagsD[id]), valid(bagsM[id]), entries(bagsD[id]) == entries(bagsM[id]))
  }

  /**
   * When the two copies of an id sit at different paths, each of the five
   * outcomes happens for some answer of the bag library.
   */
  lemma EveryOutcomeReachable(id: string, bagsD: map<string, Path>, bagsM: map<string, Path>, o: Outcome)
    requires id in bagsD && id in bagsM && bagsD[id] != bagsM[id]
    ensures exists valid: Path -> bool, entries: Path -> Manifest :: OutcomeOf(id, bagsD, bagsM, valid, entries) == o
  {
    var dp, mp := bagsD[id], bagsM[id];
    var none: Path -> Manifest := (p: Path) => map[];
    var one: Path -> Manifest := (p: Path) => if p == dp then map["f" := "1"] else map[];
    assert "f" in one(dp) && "f" !in one(mp);
    match o
    case IdenticalBags => assert OutcomeOf(id, bagsD, bagsM, (p: Path) => true, none) == o;
    case UnidenticalBags => assert OutcomeOf(id, bagsD, bagsM, (p: Path) => true, one) == o;
    case InvalidBoth => assert OutcomeOf(id, bagsD, bagsM, (p: Path) => false, none) == o;
    case InvalidMain => assert OutcomeOf(id, bagsD, bagsM, (p: Path) => p != mp, none) == o;
    case InvalidDup => assert OutcomeOf(id, bagsD, bagsM, (p: Path) => p != dp, none) == o;
  }

  /** The five lists of `main`. */
  datatype Classification = Classification(
    invalidMain: seq<string>, invalidDup: seq<string>, invalidBoth: seq<string>,
    identical: seq<string>, unidentical: seq<string>)

  /** The list of `c` that collects the ids with outcome `o`. */
  function ListOf(c: Classification, o: Outcome): seq<string> {
    match o
    case IdenticalBags => c.identical
    case UnidenticalBags => c.unidentical
    case InvalidBoth => c.invalidBoth
    case InvalidMain => c.invalidMain
    case InvalidDup => c.invalidDup
  }

  /** No id is listed twice. */
  predicate Distinct(s: seq<string>) {
    forall i, j :: 0 <= i < j < |s| ==> s[i] != s[j]
  }

  function TotalLength(c: Classification): nat {
    |c.invalidMain| + |c.invalidDup| + |c.invalidBoth| + |c.identical| + |c.unidentical|
  }

  /** `c` lists each id of `ids` once, in the list its outcome names, and nothing else. */
  ghost predicate Classified(c: Classification, ids: set<string>, bagsD: map<string, Path>, bagsM: map<string, Path>,
                       valid: Path -> bool, entries: Path -> Manifest)
  {
    ids <= bagsD.Keys && ids <= bagsM.Keys &&
    (forall o :: Distinct(ListOf(c, o))) &&
    (forall o, i :: 0 <= i < |ListOf(c, o)| ==>
       ListOf(c, o)[i] in ids && OutcomeOf(ListOf(c, o)[i], bagsD, bagsM, valid, entries) == o) &&
    (forall id :: id in ids ==> id in ListOf(c, OutcomeOf(id, bagsD, bagsM, valid, entries))) &&
    TotalLength(c) == |ids|
  }

  /** `c` with `id` appended to the list of outcome `o`. */
  function Append(c: Classification, o: Outcome, id: string): (r: Classification)
    ensures forall o' :: ListOf(r, o') == if o' == o then ListOf(c, o) + [id] else ListOf(c, o')
    ensures TotalLength(r) == TotalLength(c) + 1
  {
    match o
    case IdenticalBags => c.(identical := c.identical + [id])
    case UnidenticalBags => c.(unidentical := c.unidentical + [id])
    case InvalidBoth => c.(invalidBoth := c.invalidBoth + [id])
    case InvalidMain => c.(invalidMain := c.invalidMain + [id])
    case InvalidDup => c.(invalidDup := c.invalidDup + [id])
  }

  /** Appending an id not yet listed keeps every list free of repeats. */
  lemma AppendDistinct(s: seq<string>, id: string)
    requires Distinct(s) && id !in s
    ensures Distinct(s + [id])
  {
  }

  /** The body of the loop of `main` for one shared id: the validity checks, then the manifest comparison. */
  method ClassifyOne(dupId: string, bagsD: map<string, Path>, bagsM: map<string, Path>,
                     valid: Path -> bool, entries: Path -> Manifest)
    returns (o: Outcome)
    requires dupId in bagsD && dupId in bagsM
    ensures o == OutcomeOf(dupId, bagsD, bagsM, valid, entries)
  {
    if valid(bagsD[dupId]) && valid(bagsM[dupId]) {
      var same, report := IdentifyDuplication(dupId, bagsM[dupId], entries(bagsD[dupId]), entries(bagsM[dupId]));
      o := if same then IdenticalBags else UnidenticalBags;
    } else if !valid(bagsD[dupId]) && !valid(bagsM[dupId]) {
      o := InvalidBoth;
    } else if valid(bagsD[dupId]) && !valid(bagsM[dupId]) {
      o := InvalidMain;
    } else {
      o := InvalidDup;
    }
  }

  /** Appending a new id to the list of its outcome `o` extends a classification of `ids` to one of `ids + {id}`. */
  lemma ClassifiedStep(c: Classification, ids: set<string>, id: string, o: Outcome, bagsD: map<string, Path>,
                       bagsM: map<string, Path>, valid: Path -> bool, entries: Path -> Manifest)
    requires id in bagsD && id in bagsM && id !in ids && o == OutcomeOf(id, bagsD, bagsM, valid, entries)
    requires Classified(c, ids, bagsD, bagsM, valid, entries)
    ensures Classified(Append(c, o, id), ids + {id}, bagsD, bagsM, valid, entries)
  {
    var r := Append(c, o, id);
    AppendDistinct(ListOf(c, o), id);
    forall o', i | 0 <= i < |ListOf(r, o')|
      ensures ListOf(r, o')[i] in ids + {id} && OutcomeOf(ListOf(r, o')[i], bagsD, bagsM, valid, entries) == o'
    {
      if o' == o && i == |ListOf(c, o)| {
        assert ListOf(r, o')[i] == id;
      } else {
        assert ListOf(r, o')[i] == ListOf(c, o')[i];
      }
    }
    forall x | x in ids + {id}
      ensures x in ListOf(r, OutcomeOf(x, bagsD, bagsM, valid, entries))
    {
      if x != id {
        assert x in ListOf(c, OutcomeOf(x, bagsD, bagsM, valid, entries));
      }
    }
  }

  /** Moving one element from `remaining` to `done` keeps the two apart and their union fixed, and shrinks `remaining`. */
  lemma MoveOne<T>(done: set<T>, remaining: set<T>, x: T)
    requires done !! remaining && x in remaining
    ensures (done + {x}) !! (remaining - {x}) && (done + {x}) + (remaining - {x}) == done + remaining
    ensures remaining - {x} < remaining
  {
  }

  /** One pass of the loop of `main`: take some id not yet classified and append it to the list of its outcome. */
  method ClassifyNext(c: Classification, done: set<string>, remaining: set<string>, bagsD: map<string, Path>,
                      bagsM: map<string, Path>, valid: Path -> bool, entries: Path -> Manifest)
    returns (c': Classification, done': set<string>, remaining': set<string>)
    requires remaining != {} && done !! remaining && remaining <= bagsD.Keys && remaining <= bagsM.Keys
    requires Classified(c, done, bagsD, bagsM, valid, entries)
    ensures done' !! remaining' && done' + remaining' == done + remaining && remaining' < remaining
    ensures Classified(c', done', bagsD, bagsM, valid, entries)
  {
    var dupId :| dupId in remaining;
    var o := ClassifyOne(dupId, bagsD, bagsM, valid, entries);
    ClassifiedStep(c, done, dupId, o, bagsD, bagsM, valid, entries);
    MoveOne(done, remaining, dupId);
    c' := Append(c, o, dupId);
    done' := done + {dupId};
    remaining' := remaining - {dupId};
  }

  /**
   * The loop of `main` over `real_dups`: validate both copies of each id
   * and, when both are valid, compare their manifests; append the id to
   * the list its outcome names.
   */
  method ClassifyDups(realDups: set<string>, bagsD: map<string, Path>, bagsM: map<string, Path>,
                      valid: Path -> bool, entries: Path -> Manifest)
    returns (c: Classification)
    requires realDups <= bagsD.Keys && realDups <= bagsM.Keys
    ensures Classified(c, realDups, bagsD, bagsM, valid, entries)
  {
    c := Classification([], [], [], [], []);
    var done: set<string> := {};
    var remaining := realDups;
    while remaining != {}
      invariant done !! remaining && done + remaining == realDups
      invariant remaining <= bagsD.Keys && remaining <= bagsM.Keys
      invariant Classified(c, done, bagsD, bagsM, valid, entries)
      decreases remaining
    {
      c, done, remaining := ClassifyNext(c, done, remaining, bagsD, bagsM, valid, entries);
    }
  }

  /** Each shared id lands in exactly one of the five lists, and the list lengths add up to the number of shared ids. */
  lemma ExactlyOneList(c: Classification, ids: set<string>, bagsD: map<string, Path>, bagsM: map<string, Path>,
                       valid: Path -> bool, entries: Path -> Manifest, id: string)
    requires ids <= bagsD.Keys && ids <= bagsM.Keys
    requires Classified(c, ids, bagsD, bagsM, valid, entries)
    requires id in ids
    ensures id in ListOf(c, OutcomeOf(id, bagsD, bagsM, valid, entries))
    ensures forall o :: o != OutcomeOf(id, bagsD, bagsM, valid, entries) ==> id !in ListOf(c, o)
    ensures TotalLength(c) == |ids|
  {
  }

  // ---------------------------------------------------------------------------
  // main
  // ---------------------------------------------------------------------------

  /** What a run of `main` that got past the path check computes. */
  datatype Reconciliation = Reconciliation(
    bagsD: map<string, Path>, bagsM: map<string, Path>, split: Split, lists: Classification)

  /**
   * `main` without its output: check both paths, find the bags on each
   * side, split their ids, and classify the ids found on both sides.
   * Nothing is computed unless both paths are directories.
   */
  method Reconcile(dupDir: Path, dup: Option<Node>, mainDir: Path, main: Option<Node>,
                   valid: Path -> bool, entries: Path -> Manifest)
    returns (r: Option<Reconciliation>)
    ensures r.Some? <==> IsDirPath(dup) && IsDirPath(main)
    ensures r.Some? ==>
      r.value.bagsD == BagsDict(dupDir, dup.value) && r.value.bagsM == BagsDict(mainDir, main.value) &&
      r.value.split == CompareBagsDicts(r.value.bagsD, r.value.bagsM) &&
      Classified(r.value.lists, r.value.split.realDups, r.value.bagsD, r.value.bagsM, valid, entries)
  {
    var proceed := ValidateDirPaths(dup, main);
    if proceed == Some(true) {
      var bagsD := FindBagsInDir(dupDir, dup.value);
      var bagsM := FindBagsInDir(mainDir, main.value);
      var split := CompareBagsDicts(bagsD, bagsM);
      var lists := ClassifyDups(split.realDups, bagsD, bagsM, valid, entries);
      r := Some(Reconciliation(bagsD, bagsM, split, lists));
    } else {
      r := None;
    }
  }
}
