/**
 * The checks made before access copies and their JSON sidecars are
 * uploaded: pairing media files with same-stem JSON files under the AMI id
 * found in the media file's stem, the file-naming convention, the
 * barcode-prefix and reference-filename checks on fields read from the
 * JSON, and the key under which an mp4 derivative of a FLAC or WAV file is
 * looked for in the bucket.
 *
 * A file is given by its name: every file comes from one directory listing.
 */
module EavieUpload {
  import opened Base
  import opened Text

  // ---------------------------------------------------------------------------
  // pathlib's suffix and stem
  // ---------------------------------------------------------------------------

  /** The index of the last `.` of `name`, if any (`name.rfind('.')`). */
  function LastDot(name: string): (r: Option<nat>)
    ensures r.Some? ==> r.value < |name| && name[r.value] == '.' && forall k :: r.value < k < |name| ==> name[k] != '.'
    ensures r.None? ==> forall k :: 0 <= k < |name| ==> name[k] != '.'
  {
    if name == [] then None
    else if name[|name| - 1] == '.' then Some(|name| - 1)
    else LastDot(name[..|name| - 1])
  }

  /** `LastDot` finds the dot at `i` when no dot follows it. */
  lemma {:induction false} LastDotIs(name: string, i: nat)
    requires i < |name| && name[i] == '.'
    requires forall k :: i < k < |name| ==> name[k] != '.'
    ensures LastDot(name) == Some(i)
  {
    if i < |name| - 1 {
      LastDotIs(name[..|name| - 1], i);
    }
  }

  /** The last dot starts a suffix only when it is neither the first nor the last character. */
  predicate HasSuffix(name: string) {
    var d := LastDot(name);
    d.Some? && 0 < d.value < |name| - 1
  }

  /** `Path(name).suffix`. */
  function Suffix(name: string): string {
    if HasSuffix(name) then name[LastDot(name).value..] else ""
  }

  /** `Path(name).stem`. */
  function Stem(name: string): string {
    if HasSuffix(name) then name[..LastDot(name).value] else name
  }

  /** The stem and the suffix split the name; the suffix, when there is one, is a dot with no further dot. */
  lemma StemSuffixSplit(name: string)
    ensures Stem(name) + Suffix(name) == name
    ensures Suffix(name) != "" ==>
      |Suffix(name)| >= 2 && Suffix(name)[0] == '.' && |Stem(name)| > 0 &&
      forall k :: 0 < k < |Suffix(name)| ==> Suffix(name)[k] != '.'
    ensures Suffix(name) == "" ==> Stem(name) == name
  {
    if HasSuffix(name) {
      var d := LastDot(name).value;
      assert forall k :: 0 < k < |name| - d ==> name[d..][k] == name[d + k];
    }
  }

  /** The media suffixes, compared after lower-casing. */
  predicate IsMedia(name: string) {
    ToLower(Suffix(name)) in {".mp4", ".wav", ".flac"}
  }

  predicate IsJson(name: string) {
    ToLower(Suffix(name)) == ".json"
  }

  /** Lower-casing makes the media test case-insensitive: `.FLAC` and `.Mp4` are media suffixes. */
  lemma MediaSuffixCaseInsensitive()
    ensures IsMedia("a_123456_x_sc.FLAC") && IsMedia("b.Mp4") && !IsMedia("c.mov") && !IsMedia(".wav")
  {
    LastDotIs("a_123456_x_sc.FLAC", 13);
    assert ToLower(".FLAC") == ".flac";
    LastDotIs("b.Mp4", 1);
    assert ToLower(".Mp4") == ".mp4";
    LastDotIs("c.mov", 1);
    assert ToLower(".mov")[1] == 'm' && ToLower(".mov")[2] == 'o';
    LastDotIs(".wav", 0);
  }

  /** No name is both media and JSON. */
  lemma MediaAndJsonExclusive(name: string)
    ensures !(IsMedia(name) && IsJson(name))
  {
  }

  // ---------------------------------------------------------------------------
  // The AMI id: `re.search(r'\d{6}', stem)`
  // ---------------------------------------------------------------------------

  predicate SixDigitsAt(s: string, k: int) {
    0 <= k && k + 6 <= |s| && AllDigits(s[k..k + 6])
  }

  /** The leftmost index at or after `i` where six digits start. */
  function FirstSixDigits(s: string, i: nat): (r: Option<nat>)
    ensures r.Some? ==> i <= r.value && SixDigitsAt(s, r.value)
    ensures r.Some? ==> forall k :: i <= k < r.value ==> !SixDigitsAt(s, k)
    ensures r.None? ==> forall k :: i <= k ==> !SixDigitsAt(s, k)
    decreases |s| - i
  {
    if i + 6 > |s| then None
    else if SixDigitsAt(s, i) then Some(i)
    else FirstSixDigits(s, i + 1)
  }

  /**
   * The id of a media stem: the first run of six digits. A stem without
   * one makes `re.search` return `None`, and `.group(0)` then raises.
   */
  function AmiId(stem: string): (r: Option<string>)
    ensures r.Some? ==> |r.value| == 6 && AllDigits(r.value)
    ensures r.Some? <==> exists k :: SixDigitsAt(stem, k)
    ensures r.Some? ==>
      exists k :: SixDigitsAt(stem, k) && r.value == stem[k..k + 6] && forall j :: 0 <= j < k ==> !SixDigitsAt(stem, j)
  {
    var f := FirstSixDigits(stem, 0);
    if f.Some? then
      var k := f.value;
      assert SixDigitsAt(stem, k) && forall j :: 0 <= j < k ==> !SixDigitsAt(stem, j);
      Some(stem[k..k + 6])
    else None
  }

  // ---------------------------------------------------------------------------
  // get_ami_dict
  // ---------------------------------------------------------------------------

  /** A value of `get_ami_dict`: `[media_p, json_p]`. */
  datatype AmiPair = AmiPair(media: string, json: string)

  /** `media_paths`: the names with a media suffix, in order. */
  function MediaPaths(fs: seq<string>): (ms: seq<string>)
    ensures forall x :: x in ms <==> x in fs && IsMedia(x)
  {
    if fs == [] then []
    else
      var last := fs[|fs| - 1];
      assert forall x :: x in fs <==> x in fs[..|fs| - 1] || x == last;
      MediaPaths(fs[..|fs| - 1]) + (if IsMedia(last) then [last] else [])
  }

  /** `json_paths`: the names with a JSON suffix, in order. */
  function JsonPaths(fs: seq<string>): (js: seq<string>)
    ensures forall x :: x in js <==> x in fs && IsJson(x)
  {
    if fs == [] then []
    else
      var last := fs[|fs| - 1];
      assert forall x :: x in fs <==> x in fs[..|fs| - 1] || x == last;
      JsonPaths(fs[..|fs| - 1]) + (if IsJson(last) then [last] else [])
  }

  /** The pairs the inner loop writes for `media`, in order: one per JSON file with the same stem. */
  function MatchesFor(media: string, js: seq<string>): (ps: seq<AmiPair>)
    ensures forall p :: p in ps <==> p.media == media && p.json in js && Stem(p.json) == Stem(media)
  {
    if js == [] then []
    else
      var last := js[|js| - 1];
      assert forall x :: x in js <==> x in js[..|js| - 1] || x == last;
      MatchesFor(media, js[..|js| - 1]) + (if Stem(last) == Stem(media) then [AmiPair(media, last)] else [])
  }

  /** Every pair the nested loops write, in the order they write them. */
  function Pairs(ms: seq<string>, js: seq<string>): (ps: seq<AmiPair>)
    ensures forall p :: p in ps <==> p.media in ms && p.json in js && Stem(p.json) == Stem(p.media)
  {
    if ms == [] then []
    else
      var last := ms[|ms| - 1];
      assert forall x :: x in ms <==> x in ms[..|ms| - 1] || x == last;
      Pairs(ms[..|ms| - 1], js) + MatchesFor(last, js)
  }

  /** A media stem with no six-digit run stops the loops with an error. */
  predicate LacksId(p: AmiPair) {
    AmiId(Stem(p.media)).None?
  }

  /** One write: `ami_dict[id] = [media_p, json_p]`, or the error that ends everything. */
  function Store(d: Option<map<string, AmiPair>>, p: AmiPair): Option<map<string, AmiPair>> {
    if d.None? || LacksId(p) then None else Some(d.value[AmiId(Stem(p.media)).value := p])
  }

  /** The dictionary after the writes `ps` in order, or `None` if one of them raised. */
  function Collect(ps: seq<AmiPair>): Option<map<string, AmiPair>> {
    if ps == [] then Some(map[]) else Store(Collect(ps[..|ps| - 1]), ps[|ps| - 1])
  }

  /** What `get_ami_dict(filepaths)` returns, or `None` where it raises. */
  function AmiDict(fs: seq<string>): Option<map<string, AmiPair>> {
    Collect(Pairs(MediaPaths(fs), JsonPaths(fs)))
  }

  lemma CollectSnoc(ps: seq<AmiPair>, p: AmiPair)
    ensures Collect(ps + [p]) == Store(Collect(ps), p)
  {
    assert (ps + [p])[..|ps|] == ps;
  }

  lemma PairsSnoc(ms: seq<string>, m: string, js: seq<string>)
    ensures Pairs(ms + [m], js) == Pairs(ms, js) + MatchesFor(m, js)
  {
    assert (ms + [m])[..|ms|] == ms;
  }

  lemma MatchesSnoc(m: string, js: seq<string>, j: string)
    ensures MatchesFor(m, js + [j]) == MatchesFor(m, js) + (if Stem(j) == Stem(m) then [AmiPair(m, j)] else [])
  {
    assert (js + [j])[..|js|] == js;
  }

  /** One more JSON file considered by the inner loop: one more write if its stem matches. */
  lemma StoreMatchesStep(before: seq<AmiPair>, m: string, js: seq<string>, k: nat)
    requires k < |js|
    ensures Collect(before + MatchesFor(m, js[..k + 1])) ==
      if Stem(js[k]) == Stem(m) then Store(Collect(before + MatchesFor(m, js[..k])), AmiPair(m, js[k]))
      else Collect(before + MatchesFor(m, js[..k]))
  {
    assert js[..k + 1] == js[..k] + [js[k]];
    MatchesSnoc(m, js[..k], js[k]);
    if Stem(js[k]) == Stem(m) {
      assert before + MatchesFor(m, js[..k + 1]) == (before + MatchesFor(m, js[..k])) + [AmiPair(m, js[k])];
      CollectSnoc(before + MatchesFor(m, js[..k]), AmiPair(m, js[k]));
    } else {
      assert before + MatchesFor(m, js[..k + 1]) == before + MatchesFor(m, js[..k]);
    }
  }

  /** Once a write has raised, running more writes still ends in the error. */
  lemma CollectNoneGrows(xs: seq<AmiPair>, ys: seq<AmiPair>)
    requires Collect(xs).None?
    requires forall p :: p in xs ==> p in ys
    ensures Collect(ys).None?
  {
    CollectNone(xs);
    CollectNone(ys);
  }

  /**
   * The inner loop of `get_ami_dict` for one media file: the writes for
   * the JSON files with its stem, on top of a dictionary `amiDict` built by
   * the writes `before`; `None` where the id lookup raises.
   */
  method StoreMatches(ghost before: seq<AmiPair>, amiDict: map<string, AmiPair>, mediaP: string, jsonPaths: seq<string>)
    returns (r: Option<map<string, AmiPair>>)
    requires Collect(before) == Some(amiDict)
    ensures r == Collect(before + MatchesFor(mediaP, jsonPaths))
  {
    var d := amiDict;
    var filename := Stem(mediaP);
    assert jsonPaths[..0] == [];
    assert before + MatchesFor(mediaP, jsonPaths[..0]) == before;
    for k := 0 to |jsonPaths|
      invariant Collect(before + MatchesFor(mediaP, jsonPaths[..k])) == Some(d)
    {
      var jsonP := jsonPaths[k];
      StoreMatchesStep(before, mediaP, jsonPaths, k);
      if Stem(jsonP) == filename {
        var found := AmiId(filename);
        if found.None? {
          CollectNoneGrows(before + MatchesFor(mediaP, jsonPaths[..k + 1]), before + MatchesFor(mediaP, jsonPaths));
          return None;
        }
        d := d[found.value := AmiPair(mediaP, jsonP)];
      }
    }
    assert jsonPaths[..|jsonPaths|] == jsonPaths;
    r := Some(d);
  }

  /** `get_ami_dict(filepaths)`: the nested loops over the media and the JSON files. */
  method GetAmiDict(filepaths: seq<string>) returns (r: Option<map<string, AmiPair>>)
    ensures r == AmiDict(filepaths)
  {
    var mediaPaths := MediaPaths(filepaths);
    var jsonPaths := JsonPaths(filepaths);
    var amiDict: map<string, AmiPair> := map[];
    for i := 0 to |mediaPaths|
      invariant Collect(Pairs(mediaPaths[..i], jsonPaths)) == Some(amiDict)
    {
      var mediaP := mediaPaths[i];
      assert mediaPaths[..i + 1] == mediaPaths[..i] + [mediaP];
      PairsSnoc(mediaPaths[..i], mediaP, jsonPaths);
      var next := StoreMatches(Pairs(mediaPaths[..i], jsonPaths), amiDict, mediaP, jsonPaths);
      if next.None? {
        CollectNoneGrows(Pairs(mediaPaths[..i + 1], jsonPaths), Pairs(mediaPaths, jsonPaths));
        return None;
      }
      amiDict := next.value;
    }
    assert mediaPaths[..|mediaPaths|] == mediaPaths;
    r := Some(amiDict);
  }

  /** The writes raise iff one of them is for a media stem without an id. */
  lemma {:induction false} CollectNone(ps: seq<AmiPair>)
    ensures Collect(ps).None? <==> exists p :: p in ps && LacksId(p)
  {
    if ps != [] {
      var init, last := ps[..|ps| - 1], ps[|ps| - 1];
      CollectNone(init);
      assert forall p :: p in ps <==> p in init || p == last;
    }
  }

  /** Every stored pair is stored under its own id, and an id is a key iff some write carried it. */
  lemma {:induction false} CollectEntries(ps: seq<AmiPair>)
    requires Collect(ps).Some?
    ensures forall id :: id in Collect(ps).value ==>
      Collect(ps).value[id] in ps && AmiId(Stem(Collect(ps).value[id].media)) == Some(id)
    ensures forall p :: p in ps ==> AmiId(Stem(p.media)).Some? && AmiId(Stem(p.media)).value in Collect(ps).value
  {
    if ps != [] {
      var init, last := ps[..|ps| - 1], ps[|ps| - 1];
      CollectEntries(init);
      assert forall p :: p in ps <==> p in init || p == last;
    }
  }

  /** A later write with the same id overwrites an earlier one: the pair kept is the last one written. */
  lemma {:induction false} CollectLastWins(ps: seq<AmiPair>, i: nat)
    requires Collect(ps).Some? && i < |ps|
    requires forall j :: i < j < |ps| ==> AmiId(Stem(ps[j].media)) != AmiId(Stem(ps[i].media))
    ensures AmiId(Stem(ps[i].media)).Some? && AmiId(Stem(ps[i].media)).value in Collect(ps).value
    ensures Collect(ps).value[AmiId(Stem(ps[i].media)).value] == ps[i]
  {
    var init, last := ps[..|ps| - 1], ps[|ps| - 1];
    CollectEntries(ps);
    if i < |ps| - 1 {
      CollectLastWins(init, i);
    }
  }

  /**
   * Every value of `get_ami_dict` pairs a media file and a JSON file of
   * the listing with the same stem, and is stored under the first
   * six-digit run of that stem.
   */
  lemma AmiDictPairs(fs: seq<string>)
    requires AmiDict(fs).Some?
    ensures forall id :: id in AmiDict(fs).value ==>
      var p := AmiDict(fs).value[id];
      p.media in fs && IsMedia(p.media) && p.json in fs && IsJson(p.json) &&
      Stem(p.media) == Stem(p.json) && AmiId(Stem(p.media)) == Some(id)
  {
    CollectEntries(Pairs(MediaPaths(fs), JsonPaths(fs)));
  }

  /** Nothing is missed: every media file with a same-stem JSON file yields an entry under its id. */
  lemma AmiDictComplete(fs: seq<string>, media: string, json: string)
    requires AmiDict(fs).Some?
    requires media in fs && IsMedia(media) && json in fs && IsJson(json) && Stem(media) == Stem(json)
    ensures AmiId(Stem(media)).Some? && AmiId(Stem(media)).value in AmiDict(fs).value
  {
    assert AmiPair(media, json) in Pairs(MediaPaths(fs), JsonPaths(fs));
    CollectEntries(Pairs(MediaPaths(fs), JsonPaths(fs)));
  }

  /** `get_ami_dict` raises iff some media file with a same-stem JSON file has no six-digit run in its stem. */
  lemma AmiDictRaises(fs: seq<string>)
    ensures AmiDict(fs).None? <==>
      exists media, json :: media in fs && IsMedia(media) && json in fs && IsJson(json) &&
        Stem(media) == Stem(json) && AmiId(Stem(media)).None?
  {
    var ps := Pairs(MediaPaths(fs), JsonPaths(fs));
    CollectNone(ps);
    if exists media, json :: media in fs && IsMedia(media) && json in fs && IsJson(json) &&
        Stem(media) == Stem(json) && AmiId(Stem(media)).None? {
      var media, json :| media in fs && IsMedia(media) && json in fs && IsJson(json) &&
        Stem(media) == Stem(json) && AmiId(Stem(media)).None?;
      assert AmiPair(media, json) in ps;
    }
  }

  /** Two media files whose stems share an id, both with JSON partners: the one listed later is kept. */
  lemma AmiDictLaterMediaWins(ms: seq<string>, js: seq<string>, i: nat)
    requires Collect(Pairs(ms, js)).Some? && i < |Pairs(ms, js)|
    requires forall j :: i < j < |Pairs(ms, js)| ==>
      AmiId(Stem(Pairs(ms, js)[j].media)) != AmiId(Stem(Pairs(ms, js)[i].media))
    ensures var p := Pairs(ms, js)[i];
      AmiId(Stem(p.media)).Some? && AmiId(Stem(p.media)).value in Collect(Pairs(ms, js)).value &&
      Collect(Pairs(ms, js)).value[AmiId(Stem(p.media)).value] == p
  {
    CollectLastWins(Pairs(ms, js), i);
  }

  // ---------------------------------------------------------------------------
  // validate_filename
  // ---------------------------------------------------------------------------

  /**
   * A full match of `\w{3}_\d{6}_\w+_(sc|em)`: the last three characters
   * are fixed by `_(sc|em)`, so the greedy `\w+` is everything between the
   * second `_` and them.
   */
  predicate FilenameConventionOk(s: string) {
    |s| >= 15 && AllWordChars(s[..3]) && s[3] == '_' && AllDigits(s[4..10]) && s[10] == '_' &&
    AllWordChars(s[11..|s| - 3]) && s[|s| - 3] == '_' && (s[|s| - 2..] == "sc" || s[|s| - 2..] == "em")
  }

  /** The convention read as a decomposition into its parts. */
  ghost predicate FilenameParts(s: string, a: string, id: string, b: string, role: string) {
    s == a + "_" + id + "_" + b + "_" + role &&
    |a| == 3 && AllWordChars(a) && |id| == 6 && AllDigits(id) && |b| > 0 && AllWordChars(b) &&
    (role == "sc" || role == "em")
  }

  /** The fixed-position check accepts exactly the names the pattern describes. */
  lemma FilenameConventionMatchesPattern(s: string)
    ensures FilenameConventionOk(s) <==> exists a, id, b, role :: FilenameParts(s, a, id, b, role)
  {
    if FilenameConventionOk(s) {
      var a, id, b, role := s[..3], s[4..10], s[11..|s| - 3], s[|s| - 2..];
      assert s == a + "_" + id + "_" + b + "_" + role;
      assert FilenameParts(s, a, id, b, role);
    }
    if exists a, id, b, role :: FilenameParts(s, a, id, b, role) {
      var a, id, b, role :| FilenameParts(s, a, id, b, role);
      assert s[..3] == a && s[4..10] == id && s[11..|s| - 3] == b && s[|s| - 2..] == role;
    }
  }

  /** `validate_filename(filepath)`: the convention, on the stem. */
  predicate ValidateFilename(name: string) {
    FilenameConventionOk(Stem(name))
  }

  /** In a well-named stem no six-digit run starts before position 4, so the id is always `stem[4..10]`. */
  lemma WellNamedId(stem: string)
    requires FilenameConventionOk(stem)
    ensures AmiId(stem) == Some(stem[4..10])
  {
    forall k | 0 <= k < 4 ensures !SixDigitsAt(stem, k) {
      assert stem[k..k + 6][3 - k] == stem[3];
    }
    assert SixDigitsAt(stem, 4);
  }

  /** The stem of `stem.ext`, for an extension without a dot, is `stem`. */
  lemma StemOfDotted(stem: string, ext: string)
    requires |stem| > 0 && |ext| > 0 && forall k :: 0 <= k < |ext| ==> ext[k] != '.'
    ensures Stem(stem + "." + ext) == stem && Suffix(stem + "." + ext) == "." + ext
  {
    var name := stem + "." + ext;
    assert forall k :: |stem| < k < |name| ==> name[k] == ext[k - |stem| - 1];
    LastDotIs(name, |stem|);
    assert name[..|stem|] == stem && name[|stem|..] == "." + ext;
  }

  /** Examples of stems following the convention and not: a wrong role suffix, or five digits where six are due. */
  lemma FilenameConventionExamples()
    ensures FilenameConventionOk("myd_123456_v01_sc")
    ensures FilenameConventionOk("myd_123456_a_b_em")
    ensures !FilenameConventionOk("myd_123456_v01_pm")
    ensures !FilenameConventionOk("myd_12345_v01_sc")
  {
    var s := "myd_123456_v01_sc";
    assert s[..3] == "myd" && s[4..10] == "123456" && s[11..14] == "v01" && s[15..] == "sc";
    var t := "myd_123456_a_b_em";
    assert t[..3] == "myd" && t[4..10] == "123456" && t[11..14] == "a_b" && t[15..] == "em";
    assert "myd_123456_v01_pm"[15..] == "pm";
    assert "myd_12345_v01_sc"[9] == '_';
  }

  /** The media file and its JSON sidecar are checked on the same stem. */
  lemma SidecarsShareVerdict(stem: string)
    requires |stem| > 0
    ensures ValidateFilename(stem + ".mp4") == ValidateFilename(stem + ".json") == FilenameConventionOk(stem)
  {
    var mp4, json := "mp4", "json";
    assert stem + ".mp4" == stem + "." + mp4 && stem + ".json" == stem + "." + json;
    StemOfDotted(stem, mp4);
    StemOfDotted(stem, json);
  }

  // ---------------------------------------------------------------------------
  // The JSON checks, on the field values read from the file
  // ---------------------------------------------------------------------------

  /** `validate_json_barcode`: `re.match('33433', barcode)` anchors at the start, so this is a prefix test. */
  predicate BarcodeOk(barcode: string) {
    StartsWith(barcode, "33433")
  }

  /** `validate_json_ref_filename`: the JSON's `referenceFilename` is the media file's full name. */
  predicate RefFilenameOk(referenceFilename: string, media: string) {
    referenceFilename == media
  }

  /** The barcode check needs only the first five characters, and accepts anything after them. */
  lemma BarcodePrefix(barcode: string, rest: string)
    ensures BarcodeOk(barcode) <==> |barcode| >= 5 && barcode[..5] == "33433"
    ensures BarcodeOk("33433" + rest)
    ensures !BarcodeOk("3343") && !BarcodeOk("x33433")
  {
    assert ("33433" + rest)[..5] == "33433";
    assert "x33433"[0] != '3';
  }

  /** The four checks of `main`, conjoined in the order they are made. */
  predicate PairValidated(p: AmiPair, referenceFilename: string, barcode: string) {
    ValidateFilename(p.media) && ValidateFilename(p.json) && RefFilenameOk(referenceFilename, p.media) &&
    BarcodeOk(barcode)
  }

  /**
   * The loop of `main` over `ami_dict`, up to the checks: the ids whose pair
   * passes all four, with the JSON fields given for each JSON file.
   */
  method ValidatedIds(amiDict: map<string, AmiPair>, referenceFilename: string -> string, barcode: string -> string)
    returns (ids: set<string>)
    ensures ids <= amiDict.Keys
    ensures forall id :: id in ids <==>
      id in amiDict && PairValidated(amiDict[id], referenceFilename(amiDict[id].json), barcode(amiDict[id].json))
  {
    ids := {};
    var remaining := amiDict.Keys;
    while remaining != {}
      invariant remaining <= amiDict.Keys
      invariant forall id :: id in ids <==>
        id in amiDict.Keys - remaining &&
        PairValidated(amiDict[id], referenceFilename(amiDict[id].json), barcode(amiDict[id].json))
      decreases |remaining|
    {
      var amiKey :| amiKey in remaining;
      var mediaP, jsonP := amiDict[amiKey].media, amiDict[amiKey].json;
      if ValidateFilename(mediaP) && ValidateFilename(jsonP) &&
         RefFilenameOk(referenceFilename(jsonP), mediaP) && BarcodeOk(barcode(jsonP))
      {
        ids := ids + {amiKey};
      }
      remaining := remaining - {amiKey};
    }
  }

  /**
   * A validated pair of `get_ami_dict` is stored under the digits of its
   * name: both files share the stem, and the key is the stem's characters 4 to 10.
   */
  lemma ValidatedKeyIsNameDigits(fs: seq<string>, id: string, referenceFilename: string, barcode: string)
    requires AmiDict(fs).Some? && id in AmiDict(fs).value
    requires PairValidated(AmiDict(fs).value[id], referenceFilename, barcode)
    ensures var p := AmiDict(fs).value[id];
      id == Stem(p.media)[4..10] && id == Stem(p.json)[4..10] && referenceFilename == p.media
  {
    AmiDictPairs(fs);
    WellNamedId(Stem(AmiDict(fs).value[id].media));
  }

  // ---------------------------------------------------------------------------
  // The mp4 key of `absent_in_bucket`
  // ---------------------------------------------------------------------------

  /** `filepath.name.replace('flac', 'mp4').replace('wav', 'mp4')`. */
  function Mp4Key(name: string): string {
    ReplaceAll(ReplaceAll(name, "flac", "mp4"), "wav", "mp4")
  }

  /** After the rewrite neither `flac` nor `wav` occurs anywhere in the key. */
  lemma Mp4KeyRemovesBoth(name: string)
    ensures !Occurs(Mp4Key(name), "flac") && !Occurs(Mp4Key(name), "wav")
  {
    var once := ReplaceAll(name, "flac", "mp4");
    ReplaceAllRemoves(name, "flac", "mp4");
    ReplaceAllRemoves(once, "wav", "mp4");
    ReplaceAllKeepsAbsent(once, "wav", "mp4", "flac");
  }

  /** The rewrite is case-sensitive: a name whose suffix is `.FLAC` or `.WAV` keeps its name as its key. */
  lemma Mp4KeyCaseSensitive(stem: string)
    requires forall k :: 0 <= k < |stem| ==> stem[k] != 'f' && stem[k] != 'w'
    ensures Mp4Key(stem + ".FLAC") == stem + ".FLAC"
    ensures Mp4Key(stem + ".WAV") == stem + ".WAV"
  {
    ReplaceAllSkips(stem + ".FLAC", "flac", "mp4");
    ReplaceAllSkips(stem + ".FLAC", "wav", "mp4");
    ReplaceAllSkips(stem + ".WAV", "flac", "mp4");
    ReplaceAllSkips(stem + ".WAV", "wav", "mp4");
  }

  /** The intended use: `x.flac` and `x.wav` are looked for as `x.mp4`, for a stem without `f` or `w`. */
  lemma Mp4KeyOfSuffix(stem: string)
    requires forall k :: 0 <= k < |stem| ==> stem[k] != 'f' && stem[k] != 'w'
    ensures Mp4Key(stem + ".flac") == stem + ".mp4"
    ensures Mp4Key(stem + ".wav") == stem + ".mp4"
  {
    var m := stem + ".mp4";
    assert stem + ".flac" == stem + "." + "flac" && m == stem + "." + "mp4";
    ReplaceAllAfterDot(stem, "flac", "mp4");
    ReplaceAllSkips(m, "wav", "mp4");
    var w := stem + ".wav";
    assert w == stem + "." + "wav";
    ReplaceAllSkips(w, "flac", "mp4");
    ReplaceAllAfterDot(stem, "wav", "mp4");
  }

  /** Every occurrence is rewritten, not only the suffix: a stem starting with `wav` is rewritten too. */
  lemma Mp4KeyRewritesStem(stem: string)
    requires forall k :: 0 <= k < |stem| ==> stem[k] != 'f' && stem[k] != 'w'
    ensures Mp4Key("wav" + stem + ".flac") == "mp4" + stem + ".mp4"
  {
    var w := "wav" + stem;
    ReplaceAllAfterDot(w, "flac", "mp4");
    assert "wav" + stem + ".flac" == w + "." + "flac";
    var m := stem + ".mp4";
    assert w + "." + "mp4" == "wav" + m;
    ReplaceAllHead("wav", m, "mp4");
    ReplaceAllSkips(m, "wav", "mp4");
  }
}
