/**
 * The page's session state: the loaded sheet, the accumulated slice files
 * (`slicesFiles`) and the asset manifest, and the handlers that change
 * them. Object URLs, the log panel, rendering and the download popup are
 * not part of the state; a produced archive is returned instead of offered.
 */
module Session {
  import opened Wrappers
  import opened Runs
  import opened Detector
  import opened Prefix
  import opened Naming
  import opened Archive

  /** One entry of `slicesFiles`: the file name and the PNG byte size (the object URL is left out). */
  datatype SliceFile = SliceFile(name: string, size: nat)

  datatype State = State(sheet: Option<Sheet>, slices: seq<SliceFile>, manifest: Manifest)

  /** The manifest the page starts with and `clearAll` restores. */
  const DefaultManifest: Manifest := Manifest("auto-slices", Title, Version, [])

  /**
   * What every handler keeps true: a loaded sheet is well formed, and the
   * manifest has the fixed title and version, a safe id, and describes each
   * asset as a PNG under `assets/<id>/`.
   */
  ghost predicate Inv(st: State) {
    && (st.sheet.Some? ==> st.sheet.value.Valid())
    && st.manifest.title == Title && st.manifest.version == Version
    && st.manifest.id != [] && AllAllowed(st.manifest.id)
    && forall i :: 0 <= i < |st.manifest.assets| ==>
      && st.manifest.assets[i].path == AssetPath(st.manifest.id, st.manifest.assets[i].name)
      && st.manifest.assets[i].mime == PngType
  }

  /** `clearAll()`: no sheet, no slices, the default manifest. */
  function ClearAll(st: State): (r: State)
    ensures Inv(r)
    ensures r.sheet == None && r.slices == [] && r.manifest == DefaultManifest
    ensures r.manifest.id == "auto-slices" && r.manifest.assets == []
  {
    State(None, [], DefaultManifest)
  }

  /** The initial state of the page: no sheet, no slices, the `auto-slices` manifest. */
  function Initial(): (r: State)
    ensures Inv(r)
    ensures r.sheet == None && r.slices == [] && r.manifest == DefaultManifest
    ensures r == ClearAll(r)
  {
    State(None, [], DefaultManifest)
  }

  /**
   * `loadSheetFromFile(file)` once the image has decoded: everything is
   * cleared and the decoded sheet becomes the current one.
   */
  function LoadSheet(st: State, sheet: Sheet): (r: State)
    requires sheet.Valid()
    ensures Inv(r)
    ensures r.sheet == Some(sheet) && r.slices == [] && r.manifest == ClearAll(st).manifest
  {
    ClearAll(st).(sheet := Some(sheet))
  }

  /** The raw form fields; `None` is an empty field. `parseInt` of non-numeric text is not modelled. */
  datatype Fields = Fields(prefix: string, zeroPad: Option<int>, alpha: Option<int>,
                           minWidth: Option<int>, gapTol: Option<int>)

  /** The parameters a slicing handler works with. */
  datatype Params = Params(alpha: int, minWidth: int, gapTol: int, prefix: string, padLen: int)

  function OrDefault(field: Option<int>, default: int): int {
    match field
    case None => default
    case Some(v) => v
  }

  function Max(a: int, b: int): int {
    if a >= b then a else b
  }

  function Min(a: int, b: int): int {
    if a <= b then a else b
  }

  /**
   * Reading the fields: an empty field takes its default (alpha 1, minimum
   * width 4, gap tolerance 4, padding 2), then each value is clamped into its
   * range, and the prefix is sanitised after an empty field becomes `frame`.
   */
  function ReadParams(f: Fields): (r: Params)
    ensures 0 <= r.alpha <= 255 && r.minWidth >= 1 && r.gapTol >= 0 && r.padLen >= 1
    ensures r.prefix != [] && AllAllowed(r.prefix)
    ensures r.prefix == FieldPrefix(f.prefix)
    ensures f.prefix != "" ==> r.prefix == SanitizePrefix(f.prefix)
    ensures f.alpha == None ==> r.alpha == 1
    ensures f.minWidth == None ==> r.minWidth == 4
    ensures f.gapTol == None ==> r.gapTol == 4
    ensures f.zeroPad == None ==> r.padLen == 2
  {
    Params(
      Max(0, Min(255, OrDefault(f.alpha, 1))),
      Max(1, OrDefault(f.minWidth, 4)),
      Max(0, OrDefault(f.gapTol, 4)),
      FieldPrefix(f.prefix),
      Max(1, OrDefault(f.zeroPad, 2)))
  }

  /**
   * Clamping keeps an in-range value and moves an out-of-range one to the
   * nearest bound.
   */
  lemma ClampKeepsInRange(f: Fields, v: int)
    ensures f.alpha == Some(v) ==> ReadParams(f).alpha == (if v < 0 then 0 else if v > 255 then 255 else v)
    ensures f.minWidth == Some(v) ==> ReadParams(f).minWidth == (if v < 1 then 1 else v)
    ensures f.gapTol == Some(v) ==> ReadParams(f).gapTol == (if v < 0 then 0 else v)
    ensures f.zeroPad == Some(v) ==> ReadParams(f).padLen == (if v < 1 then 1 else v)
  {
  }

  function BlobOf(s: SliceFile): NamedBlob {
    NamedBlob(s.name, s.size)
  }

  function SliceOf(fr: Frame): SliceFile {
    SliceFile(fr.name, fr.size)
  }

  function FramesAsBlobs(frames: seq<Frame>): seq<NamedBlob> {
    seq(|frames|, i requires 0 <= i < |frames| => NamedBlob(frames[i].name, frames[i].size))
  }

  /** `manifest.id = p; manifest.assets = blobs.map(...)`: the title and version stay. */
  function Describe(m: Manifest, p: string, blobs: seq<NamedBlob>): Manifest {
    m.(id := p, assets := ManifestFor(p, blobs).assets)
  }

  lemma DescribeKeepsInv(st: State, p: string, blobs: seq<NamedBlob>)
    requires Inv(st) && p != [] && AllAllowed(p)
    ensures Inv(st.(manifest := Describe(st.manifest, p, blobs)))
    ensures Describe(st.manifest, p, blobs) == ManifestFor(p, blobs)
  {
  }

  /**
   * Detection and extraction shared by the two slicing handlers: the runs
   * detected on the sheet with the read parameters, and one frame per run.
   */
  method SliceSheet(sheet: Sheet, prm: Params, encode: Crop -> nat) returns (runs: seq<Run>, frames: seq<Frame>)
    requires sheet.Valid()
    ensures exists occ :: IsOccupancy(sheet, prm.alpha, occ) && DetectSpec(occ, prm.minWidth, EffectiveTol(prm.gapTol), runs)
    ensures |frames| == |runs|
    ensures forall i :: 0 <= i < |frames| ==>
      && frames[i].name == FrameName(prm.prefix + "_", i + 1, prm.padLen)
      && frames[i].crop == CropOf(runs[i], sheet.height)
      && frames[i].size == encode(frames[i].crop)
      && runs[i].end < sheet.width
    ensures forall i, j :: 0 <= i < j < |frames| ==> frames[i].name != frames[j].name
  {
    runs := DetectFrameRuns(Some(sheet), prm.alpha, prm.minWidth, prm.gapTol);
    frames := ExtractRunsAsBlobs(runs, prm.prefix + "_", prm.padLen, sheet.height, encode);
  }

  /**
   * `onAutoSlice()`: without a sheet, or when nothing is detected, nothing
   * changes. Otherwise one slice file per detected run is appended, numbered
   * from 1 and sized by the encoder, while the manifest is re-pointed at the
   * prefix and its assets are replaced by the new frames only. The detected
   * runs are returned alongside the new state.
   */
  method AutoSlice(st: State, f: Fields, encode: Crop -> nat) returns (r: State, runs: seq<Run>)
    requires Inv(st)
    ensures Inv(r)
    ensures r.sheet == st.sheet
    ensures st.sheet == None ==> runs == [] && r == st
    ensures st.sheet.Some? ==>
      var prm := ReadParams(f);
      exists occ :: IsOccupancy(st.sheet.value, prm.alpha, occ) && DetectSpec(occ, prm.minWidth, EffectiveTol(prm.gapTol), runs)
    ensures runs == [] <==> r == st
    ensures |r.slices| == |st.slices| + |runs| && r.slices[..|st.slices|] == st.slices
    ensures runs != [] ==>
      var prm := ReadParams(f);
      var p := prm.prefix;
      && st.sheet.Some?
      && r.manifest.id == p
      && |r.manifest.assets| == |runs|
      && forall i :: 0 <= i < |runs| ==>
        var added := r.slices[|st.slices| + i];
        && added.name == FrameName(p + "_", i + 1, prm.padLen)
        && added.size == encode(CropOf(runs[i], st.sheet.value.height))
        && r.manifest.assets[i] == AssetEntry(added.name, AssetPath(p, added.name), added.size, PngType)
  {
    if st.sheet == None {
      return st, [];
    }
    var prm := ReadParams(f);
    var frames;
    runs, frames := SliceSheet(st.sheet.value, prm, encode);
    if |frames| == 0 {
      return st, runs;
    }
    var blobs := FramesAsBlobs(frames);
    var added := seq(|frames|, i requires 0 <= i < |frames| => SliceOf(frames[i]));
    DescribeKeepsInv(st, prm.prefix, blobs);
    r := State(st.sheet, st.slices + added, Describe(st.manifest, prm.prefix, blobs));
    assert r.slices[..|st.slices|] == st.slices;
    forall i | 0 <= i < |runs|
      ensures r.slices[|st.slices| + i] == SliceOf(frames[i])
      ensures r.manifest.assets[i] == AssetOf(prm.prefix, blobs[i])
    {
    }
  }

  /**
   * `onAutoSliceAndZip()`: without a sheet, or when nothing is detected,
   * nothing changes and there is no archive. Otherwise the archive holds one
   * file per detected run, in order, then the manifest; the state's manifest
   * is replaced as in `AutoSlice` and equals the one inside the archive, but
   * the slice files are left as they were.
   */
  method AutoSliceAndZip(st: State, f: Fields, encode: Crop -> nat) returns (r: State, zip: Option<Zip>, runs: seq<Run>)
    requires Inv(st)
    ensures Inv(r)
    ensures r.sheet == st.sheet && r.slices == st.slices
    ensures st.sheet == None ==> runs == []
    ensures st.sheet.Some? ==>
      var prm := ReadParams(f);
      exists occ :: IsOccupancy(st.sheet.value, prm.alpha, occ) && DetectSpec(occ, prm.minWidth, EffectiveTol(prm.gapTol), runs)
    ensures runs == [] <==> zip == None
    ensures zip == None ==> r == st
    ensures zip.Some? ==>
      var prm := ReadParams(f);
      var p := prm.prefix;
      && st.sheet.Some?
      && zip.value.filename == p + ".zip"
      && r.manifest.id == p
      && |r.manifest.assets| == |runs|
      && |zip.value.entries| == |runs| + 1
      && zip.value.entries[|runs|] == ZipEntry(ManifestPath(p), ManifestJson(r.manifest))
      && forall i :: 0 <= i < |runs| ==>
        var name := FrameName(p + "_", i + 1, prm.padLen);
        var size := encode(CropOf(runs[i], st.sheet.value.height));
        && zip.value.entries[i] == ZipEntry(EntryPath(p, name), Png(size))
        && r.manifest.assets[i] == AssetEntry(name, AssetPath(p, name), size, PngType)
  {
    if st.sheet == None {
      return st, None, [];
    }
    var prm := ReadParams(f);
    var frames;
    runs, frames := SliceSheet(st.sheet.value, prm, encode);
    if |frames| == 0 {
      return st, None, runs;
    }
    var blobs := FramesAsBlobs(frames);
    assert DistinctNames(blobs) by {
      forall i, j | 0 <= i < j < |blobs|
        ensures blobs[i].name != blobs[j].name
      {
        assert blobs[i].name == frames[i].name && blobs[j].name == frames[j].name;
      }
    }
    var z := BuildZip(blobs, prm.prefix);
    BuildZipDistinctNames(blobs, prm.prefix);
    DescribeKeepsInv(st, prm.prefix, blobs);
    r := st.(manifest := Describe(st.manifest, prm.prefix, blobs));
    zip := Some(z);
    forall i | 0 <= i < |runs|
      ensures r.manifest.assets[i] == AssetOf(prm.prefix, blobs[i])
    {
    }
  }

  /** `slicesFiles.map(f => ({ name: f.name, blob: f.blob }))`. */
  function SliceBlobs(slices: seq<SliceFile>): seq<NamedBlob> {
    seq(|slices|, i requires 0 <= i < |slices| => BlobOf(slices[i]))
  }

  /**
   * `onDownloadCurrentZip()`: with no slices nothing happens; otherwise the
   * archive of all current slice files under the field's prefix, and the
   * manifest becomes the one inside that archive, listing every slice file
   * in order.
   */
  function DownloadCurrentZip(st: State, f: Fields): (res: (State, Option<Zip>))
    requires Inv(st)
    ensures Inv(res.0)
    ensures res.0.sheet == st.sheet && res.0.slices == st.slices
    ensures st.slices == [] <==> res.1 == None
    ensures st.slices == [] ==> res.0 == st
    ensures res.1.Some? ==>
      var p := ReadParams(f).prefix;
      && res.1 == Some(BuildZip(SliceBlobs(st.slices), p))
      && res.0.manifest == ManifestFor(p, SliceBlobs(st.slices))
      && res.1.value.filename == p + ".zip"
      && Lookup(res.1.value.entries, ManifestPath(p)) == Some(ManifestJson(res.0.manifest))
      && |res.0.manifest.assets| == |st.slices|
      && forall i :: 0 <= i < |st.slices| ==>
        res.0.manifest.assets[i] == AssetEntry(st.slices[i].name, AssetPath(p, st.slices[i].name), st.slices[i].size, PngType)
  {
    if st.slices == [] then (st, None)
    else
      var p := ReadParams(f).prefix;
      var blobs := SliceBlobs(st.slices);
      DescribeKeepsInv(st, p, blobs);
      BuildZipContents(blobs, p, "");
      (st.(manifest := Describe(st.manifest, p, blobs)), Some(BuildZip(blobs, p)))
  }

  /**
   * Every slice file can be found in the downloaded archive under
   * `<p>/assets/<p>/<name>`, as a PNG of the size of the last slice with that
   * name; when the slice names are distinct that is the slice itself, and the
   * archive is exactly one file per slice, in order, then the manifest.
   */
  lemma DownloadCurrentZipResolves(st: State, f: Fields, i: int)
    requires Inv(st) && 0 <= i < |st.slices|
    ensures var p := ReadParams(f).prefix;
      var z := DownloadCurrentZip(st, f).1;
      && z.Some?
      && Lookup(z.value.entries, EntryPath(p, st.slices[i].name)).Some?
      && Lookup(z.value.entries, EntryPath(p, st.slices[i].name)).value.Png?
      && ((forall k :: 0 <= k < |st.slices| && k != i ==> st.slices[k].name != st.slices[i].name) ==>
            Lookup(z.value.entries, EntryPath(p, st.slices[i].name)) == Some(Png(st.slices[i].size)))
  {
    var p := ReadParams(f).prefix;
    var blobs := SliceBlobs(st.slices);
    assert blobs[i].name == st.slices[i].name;
    BuildZipContents(blobs, p, st.slices[i].name);
    LastSizeOfPresent(blobs, i);
  }

  /** Distinct names in the slice files make the downloaded archive one file per slice, in order, then the manifest. */
  lemma DownloadCurrentZipDistinct(st: State, f: Fields)
    requires Inv(st) && st.slices != []
    requires forall i, j :: 0 <= i < j < |st.slices| ==> st.slices[i].name != st.slices[j].name
    ensures var p := ReadParams(f).prefix;
      var z := DownloadCurrentZip(st, f).1.value;
      && |z.entries| == |st.slices| + 1
      && (forall i :: 0 <= i < |st.slices| ==> z.entries[i] == ZipEntry(EntryPath(p, st.slices[i].name), Png(st.slices[i].size)))
      && z.entries[|st.slices|] == ZipEntry(ManifestPath(p), ManifestJson(DownloadCurrentZip(st, f).0.manifest))
  {
    var p := ReadParams(f).prefix;
    var blobs := SliceBlobs(st.slices);
    assert DistinctNames(blobs) by {
      forall i, j | 0 <= i < j < |blobs|
        ensures blobs[i].name != blobs[j].name
      {
        assert blobs[i].name == st.slices[i].name && blobs[j].name == st.slices[j].name;
      }
    }
    BuildZipDistinctNames(blobs, p);
  }

  /** `findIndex(x => x.name === name)`: the first slice with that name. */
  function FirstIndexOf(slices: seq<SliceFile>, name: string): (r: Option<nat>)
    ensures r.Some? ==>
      && r.value < |slices| && slices[r.value].name == name
      && forall k :: 0 <= k < r.value ==> slices[k].name != name
    ensures r.None? ==> forall k :: 0 <= k < |slices| ==> slices[k].name != name
    decreases |slices|
  {
    if slices == [] then None
    else if slices[0].name == name then Some(0)
    else match FirstIndexOf(slices[1..], name)
      case None => None
      case Some(i) => Some(i + 1)
  }

  /** `assets.filter(a => a.name !== name)`. */
  function WithoutName(assets: seq<AssetEntry>, name: string): (r: seq<AssetEntry>)
    ensures |r| <= |assets|
    ensures forall a :: a in r <==> a in assets && a.name != name
    decreases |assets|
  {
    if assets == [] then []
    else if assets[0].name == name then WithoutName(assets[1..], name)
    else [assets[0]] + WithoutName(assets[1..], name)
  }

  /**
   * Filtering one entry keeps it exactly when its name differs; together
   * with `WithoutNameConcat` this pins the filter down completely, order and
   * repeated entries included.
   */
  lemma WithoutNameSingle(a: AssetEntry, name: string)
    ensures WithoutName([a], name) == if a.name == name then [] else [a]
  {
    assert [a][1..] == [];
  }

  /** Filtering a concatenation filters each part and keeps them in order. */
  lemma {:induction false} WithoutNameConcat(x: seq<AssetEntry>, y: seq<AssetEntry>, name: string)
    ensures WithoutName(x + y, name) == WithoutName(x, name) + WithoutName(y, name)
    decreases |x|
  {
    if x != [] {
      assert (x + y)[0] == x[0] && (x + y)[1..] == x[1..] + y;
      WithoutNameConcat(x[1..], y, name);
    } else {
      assert x + y == y;
    }
  }

  /** Filtering a name no entry has is the identity. */
  lemma {:induction false} WithoutNameKeepsOthers(assets: seq<AssetEntry>, name: string)
    requires forall k :: 0 <= k < |assets| ==> assets[k].name != name
    ensures WithoutName(assets, name) == assets
    decreases |assets|
  {
    if assets != [] {
      WithoutNameKeepsOthers(assets[1..], name);
    }
  }

  /**
   * The remove button of a slice: the first slice file with that name is
   * spliced out, the others keeping their order, and every manifest asset
   * with that name is filtered out. A name no slice has changes nothing.
   */
  function Remove(st: State, name: string): (r: State)
    requires Inv(st)
    ensures Inv(r)
    ensures r.sheet == st.sheet && r.manifest.id == st.manifest.id
    ensures (forall k :: 0 <= k < |st.slices| ==> st.slices[k].name != name) ==> r == st
    ensures (exists k :: 0 <= k < |st.slices| && st.slices[k].name == name) ==>
      var i := FirstIndexOf(st.slices, name).value;
      && |r.slices| == |st.slices| - 1
      && r.slices == st.slices[..i] + st.slices[i + 1..]
      && r.manifest == st.manifest.(assets := WithoutName(st.manifest.assets, name))
      && forall a :: a in r.manifest.assets <==> a in st.manifest.assets && a.name != name
  {
    match FirstIndexOf(st.slices, name)
    case None => st
    case Some(i) =>
      var assets := WithoutName(st.manifest.assets, name);
      WithoutNameInv(st, name);
      st.(slices := st.slices[..i] + st.slices[i + 1..],
          manifest := st.manifest.(assets := assets))
  }

  lemma WithoutNameInv(st: State, name: string)
    requires Inv(st)
    ensures Inv(st.(manifest := st.manifest.(assets := WithoutName(st.manifest.assets, name))))
  {
  }

  /** Removing a name drops all of its manifest entries but only one slice file: a duplicated name survives in the slices. */
  lemma RemoveDuplicate(st: State, name: string, i: int, j: int)
    requires Inv(st)
    requires 0 <= i < j < |st.slices| && st.slices[i].name == name && st.slices[j].name == name
    ensures var r := Remove(st, name);
      && (exists k :: 0 <= k < |r.slices| && r.slices[k].name == name)
      && (forall a :: a in r.manifest.assets ==> a.name != name)
  {
    var r := Remove(st, name);
    var f := FirstIndexOf(st.slices, name);
    assert f.Some? && f.value <= i;
    assert r.slices[j - 1] == st.slices[j];
  }
}
