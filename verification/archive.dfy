/**
 * `buildZipFromBlobs`: the archive layout and the manifest it carries.
 *
 * The archive is its logical list of file entries in insertion order; a
 * file added under a path that is already present replaces that entry in
 * place, as JSZip's `file(name, data)` does. Compression and the JSON text
 * of the manifest are not modelled: an entry holds either the byte size of
 * a PNG or the manifest record itself.
 */
module Archive {
  import opened Wrappers

  /** One extracted frame as the archive sees it: its file name and PNG byte size. */
  datatype NamedBlob = NamedBlob(name: string, size: nat)

  /** One element of `manifest.assets`. */
  datatype AssetEntry = AssetEntry(name: string, path: string, size: nat, mime: string)

  datatype Manifest = Manifest(id: string, title: string, version: string, assets: seq<AssetEntry>)

  datatype Content = Png(size: nat) | ManifestJson(manifest: Manifest)

  datatype ZipEntry = ZipEntry(path: string, content: Content)

  /** The generated archive and the file name it is offered under. */
  datatype Zip = Zip(entries: seq<ZipEntry>, filename: string)

  const Title: string := "Auto Slices"
  const Version: string := "1.0.0"
  const PngType: string := "image/png"

  /** Where a frame sits inside the archive: `<p>/assets/<p>/<name>`. */
  function EntryPath(p: string, name: string): string {
    p + "/assets/" + p + "/" + name
  }

  /** Where the manifest sits inside the archive: `<p>/manifest.json`. */
  function ManifestPath(p: string): string {
    p + "/manifest.json"
  }

  /** The path a manifest entry gives for a frame, relative to the root folder: `assets/<p>/<name>`. */
  function AssetPath(p: string, name: string): string {
    "assets/" + p + "/" + name
  }

  function AssetOf(p: string, b: NamedBlob): AssetEntry {
    AssetEntry(b.name, AssetPath(p, b.name), b.size, PngType)
  }

  /** The manifest of a set of frames: one asset per frame, in frame order. */
  function ManifestFor(p: string, blobs: seq<NamedBlob>): Manifest {
    Manifest(p, Title, Version, seq(|blobs|, i requires 0 <= i < |blobs| => AssetOf(p, blobs[i])))
  }

  /** The content stored under `path`, if any (the first entry with that path). */
  function Lookup(entries: seq<ZipEntry>, path: string): Option<Content>
    decreases |entries|
  {
    if entries == [] then None
    else if entries[0].path == path then Some(entries[0].content)
    else Lookup(entries[1..], path)
  }

  function PathSet(entries: seq<ZipEntry>): set<string> {
    set i | 0 <= i < |entries| :: entries[i].path
  }

  predicate DistinctPaths(entries: seq<ZipEntry>) {
    forall i, j :: 0 <= i < j < |entries| ==> entries[i].path != entries[j].path
  }

  /** JSZip's `file(path, data)`: overwrite the entry with that path in place, or append a new one. */
  function AddFile(entries: seq<ZipEntry>, path: string, content: Content): seq<ZipEntry>
    decreases |entries|
  {
    if entries == [] then [ZipEntry(path, content)]
    else if entries[0].path == path then [ZipEntry(path, content)] + entries[1..]
    else [entries[0]] + AddFile(entries[1..], path, content)
  }

  /** Adding a file adds its path to the archive's paths and no other. */
  lemma {:induction false} AddFilePaths(entries: seq<ZipEntry>, path: string, content: Content)
    ensures PathSet(AddFile(entries, path, content)) == PathSet(entries) + {path}
    decreases |entries|
  {
    var r := AddFile(entries, path, content);
    if entries != [] {
      if entries[0].path == path {
        assert PathSet(entries) == {entries[0].path} + PathSet(entries[1..]) by {
          PathSetCons(entries);
        }
        PathSetCons(r);
        assert r[1..] == entries[1..];
      } else {
        AddFilePaths(entries[1..], path, content);
        PathSetCons(entries);
        PathSetCons(r);
        assert r[1..] == AddFile(entries[1..], path, content);
      }
    } else {
      assert r == [ZipEntry(path, content)];
      assert r[0].path in PathSet(r);
      assert PathSet(r) <= {path};
    }
  }

  lemma PathSetCons(entries: seq<ZipEntry>)
    requires entries != []
    ensures PathSet(entries) == {entries[0].path} + PathSet(entries[1..])
  {
  }

  lemma DistinctCons(x: ZipEntry, tail: seq<ZipEntry>)
    requires x.path !in PathSet(tail) && DistinctPaths(tail)
    ensures DistinctPaths([x] + tail)
  {
  }

  lemma DistinctUncons(entries: seq<ZipEntry>)
    requires entries != [] && DistinctPaths(entries)
    ensures entries[0].path !in PathSet(entries[1..]) && DistinctPaths(entries[1..])
  {
  }

  /** Adding a file never creates two entries with the same path. */
  lemma {:induction false} AddFileDistinct(entries: seq<ZipEntry>, path: string, content: Content)
    requires DistinctPaths(entries)
    ensures DistinctPaths(AddFile(entries, path, content))
    decreases |entries|
  {
    if entries != [] {
      var rest := entries[1..];
      DistinctUncons(entries);
      if entries[0].path == path {
        DistinctCons(ZipEntry(path, content), rest);
      } else {
        AddFileDistinct(rest, path, content);
        AddFilePaths(rest, path, content);
        DistinctCons(entries[0], AddFile(rest, path, content));
      }
    }
  }

  /** After adding, the path holds the new content and every other path what it held before. */
  lemma {:induction false} AddFileLookup(entries: seq<ZipEntry>, path: string, content: Content, q: string)
    ensures Lookup(AddFile(entries, path, content), q) == if q == path then Some(content) else Lookup(entries, q)
    decreases |entries|
  {
    if entries != [] && entries[0].path != path {
      AddFileLookup(entries[1..], path, content, q);
      assert AddFile(entries, path, content)[1..] == AddFile(entries[1..], path, content);
    } else if entries != [] {
      assert AddFile(entries, path, content)[1..] == entries[1..];
    }
  }

  /** A new path is appended at the end. */
  lemma {:induction false} AddFileFresh(entries: seq<ZipEntry>, path: string, content: Content)
    requires path !in PathSet(entries)
    ensures AddFile(entries, path, content) == entries + [ZipEntry(path, content)]
    decreases |entries|
  {
    if entries != [] {
      PathSetCons(entries);
      AddFileFresh(entries[1..], path, content);
      assert entries == [entries[0]] + entries[1..];
    }
  }

  /** An existing path is overwritten where it stands: the order of the archive does not change. */
  lemma {:induction false} AddFileExisting(entries: seq<ZipEntry>, path: string, content: Content, k: int)
    requires DistinctPaths(entries)
    requires 0 <= k < |entries| && entries[k].path == path
    ensures AddFile(entries, path, content) == entries[k := ZipEntry(path, content)]
    decreases |entries|
  {
    if k > 0 {
      assert entries[0].path != path;
      AddFileExisting(entries[1..], path, content, k - 1);
      assert entries[k := ZipEntry(path, content)] == [entries[0]] + entries[1..][k - 1 := ZipEntry(path, content)];
    }
  }

  /** `blobs.forEach(b => assetsFolder.file(b.name, b.blob))`. */
  function AddBlobs(entries: seq<ZipEntry>, p: string, blobs: seq<NamedBlob>): seq<ZipEntry>
    decreases |blobs|
  {
    if blobs == [] then entries
    else
      var last := blobs[|blobs| - 1];
      AddFile(AddBlobs(entries, p, blobs[..|blobs| - 1]), EntryPath(p, last.name), Png(last.size))
  }

  /** The size of the last frame called `name`: the one whose data ends up in the archive. */
  function LastSizeOf(blobs: seq<NamedBlob>, name: string): Option<nat>
    decreases |blobs|
  {
    if blobs == [] then None
    else if blobs[|blobs| - 1].name == name then Some(blobs[|blobs| - 1].size)
    else LastSizeOf(blobs[..|blobs| - 1], name)
  }

  function PngOf(size: Option<nat>): Option<Content> {
    match size
    case None => None
    case Some(s) => Some(Png(s))
  }

  predicate DistinctNames(blobs: seq<NamedBlob>) {
    forall i, j :: 0 <= i < j < |blobs| ==> blobs[i].name != blobs[j].name
  }

  /** Frame paths of one prefix are distinct exactly when the frame names are. */
  lemma EntryPathInjective(p: string, a: string, b: string)
    ensures EntryPath(p, a) == EntryPath(p, b) <==> a == b
  {
    var d := p + "/assets/" + p + "/";
    assert EntryPath(p, a) == d + a && EntryPath(p, b) == d + b;
    if d + a == d + b {
      assert a == (d + a)[|d|..] && b == (d + b)[|d|..];
    }
  }

  /** The manifest can never be overwritten by a frame: the paths differ right after `<p>/`. */
  lemma ManifestPathFresh(p: string, name: string)
    ensures ManifestPath(p) != EntryPath(p, name)
  {
    assert ManifestPath(p)[|p| + 1] == 'm';
    assert EntryPath(p, name)[|p| + 1] == 'a';
  }

  /** The frame files in the archive: each name holds the data of the last frame with that name, and nothing else is there. */
  lemma {:induction false} AddBlobsLookup(p: string, blobs: seq<NamedBlob>, name: string)
    ensures Lookup(AddBlobs([], p, blobs), EntryPath(p, name)) == PngOf(LastSizeOf(blobs, name))
    ensures Lookup(AddBlobs([], p, blobs), ManifestPath(p)) == None
    decreases |blobs|
  {
    if blobs != [] {
      var init, last := blobs[..|blobs| - 1], blobs[|blobs| - 1];
      AddBlobsLookup(p, init, name);
      AddFileLookup(AddBlobs([], p, init), EntryPath(p, last.name), Png(last.size), EntryPath(p, name));
      AddFileLookup(AddBlobs([], p, init), EntryPath(p, last.name), Png(last.size), ManifestPath(p));
      EntryPathInjective(p, name, last.name);
      ManifestPathFresh(p, last.name);
    }
  }

  /** The frame files never share a path, and none of them is the manifest's. */
  lemma {:induction false} AddBlobsPaths(p: string, blobs: seq<NamedBlob>)
    ensures DistinctPaths(AddBlobs([], p, blobs))
    ensures ManifestPath(p) !in PathSet(AddBlobs([], p, blobs))
    decreases |blobs|
  {
    if blobs != [] {
      var init, last := blobs[..|blobs| - 1], blobs[|blobs| - 1];
      AddBlobsPaths(p, init);
      AddFileDistinct(AddBlobs([], p, init), EntryPath(p, last.name), Png(last.size));
      AddFilePaths(AddBlobs([], p, init), EntryPath(p, last.name), Png(last.size));
      ManifestPathFresh(p, last.name);
    }
  }

  /** With distinct names there is exactly one file per frame, in frame order. */
  lemma {:induction false} AddBlobsDistinctNames(p: string, blobs: seq<NamedBlob>)
    requires DistinctNames(blobs)
    ensures AddBlobs([], p, blobs) == seq(|blobs|, i requires 0 <= i < |blobs| => ZipEntry(EntryPath(p, blobs[i].name), Png(blobs[i].size)))
    decreases |blobs|
  {
    if blobs != [] {
      var init, last := blobs[..|blobs| - 1], blobs[|blobs| - 1];
      var files := AddBlobs([], p, init);
      AddBlobsDistinctNames(p, init);
      forall i | 0 <= i < |files|
        ensures files[i].path != EntryPath(p, last.name)
      {
        assert blobs[i] == init[i];
        EntryPathInjective(p, init[i].name, last.name);
      }
      AddFileFresh(files, EntryPath(p, last.name), Png(last.size));
    }
  }

  /** `buildZipFromBlobs(blobs, p)`: the frame files, then the manifest, offered as `<p>.zip`. */
  function BuildZip(blobs: seq<NamedBlob>, p: string): Zip {
    var files := AddBlobs([], p, blobs);
    Zip(AddFile(files, ManifestPath(p), ManifestJson(ManifestFor(p, blobs))), p + ".zip")
  }

  /**
   * The archive never holds two entries with one path, ends with the
   * manifest, and holds for every frame name the data of the last frame of
   * that name.
   */
  lemma BuildZipContents(blobs: seq<NamedBlob>, p: string, name: string)
    ensures var z := BuildZip(blobs, p);
      && z.filename == p + ".zip"
      && DistinctPaths(z.entries)
      && z.entries == AddBlobs([], p, blobs) + [ZipEntry(ManifestPath(p), ManifestJson(ManifestFor(p, blobs)))]
      && Lookup(z.entries, ManifestPath(p)) == Some(ManifestJson(ManifestFor(p, blobs)))
      && Lookup(z.entries, EntryPath(p, name)) == PngOf(LastSizeOf(blobs, name))
  {
    var files := AddBlobs([], p, blobs);
    var m := ManifestJson(ManifestFor(p, blobs));
    AddBlobsPaths(p, blobs);
    AddBlobsLookup(p, blobs, name);
    AddFileFresh(files, ManifestPath(p), m);
    AddFileDistinct(files, ManifestPath(p), m);
    AddFileLookup(files, ManifestPath(p), m, ManifestPath(p));
    AddFileLookup(files, ManifestPath(p), m, EntryPath(p, name));
    ManifestPathFresh(p, name);
  }

  /** With distinct frame names the archive is one file per frame, in order, followed by the manifest. */
  lemma BuildZipDistinctNames(blobs: seq<NamedBlob>, p: string)
    requires DistinctNames(blobs)
    ensures var z := BuildZip(blobs, p);
      && |z.entries| == |blobs| + 1
      && (forall i :: 0 <= i < |blobs| ==> z.entries[i] == ZipEntry(EntryPath(p, blobs[i].name), Png(blobs[i].size)))
      && z.entries[|blobs|] == ZipEntry(ManifestPath(p), ManifestJson(ManifestFor(p, blobs)))
  {
    BuildZipContents(blobs, p, "");
    AddBlobsDistinctNames(p, blobs);
  }

  /** The manifest lists every frame once, in order, as a PNG under `assets/<p>/`, with id `p`. */
  lemma ManifestDescribesFrames(blobs: seq<NamedBlob>, p: string)
    ensures var m := ManifestFor(p, blobs);
      && m.id == p && m.title == Title && m.version == Version
      && |m.assets| == |blobs|
      && forall i :: 0 <= i < |blobs| ==>
        && m.assets[i].name == blobs[i].name
        && m.assets[i].size == blobs[i].size
        && m.assets[i].mime == PngType
        && p + "/" + m.assets[i].path == EntryPath(p, blobs[i].name)
  {
  }

  /**
   * Every path in the manifest, read from the root folder, names a PNG in
   * the archive; with distinct frame names it has the size the manifest
   * records.
   */
  lemma ManifestResolves(blobs: seq<NamedBlob>, p: string, i: int)
    requires 0 <= i < |blobs|
    ensures var a := ManifestFor(p, blobs).assets[i];
      && Lookup(BuildZip(blobs, p).entries, p + "/" + a.path) == PngOf(LastSizeOf(blobs, a.name))
      && LastSizeOf(blobs, a.name) != None
      && (DistinctNames(blobs) ==> Lookup(BuildZip(blobs, p).entries, p + "/" + a.path) == Some(Png(a.size)))
  {
    var a := ManifestFor(p, blobs).assets[i];
    ManifestDescribesFrames(blobs, p);
    BuildZipContents(blobs, p, a.name);
    LastSizeOfPresent(blobs, i);
  }

  /**
   * A name that occurs has a last occurrence; when no other frame has that
   * name (in particular, when all names are distinct) it is the frame itself.
   */
  lemma {:induction false} LastSizeOfPresent(blobs: seq<NamedBlob>, i: int)
    requires 0 <= i < |blobs|
    ensures LastSizeOf(blobs, blobs[i].name) != None
    ensures (forall k :: 0 <= k < |blobs| && k != i ==> blobs[k].name != blobs[i].name) ==>
      LastSizeOf(blobs, blobs[i].name) == Some(blobs[i].size)
    ensures DistinctNames(blobs) ==> LastSizeOf(blobs, blobs[i].name) == Some(blobs[i].size)
    decreases |blobs|
  {
    if i < |blobs| - 1 && blobs[|blobs| - 1].name != blobs[i].name {
      LastSizeOfPresent(blobs[..|blobs| - 1], i);
    }
  }
}
