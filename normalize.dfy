/**
  `normalizeStats` (index.js:14-19): turns a webpack-style stats object into a
  map from display name to `{size}`.

  JavaScript objects are modelled as maps, without their key order; the
  lists the source folds over (`Object.keys(assetsByChunkName)` and `assets`)
  are sequences in their original order, and each `reduce` that rebuilds an
  object by spreading is a left fold written as recursion on the prefix.
*/
module Normalize {
  import opened Wrappers

  /** The value of one `assetsByChunkName` entry: a bare file name or a list of them. */
  datatype ChunkFiles = Single(file: string) | Multiple(files: seq<string>)

  /** One entry of `assetsByChunkName`, in `Object.keys` order. */
  datatype Chunk = Chunk(name: string, files: ChunkFiles)

  /** One record of `assets`. */
  datatype Asset = Asset(name: string, size: nat)

  /** The `{ size }` record stored per display name. */
  datatype SizeEntry = SizeEntry(size: nat)

  /** A raw stats object; either field may be missing. */
  datatype Stats = Stats(assetsByChunkName: Option<seq<Chunk>>, assets: Option<seq<Asset>>)

  datatype NormalizeError = MalformedManifest

  /** `Array.prototype.join(",")`, which is what `String` of an array computes. */
  function Join(files: seq<string>): (r: string)
    ensures forall j :: 0 <= j < |files| ==> |r| >= |files[j]|
  {
    if |files| == 0 then ""
    else if |files| == 1 then files[0]
    else files[0] + "," + Join(files[1..])
  }

  /** `String(assetsMap[key])`. */
  function Stringify(files: ChunkFiles): (r: string)
    ensures files.Multiple? ==> forall j :: 0 <= j < |files.files| ==> |r| >= |files.files[j]|
  {
    match files
    case Single(f) => f
    case Multiple(fs) => Join(fs)
  }

  /** The inverse lookup `chunkNames` of index.js:16: `String(value)` to chunk name, later entries overwriting earlier ones. */
  function ChunkNames(chunks: seq<Chunk>): (r: map<string, string>)
    ensures forall key :: key in r ==>
      exists i :: 0 <= i < |chunks| && Stringify(chunks[i].files) == key && r[key] == chunks[i].name
  {
    if |chunks| == 0 then map[]
    else
      var prefix, last := chunks[..|chunks| - 1], chunks[|chunks| - 1];
      assert forall i :: 0 <= i < |prefix| ==> prefix[i] == chunks[i];
      ChunkNames(prefix)[Stringify(last.files) := last.name]
  }

  /** `chunkNames[name] || name`: an empty chunk name is falsy and falls back to the file name. */
  function DisplayName(chunkNames: map<string, string>, file: string): (r: string)
    ensures r == file || (file in chunkNames && r == chunkNames[file])
    ensures r == "" ==> file == ""
  {
    if file in chunkNames && chunkNames[file] != "" then chunkNames[file] else file
  }

  /** The `assets` fold of index.js:17: display name to size, later assets overwriting earlier ones. */
  function AssetSizes(chunkNames: map<string, string>, assets: seq<Asset>): (r: map<string, nat>)
    ensures |r| <= |assets|
  {
    if |assets| == 0 then map[]
    else
      var last := assets[|assets| - 1];
      AssetSizes(chunkNames, assets[..|assets| - 1])[DisplayName(chunkNames, last.name) := last.size]
  }

  /** The set of display names the assets resolve to. */
  function DisplayNames(chunkNames: map<string, string>, assets: seq<Asset>): set<string>
  {
    set i | 0 <= i < |assets| :: DisplayName(chunkNames, assets[i].name)
  }

  /** `normalizeStats` on a well-formed stats object (index.js:15-18). */
  function NormalizeStats(chunks: seq<Chunk>, assets: seq<Asset>): (r: map<string, SizeEntry>)
    ensures r.Keys == DisplayNames(ChunkNames(chunks), assets)
    ensures |assets| == 0 ==> r == map[]
  {
    var sizes := AssetSizes(ChunkNames(chunks), assets);
    AssetSizesKeys(ChunkNames(chunks), assets);
    map name | name in sizes :: SizeEntry(sizes[name])
  }

  /** `normalizeStats(stats)`: a stats object without `assetsByChunkName` or `assets` makes the source throw. */
  function Normalize(stats: Stats): (r: Result<map<string, SizeEntry>, NormalizeError>)
    ensures r.Failure? <==> stats.assetsByChunkName.None? || stats.assets.None?
    ensures r.Success? ==> r.value.Keys == DisplayNames(ChunkNames(stats.assetsByChunkName.value), stats.assets.value)
    ensures r.Success? ==> r.value == NormalizeStats(stats.assetsByChunkName.value, stats.assets.value)
  {
    match (stats.assetsByChunkName, stats.assets)
    case (Some(chunks), Some(assets)) => Success(NormalizeStats(chunks, assets))
    case _ => Failure(MalformedManifest)
  }

  // ---------------------------------------------------------------------------
  // The inverse lookup

  /** A joined list is at least as long as any of its items plus one comma per further item. */
  lemma {:induction false} JoinLength(files: seq<string>, j: nat)
    requires j < |files|
    ensures |Join(files)| >= |files[j]| + |files| - 1
  {
    if |files| > 1 {
      var rest := files[1..];
      assert |Join(files)| == |files[0]| + 1 + |Join(rest)|;
      if j == 0 {
        JoinLength(rest, 0);
      } else {
        JoinLength(rest, j - 1);
      }
    }
  }

  /** A chunk listing two or more files is keyed by their comma-joined list, which is none of them. */
  lemma MultipleFilesKeyedByJoin(files: seq<string>)
    requires |files| >= 2
    ensures forall j :: 0 <= j < |files| ==> Stringify(Multiple(files)) != files[j]
  {
    forall j | 0 <= j < |files| ensures Stringify(Multiple(files)) != files[j] {
      JoinLength(files, j);
    }
  }

  /** A one-element list stringifies to its only file, exactly like a bare file name. */
  lemma SingletonListIsSingle(file: string)
    ensures Stringify(Multiple([file])) == Stringify(Single(file)) == file
  {
  }

  /** The lookup's keys are exactly the stringified chunk values. */
  lemma {:induction false} ChunkNamesKeys(chunks: seq<Chunk>)
    ensures ChunkNames(chunks).Keys == set i | 0 <= i < |chunks| :: Stringify(chunks[i].files)
  {
    if |chunks| > 0 {
      var prefix := chunks[..|chunks| - 1];
      ChunkNamesKeys(prefix);
      assert forall i :: 0 <= i < |prefix| ==> prefix[i] == chunks[i];
    }
  }

  /** The lookup maps a key to the name of the LAST chunk whose value stringifies to it. */
  lemma {:induction false} ChunkNamesLastWins(chunks: seq<Chunk>, i: nat)
    requires i < |chunks|
    requires forall j :: i < j < |chunks| ==> Stringify(chunks[j].files) != Stringify(chunks[i].files)
    ensures Stringify(chunks[i].files) in ChunkNames(chunks)
    ensures ChunkNames(chunks)[Stringify(chunks[i].files)] == chunks[i].name
  {
    if i < |chunks| - 1 {
      var prefix := chunks[..|chunks| - 1];
      assert prefix[i] == chunks[i];
      forall j | i < j < |prefix| ensures Stringify(prefix[j].files) != Stringify(prefix[i].files) {
        assert prefix[j] == chunks[j];
      }
      ChunkNamesLastWins(prefix, i);
    }
  }

  /** A file named by a single-file chunk (the last one to name it) displays as that chunk's name. */
  lemma SingleFileResolves(chunks: seq<Chunk>, i: nat, file: string)
    requires i < |chunks| && chunks[i].files == Single(file) && chunks[i].name != ""
    requires forall j :: i < j < |chunks| ==> Stringify(chunks[j].files) != file
    ensures DisplayName(ChunkNames(chunks), file) == chunks[i].name
  {
    ChunkNamesLastWins(chunks, i);
  }

  /** A file that no chunk value stringifies to displays as its own file name. */
  lemma UnresolvedKeepsFileName(chunks: seq<Chunk>, file: string)
    requires forall i :: 0 <= i < |chunks| ==> Stringify(chunks[i].files) != file
    ensures DisplayName(ChunkNames(chunks), file) == file
  {
    ChunkNamesKeys(chunks);
  }

  /** The files of a multi-file chunk are not resolved by any chunk unless some other chunk value stringifies to them. */
  lemma MultipleFilesUnresolved(chunks: seq<Chunk>, i: nat, j: nat)
    requires i < |chunks| && chunks[i].files.Multiple? && |chunks[i].files.files| >= 2
    requires j < |chunks[i].files.files|
    requires forall k :: 0 <= k < |chunks| && k != i ==> Stringify(chunks[k].files) != chunks[i].files.files[j]
    ensures DisplayName(ChunkNames(chunks), chunks[i].files.files[j]) == chunks[i].files.files[j]
  {
    MultipleFilesKeyedByJoin(chunks[i].files.files);
    UnresolvedKeepsFileName(chunks, chunks[i].files.files[j]);
  }

  // ---------------------------------------------------------------------------
  // The normalized map

  /** The fold's keys are exactly the display names of the assets. */
  lemma {:induction false} AssetSizesKeys(chunkNames: map<string, string>, assets: seq<Asset>)
    ensures AssetSizes(chunkNames, assets).Keys == DisplayNames(chunkNames, assets)
  {
    if |assets| > 0 {
      var prefix := assets[..|assets| - 1];
      AssetSizesKeys(chunkNames, prefix);
      assert forall i :: 0 <= i < |prefix| ==> prefix[i] == assets[i];
    }
  }

  /** The fold keeps, per display name, the size of the LAST asset that resolves to it. */
  lemma {:induction false} AssetSizesLastWins(chunkNames: map<string, string>, assets: seq<Asset>, i: nat)
    requires i < |assets|
    requires forall j :: i < j < |assets| ==>
      DisplayName(chunkNames, assets[j].name) != DisplayName(chunkNames, assets[i].name)
    ensures DisplayName(chunkNames, assets[i].name) in AssetSizes(chunkNames, assets)
    ensures AssetSizes(chunkNames, assets)[DisplayName(chunkNames, assets[i].name)] == assets[i].size
  {
    if i < |assets| - 1 {
      var prefix := assets[..|assets| - 1];
      assert prefix[i] == assets[i];
      forall j | i < j < |prefix|
        ensures DisplayName(chunkNames, prefix[j].name) != DisplayName(chunkNames, prefix[i].name)
      {
        assert prefix[j] == assets[j];
      }
      AssetSizesLastWins(chunkNames, prefix, i);
    }
  }

  /** Each normalized entry is `{size}` of the last asset that resolves to its display name. */
  lemma NormalizedLastWins(chunks: seq<Chunk>, assets: seq<Asset>, i: nat)
    requires i < |assets|
    requires forall j :: i < j < |assets| ==>
      DisplayName(ChunkNames(chunks), assets[j].name) != DisplayName(ChunkNames(chunks), assets[i].name)
    ensures DisplayName(ChunkNames(chunks), assets[i].name) in NormalizeStats(chunks, assets)
    ensures NormalizeStats(chunks, assets)[DisplayName(ChunkNames(chunks), assets[i].name)] == SizeEntry(assets[i].size)
  {
    AssetSizesLastWins(ChunkNames(chunks), assets, i);
  }

  /** Every entry of the fold comes from some asset that resolves to its key. */
  lemma {:induction false} AssetSizesFromAsset(chunkNames: map<string, string>, assets: seq<Asset>, name: string)
    requires name in AssetSizes(chunkNames, assets)
    ensures exists i :: (0 <= i < |assets| && DisplayName(chunkNames, assets[i].name) == name &&
                         AssetSizes(chunkNames, assets)[name] == assets[i].size)
  {
    var last := assets[|assets| - 1];
    if DisplayName(chunkNames, last.name) != name {
      var prefix := assets[..|assets| - 1];
      AssetSizesFromAsset(chunkNames, prefix, name);
      var i :| 0 <= i < |prefix| && DisplayName(chunkNames, prefix[i].name) == name &&
        AssetSizes(chunkNames, prefix)[name] == prefix[i].size;
      assert prefix[i] == assets[i];
    }
  }

  /** Every normalized entry is `{size}` of some asset that resolves to its key. */
  lemma NormalizedFromAsset(chunks: seq<Chunk>, assets: seq<Asset>, name: string)
    requires name in NormalizeStats(chunks, assets)
    ensures exists i :: (0 <= i < |assets| && DisplayName(ChunkNames(chunks), assets[i].name) == name &&
                         NormalizeStats(chunks, assets)[name] == SizeEntry(assets[i].size))
  {
    AssetSizesKeys(ChunkNames(chunks), assets);
    AssetSizesFromAsset(ChunkNames(chunks), assets, name);
  }

  /** Worked example: one single-file chunk and its asset. */
  lemma SingleChunkExample()
    ensures NormalizeStats([Chunk("main", Single("main.a1b2.js"))], [Asset("main.a1b2.js", 102400)])
         == map["main" := SizeEntry(102400)]
  {
  }
}
