# cmprs: bundle-size comparison, modelled in Dafny

`cmprs` compares two webpack stats files and sorts every build artifact by
how its size changed. This project models the two pieces of logic in
`index.js` that do this and proves properties about them.

- **Normalization** (`normalizeStats`, module `Normalize`, file `normalize.dfy`).
  It builds an inverse lookup from `String(value)` of each
  `assetsByChunkName` entry to its chunk name. It then folds over `assets`,
  keying each asset's size by its chunk name when the lookup resolves its
  file name, and by the file name otherwise. Each size is wrapped as `{size}`.
  The folds are written as recursive functions, with lemmas stating the key
  set and the last-write-wins values. A chunk value is `Single(file)` or
  `Multiple(files)`. `String` of a list is its comma-joined text, so a chunk
  listing two or more files never resolves any of them.
- **Classification** (the reduce inside the command's action, module
  `Classify`, file `classify.dfy`). The method `Classify` loops over the union
  of the old and new display names. It updates five map variables (`bigger`,
  `smaller`, `same`, `onlyOld`, `onlyNew`) exactly as the source's if/else
  chain decides. `diff` and `pdiff` are computed with JavaScript's rules for
  `undefined`, NaN and the infinities (module `JsNumber`, file
  `js_number.dfy`). The chain is therefore evaluated in the source's own
  order, with its NaN comparisons. Its outcome is then proved, case by case,
  in terms of whole byte counts. With old > 0, `Math.abs(pdiff) < 5` holds
  exactly when `20 * |new - old| < old`.

Edge behaviour of the source that the model keeps:

- A one-sided artifact reaches `onlyOld`/`onlyNew` only because every NaN
  comparison is false.
- An artifact whose present sizes are all 0 is put in no bucket at all
  (`DroppedIffZero`). So the buckets partition only the names with a non-zero
  size, not the whole union. The model follows the code here.
- A presence-first chain (`PresenceFirst`) agrees with the source whenever
  some present size is positive (`AgreesWithPresenceFirst`). The two differ
  exactly when every present size is 0 (`DivergesIffAllZero`,
  `ZeroSizeDiverges`).
- The source throws a `TypeError` on a stats object without
  `assetsByChunkName` or `assets`. The model returns
  `Failure(MalformedManifest)` instead.

Sizes are `nat` byte counts. The stored record keeps the source's KB values
(bytes / 1024) as exact reals.

## Model

| member | source | states |
|---|---|---|
| Normalize.Normalize | index.js:14-19 | fails with `MalformedManifest` exactly when `assetsByChunkName` or `assets` is missing; otherwise it is the normalized map of the two fields, whose keys are the assets' display names |
| Normalize.NormalizeStats | index.js:15-18 | the key set is exactly the set of resolved display names (the chunk name when the lookup gives a non-empty one, else the file name); an empty `assets` list gives an empty map |
| Normalize.Join | index.js:16 | the comma-joined text of a list is at least as long as each of its files |
| Normalize.Stringify | index.js:16 | `String` of a chunk value; for a list it is at least as long as each listed file (with the commas counted in `JoinLength`) |
| Normalize.ChunkNames | index.js:16 | every entry of the inverse lookup comes from a chunk whose value stringifies to the key and whose name is the entry; its keys and last-write-wins values are in `ChunkNamesKeys` and `ChunkNamesLastWins` |
| Normalize.DisplayName | index.js:17 | the display name is the looked-up chunk name or the file name itself, and is empty only for an empty file name |
| Normalize.AssetSizes | index.js:17 | the asset fold has at most one entry per asset, since assets with the same display name overwrite each other; keys and values in `AssetSizesKeys`, `AssetSizesLastWins`, `AssetSizesFromAsset` |
| Normalize.ChunkNamesKeys | index.js:16 | the inverse lookup's keys are exactly the stringified chunk values |
| Normalize.ChunkNamesLastWins | index.js:16 | a key maps to the name of the last chunk whose value stringifies to it, so when two chunks name the same file the later chunk wins |
| Normalize.JoinLength | index.js:16 | `String` of a list is at least as long as any of its files plus one comma per further file |
| Normalize.MultipleFilesKeyedByJoin | index.js:16 | a chunk listing two or more files is keyed by their comma-joined list, which equals none of its files |
| Normalize.SingletonListIsSingle | index.js:16 | a one-element list stringifies to its file, like a bare file name |
| Normalize.SingleFileResolves | index.js:16-17 | a file named by a single-file chunk with a non-empty name, and by no later chunk, displays as that chunk's name |
| Normalize.UnresolvedKeepsFileName | index.js:17 | a file that no chunk value stringifies to displays as its own file name |
| Normalize.MultipleFilesUnresolved | index.js:16-17 | each file of a multi-file chunk keeps its own file name unless another chunk's value stringifies to it |
| Normalize.AssetSizesKeys | index.js:17 | the asset fold's keys are exactly the display names of the assets |
| Normalize.AssetSizesLastWins | index.js:17 | the fold keeps, for each display name, the size of the last asset that resolves to it |
| Normalize.AssetSizesFromAsset | index.js:17 | every size in the fold is the size of some asset that resolves to its key |
| Normalize.NormalizedLastWins | index.js:17-18 | each normalized entry is `{size}` of the last asset, in `assets` order, that resolves to its name |
| Normalize.NormalizedFromAsset | index.js:17-18 | every normalized entry is `{size}` of some asset that resolves to its key |
| Normalize.SingleChunkExample | index.js:14-19 | `{main: "main.a1b2.js"}` with that asset at 102400 bytes normalizes to `{main: {size: 102400}}` |
| JsNumber.ToNumber | index.js:78-79 | an absent side (`undefined`) takes part in arithmetic as NaN; numbers are unchanged |
| JsNumber.Negate | index.js:78 | negation of a finite number is exact; of `undefined` or NaN it is NaN |
| JsNumber.Add | index.js:78 | adding with `undefined` or NaN gives NaN; two finite numbers add exactly |
| JsNumber.Sub | index.js:78 | subtracting with `undefined` or NaN gives NaN; two finite numbers subtract exactly; finite minus an infinity gives the opposite infinity |
| JsNumber.Div | index.js:79 | dividing with `undefined` or NaN gives NaN; positive over 0 is +Infinity; 0 over 0 is NaN; finite over non-zero divides exactly |
| JsNumber.Mul | index.js:79 | NaN and `undefined` give NaN; finite numbers multiply exactly; an infinity times a negative number flips sign |
| JsNumber.Abs | index.js:88 | `Math.abs` of a finite number is its magnitude, of an infinity +Infinity, of NaN or `undefined` NaN |
| JsNumber.Less | index.js:88-92 | `<` is false whenever NaN or `undefined` is involved; on finite numbers it is real `<`; +Infinity is never less than anything |
| JsNumber.Truthy | index.js:94-96 | `undefined` and NaN are falsy; a finite number is truthy exactly when it is not 0 |
| Classify.Lookup | index.js:65-66 | `oldAssets[key]` is present exactly when the key is in the map, and then gives that entry's size |
| Classify.Kilobytes | index.js:76-77 | `asset && asset.size / 1024` is `undefined` exactly for an absent asset, otherwise the size in KB, and truthy exactly when the size is non-zero |
| Classify.Compare | index.js:76-86 | when either side is absent, `diff` and `pdiff` are NaN; the rest of the record is given by `StoredRecord` and `PercentChange` |
| Classify.Branch | index.js:88-98 | a record is filed under a bucket only if that bucket's test holds of it, and it is dropped only if every test fails (both sides then equally truthy) |
| Classify.KindOf | index.js:76-98 | a name reaches `onlyOld` only if it is present, with a non-zero size, only in the old map, and `onlyNew` symmetrically; the full case analysis is in the lemmas below |
| Classify.BucketsOf | index.js:63-107 | no bucket holds a name outside the union of the two maps; membership and disjointness in `BucketMembership` and `Partition` |
| Classify.Classify | index.js:63-107 | each name of the union is examined once; its record is stored under its own name in the bucket the chain picks, and the five maps end equal to `BucketsOf` |
| Classify.ExamineOne | index.js:64-100 | one iteration adds the name's record to the bucket the chain picks and leaves the other four unchanged |
| Classify.StoredRecord | index.js:76-86 | `oldSize`/`newSize` are the present sides' bytes / 1024 (truthy exactly when non-zero), absent sides are `undefined`, and with both present `diff == newSize - oldSize` |
| Classify.PercentChange | index.js:79 | with old > 0, `pdiff` is `(new / old - 1) * 100` in bytes: the 1024 scaling cancels |
| Classify.BandArithmetic | index.js:88 | on exact values, `abs((new / old - 1) * 100) < 5` exactly when `20 * abs(new - old) < old` |
| Classify.PercentThreshold | index.js:79-88 | with old > 0, `Math.abs(pdiff) < 5` holds exactly when `20 * abs(new - old) < old` |
| Classify.SameWithinThreshold | index.js:78-89 | a name in both maps lands in `same` exactly when old > 0 and `20 * abs(new - old) < old`, whatever the sign of the change |
| Classify.BiggerOrSmaller | index.js:78-93 | outside that band, a name in both maps lands in `bigger` if it grew, in `smaller` if it shrank, and nowhere if both sizes are 0 |
| Classify.GrowthFromZeroIsBigger | index.js:79-91 | old = 0 and new > 0 make `pdiff` +Infinity, which fails the band test, so the name lands in `bigger` |
| Classify.OnlyInOld | index.js:76-95 | a name only in the old map has NaN `diff` and `pdiff`, and lands in `onlyOld` exactly when its size is non-zero |
| Classify.OnlyInNew | index.js:76-97 | a name only in the new map has NaN `diff` and `pdiff`, and lands in `onlyNew` exactly when its size is non-zero |
| Classify.DroppedIffZero | index.js:88-98 | a name of the union lands in no bucket exactly when every side it is present on has size 0 |
| Classify.BucketMembership | index.js:63-98 | a name is in a bucket exactly when it is in one of the maps and the chain picks that bucket; the entry is that name's own record |
| Classify.Partition | index.js:63-107 | no name is in two buckets, no name outside the union is in any bucket, and each entry is its name's own record |
| Classify.NonZeroIsPlaced | index.js:63-98 | every name of the union with a non-zero size on some side is in one of the buckets |
| Classify.EmptyMapsEmptyBuckets | index.js:101-107 | all five buckets start empty, so two empty maps give five empty buckets |
| Classify.AgreesWithPresenceFirst | index.js:88-98 | when some present size is positive, the source's chain picks the same bucket as a chain that tests presence first |
| Classify.DivergesIffAllZero | index.js:88-98 | for a name of the union, the source's chain and the presence-first chain disagree exactly when every present size is 0 |
| Classify.ZeroSizeDiverges | index.js:88-98 | on zero sizes the source drops the name where a presence-first chain would keep it |
| Classify.GrowthExample | index.js:76-91 | 100 KB to 110 KB gives the record `{100, 110, 10, 10}` and lands in `bigger` |
| Classify.SmallGrowthExample | index.js:78-89 | 100 KB to 103 KB lands in `same` |

## Left out

- Command-line parsing, path resolution, the existence checks and
  `process.exit`, directory creation, reading the template and writing the
  report, and loading the stats files with `require` (index.js:7-12, 48-61,
  109-119). These are I/O. `Classify` and `NormalizeStats` take the loaded
  data as parameters.
- `renderGroup` (index.js:21-39). It builds HTML text from floating-point
  values with `toFixed` and blanks out falsy fields. This is presentation only.
- `render` (index.js:41-46). It evaluates the template with `eval` after
  assigning the data to globals. This mechanism cannot be modelled.
- Floating-point rounding. Numbers are exact reals, so a ratio that rounds
  across the 5% boundary in IEEE-754 arithmetic is not captured. The sign of
  zero is not modelled. Only +0 arises as a divisor, because sizes are
  non-negative.
- JavaScript object key order. Objects are maps, so the order of
  `Object.keys` (with integer-like keys moved first) is not modelled, and
  neither is the row order of the report. `Classify` visits the union of the
  names in an unspecified order. Each name is visited exactly once, and
  insertion order cannot change the contents of any bucket.
- Prototype lookups on plain objects. For example, `chunkNames["constructor"]`
  is truthy in the source. The lookup is modelled as a map holding only the
  entries the fold wrote.
- Sizes that are not non-negative integers, and asset records without a
  `name`. The model's sizes are `nat` byte counts.
- JsNumber: models only the number operations the classifier uses, and only
  on the kinds of values it produces (`undefined`, finite numbers, the
  infinities, NaN).
