/**
  The bucket classifier: the `reduce` inlined in the command's action
  (index.js:63-107), which walks the union of the old and new display names
  and files each one under `bigger`, `smaller`, `same`, `onlyOld` or `onlyNew`.

  Sizes are byte counts. The source divides both sides by 1024 before
  comparing; the model keeps that scaling in the stored record and computes
  `diff` and `pdiff` with JavaScript's rules for `undefined`, NaN and the
  infinities (module JsNumber), so that the if/else chain at index.js:88-98 is
  evaluated exactly as written, NaN comparisons included.
*/
module Classify {
  import opened Wrappers
  import opened JsNumber
  import opened Normalize

  /** The record `{ oldSize, newSize, diff, pdiff }` built for one display name. */
  datatype Comparison = Comparison(oldSize: Value, newSize: Value, diff: Value, pdiff: Value)

  /** The five buckets. */
  datatype Kind = Bigger | Smaller | Same | OnlyOld | OnlyNew

  /** The reduce's accumulator `{ bigger, smaller, same, onlyOld, onlyNew }`. */
  datatype Buckets = Buckets(
    bigger: map<string, Comparison>,
    smaller: map<string, Comparison>,
    same: map<string, Comparison>,
    onlyOld: map<string, Comparison>,
    onlyNew: map<string, Comparison>)
  {
    /** The bucket of the given kind. */
    function Get(kind: Kind): map<string, Comparison>
    {
      match kind
      case Bigger => bigger
      case Smaller => smaller
      case Same => same
      case OnlyOld => onlyOld
      case OnlyNew => onlyNew
    }
  }

  /** `oldAssets[key]` / `newAssets[key]`: the size in bytes, or nothing when the key is absent. */
  function Lookup(assets: map<string, SizeEntry>, key: string): (r: Option<nat>)
    ensures r.Some? <==> key in assets
    ensures r.Some? ==> r.value == assets[key].size
  {
    if key in assets then Some(assets[key].size) else None
  }

  /** `asset && asset.size / 1024`: an absent asset reads as `undefined`. */
  function Kilobytes(bytes: Option<nat>): (r: Value)
    ensures r.Undefined? <==> bytes.None?
    ensures bytes.Some? ==> r.Finite? && r.r * 1024.0 == bytes.value as real
    ensures Truthy(r) <==> bytes.Some? && bytes.value > 0
  {
    match bytes
    case None => Undefined
    case Some(b) => Finite(b as real / 1024.0)
  }

  /** The absolute difference of two byte counts. */
  function Distance(a: nat, b: nat): nat
  {
    if a <= b then b - a else a - b
  }

  /** The 5% band of `Math.abs(pdiff) < 5`, in whole bytes. */
  predicate WithinThreshold(oldBytes: nat, newBytes: nat)
  {
    oldBytes > 0 && 20 * Distance(oldBytes, newBytes) < oldBytes
  }

  /** The record of index.js:76-86 for one display name. */
  function Compare(oldBytes: Option<nat>, newBytes: Option<nat>): (r: Comparison)
    ensures oldBytes.None? || newBytes.None? ==> r.diff.NaN? && r.pdiff.NaN?
  {
    var oldSize := Kilobytes(oldBytes);
    var newSize := Kilobytes(newBytes);
    var diff := Sub(newSize, oldSize);
    var pdiff := Mul(Sub(Finite(1.0), Div(newSize, oldSize)), Finite(-100.0));
    Comparison(oldSize, newSize, diff, pdiff)
  }

  /** The if/else chain of index.js:88-98, first matching test wins; `None` is the silent fall-through. */
  function Branch(asset: Comparison): (r: Option<Kind>)
    ensures r == Some(Same) ==> Less(Abs(asset.pdiff), Finite(5.0))
    ensures r == Some(Bigger) ==> Less(Finite(0.0), asset.diff)
    ensures r == Some(Smaller) ==> Less(asset.diff, Finite(0.0))
    ensures r == Some(OnlyOld) ==> Truthy(asset.oldSize) && !Truthy(asset.newSize)
    ensures r == Some(OnlyNew) ==> Truthy(asset.newSize) && !Truthy(asset.oldSize)
    ensures r.None? ==> (!Less(Abs(asset.pdiff), Finite(5.0)) && !Less(Finite(0.0), asset.diff) &&
                         !Less(asset.diff, Finite(0.0)) && (Truthy(asset.oldSize) <==> Truthy(asset.newSize)))
  {
    if Less(Abs(asset.pdiff), Finite(5.0)) then Some(Same)
    else if Less(Finite(0.0), asset.diff) then Some(Bigger)
    else if Less(asset.diff, Finite(0.0)) then Some(Smaller)
    else if Truthy(asset.oldSize) && !Truthy(asset.newSize) then Some(OnlyOld)
    else if Truthy(asset.newSize) && !Truthy(asset.oldSize) then Some(OnlyNew)
    else None
  }

  /** The bucket one display name is filed under. */
  function KindOf(oldBytes: Option<nat>, newBytes: Option<nat>): (r: Option<Kind>)
    ensures r == Some(OnlyOld) ==> oldBytes.Some? && oldBytes.value > 0 && newBytes.None?
    ensures r == Some(OnlyNew) ==> newBytes.Some? && newBytes.value > 0 && oldBytes.None?
  {
    Branch(Compare(oldBytes, newBytes))
  }

  /** The record of every name in `keys`. */
  function Records(oldAssets: map<string, SizeEntry>, newAssets: map<string, SizeEntry>,
                   keys: set<string>): map<string, Comparison>
  {
    map key | key in keys :: Compare(Lookup(oldAssets, key), Lookup(newAssets, key))
  }

  /** The records the chain files under `kind`. */
  function Select(records: map<string, Comparison>, kind: Kind): map<string, Comparison>
  {
    map key | key in records && Branch(records[key]) == Some(kind) :: records[key]
  }

  /** The five buckets once every name of both maps has been examined. */
  function BucketsOf(oldAssets: map<string, SizeEntry>, newAssets: map<string, SizeEntry>): (r: Buckets)
    ensures forall kind, key :: key in r.Get(kind) ==> key in oldAssets.Keys + newAssets.Keys
  {
    var records := Records(oldAssets, newAssets, oldAssets.Keys + newAssets.Keys);
    Buckets(Select(records, Bigger), Select(records, Smaller), Select(records, Same),
            Select(records, OnlyOld), Select(records, OnlyNew))
  }

  /**
    The reduce of index.js:63-107: every name of the union is examined once,
    its record is computed and stored under its own name in the bucket the
    chain picks. Object key order is not modelled, so the names are taken
    from the union in an unspecified order.
  */
  method Classify(oldAssets: map<string, SizeEntry>, newAssets: map<string, SizeEntry>)
    returns (result: Buckets)
    ensures result == BucketsOf(oldAssets, newAssets)
  {
    var bigger, smaller, same, onlyOld, onlyNew := map[], map[], map[], map[], map[];
    var pending := oldAssets.Keys + newAssets.Keys;
    ghost var visited: set<string> := {};
    while pending != {}
      invariant visited + pending == oldAssets.Keys + newAssets.Keys
      invariant visited !! pending
      invariant bigger == Select(Records(oldAssets, newAssets, visited), Bigger)
      invariant smaller == Select(Records(oldAssets, newAssets, visited), Smaller)
      invariant same == Select(Records(oldAssets, newAssets, visited), Same)
      invariant onlyOld == Select(Records(oldAssets, newAssets, visited), OnlyOld)
      invariant onlyNew == Select(Records(oldAssets, newAssets, visited), OnlyNew)
      decreases pending
    {
      var key :| key in pending;
      var asset := Compare(Lookup(oldAssets, key), Lookup(newAssets, key));
      var kind := Branch(asset);
      if kind == Some(Same) {
        same := same[key := asset];
      } else if kind == Some(Bigger) {
        bigger := bigger[key := asset];
      } else if kind == Some(Smaller) {
        smaller := smaller[key := asset];
      } else if kind == Some(OnlyOld) {
        onlyOld := onlyOld[key := asset];
      } else if kind == Some(OnlyNew) {
        onlyNew := onlyNew[key := asset];
      }
      ExamineOne(oldAssets, newAssets, visited, key);
      pending := pending - {key};
      visited := visited + {key};
    }
    result := Buckets(bigger, smaller, same, onlyOld, onlyNew);
  }

  /** Examining one more name adds its record to the bucket it is classified under, and to no other. */
  lemma SelectAdd(records: map<string, Comparison>, key: string, asset: Comparison)
    requires key !in records
    ensures forall kind :: (Select(records[key := asset], kind) ==
      if Branch(asset) == Some(kind) then Select(records, kind)[key := asset] else Select(records, kind))
  {
  }

  /** The buckets after examining one more name, in terms of the buckets before. */
  lemma ExamineOne(oldAssets: map<string, SizeEntry>, newAssets: map<string, SizeEntry>,
                   visited: set<string>, key: string)
    requires key !in visited
    ensures forall kind :: (Select(Records(oldAssets, newAssets, visited + {key}), kind) ==
      var asset := Compare(Lookup(oldAssets, key), Lookup(newAssets, key));
      if Branch(asset) == Some(kind) then Select(Records(oldAssets, newAssets, visited), kind)[key := asset]
      else Select(Records(oldAssets, newAssets, visited), kind))
  {
    var asset := Compare(Lookup(oldAssets, key), Lookup(newAssets, key));
    assert Records(oldAssets, newAssets, visited + {key}) == Records(oldAssets, newAssets, visited)[key := asset];
    SelectAdd(Records(oldAssets, newAssets, visited), key, asset);
  }

  // ---------------------------------------------------------------------------
  // Arithmetic of the record

  /**
    The stored record: each present side is its byte count over 1024 and is
    truthy exactly when non-zero, an absent side is `undefined`, and where
    both sides are present `diff` is `newSize - oldSize`.
  */
  lemma StoredRecord(oldBytes: Option<nat>, newBytes: Option<nat>)
    ensures var c := Compare(oldBytes, newBytes);
      && (oldBytes.Some? ==> c.oldSize == Finite(oldBytes.value as real / 1024.0))
      && (newBytes.Some? ==> c.newSize == Finite(newBytes.value as real / 1024.0))
      && (oldBytes.None? ==> c.oldSize == Undefined)
      && (newBytes.None? ==> c.newSize == Undefined)
      && (Truthy(c.oldSize) <==> oldBytes.Some? && oldBytes.value > 0)
      && (Truthy(c.newSize) <==> newBytes.Some? && newBytes.value > 0)
      && (oldBytes.Some? && newBytes.Some? ==>
            c.diff == Finite(c.newSize.r - c.oldSize.r) &&
            c.diff == Finite((newBytes.value - oldBytes.value) as real / 1024.0))
  {
  }

  /** With old > 0, pdiff is `(newBytes / oldBytes - 1) * 100`: the 1024 scaling cancels. */
  lemma PercentChange(o: nat, n: nat)
    requires o > 0
    ensures Compare(Some(o), Some(n)).pdiff == Finite((n as real / o as real - 1.0) * 100.0)
  {
    var x, y := n as real / 1024.0, o as real / 1024.0;
    var q := x / y;
    assert q * y == x;
    assert q * o as real == n as real;
    assert q == n as real / o as real;
  }

  /** Multiplying by a positive factor preserves `<`. */
  lemma ScaleLess(a: real, b: real, c: real)
    requires c > 0.0
    ensures a < b <==> a * c < b * c
  {
  }

  /** If `a * c == 100 * d` with `c > 0`, then `a < 5` exactly when `20 * d < c`. */
  lemma BandOfScaled(a: real, d: real, c: real)
    requires c > 0.0 && a * c == 100.0 * d
    ensures a < 5.0 <==> 20.0 * d < c
  {
    ScaleLess(a, 5.0, c);
  }

  /** The band test on exact values: `|(n / o - 1) * 100| < 5` exactly when `20 * |n - o| < o`. */
  lemma BandArithmetic(o: nat, n: nat)
    requires o > 0
    ensures var p := (n as real / o as real - 1.0) * 100.0;
      (if p < 0.0 then -p else p) < 5.0 <==> 20 * Distance(o, n) < o
  {
    var on, nn := o as real, n as real;
    var q := nn / on;
    var p := (q - 1.0) * 100.0;
    assert q * on == nn;
    assert p * on == 100.0 * (nn - on);
    var a := if p < 0.0 then -p else p;
    var d := Distance(o, n) as real;
    assert a * on == 100.0 * d by {
      ScaleLess(p, 0.0, on);
    }
    BandOfScaled(a, d, on);
    assert 20 * Distance(o, n) < o <==> 20.0 * d < on;
    assert (if p < 0.0 then -p else p) == a;
  }

  /** With old > 0, `Math.abs(pdiff) < 5` holds exactly when the byte counts differ by less than 1/20 of old. */
  lemma PercentThreshold(o: nat, n: nat)
    requires o > 0
    ensures Less(Abs(Compare(Some(o), Some(n)).pdiff), Finite(5.0)) <==> WithinThreshold(o, n)
  {
    PercentChange(o, n);
    BandArithmetic(o, n);
  }

  // ---------------------------------------------------------------------------
  // What the chain decides

  /** A name in both maps lands in `same` exactly when old > 0 and the change is under 5%, whatever its sign. */
  lemma SameWithinThreshold(o: nat, n: nat)
    ensures KindOf(Some(o), Some(n)) == Some(Same) <==> WithinThreshold(o, n)
  {
    if o > 0 {
      PercentThreshold(o, n);
    }
  }

  /** Outside the band, a name in both maps lands in `bigger` if it grew and `smaller` if it shrank; 0 to 0 is dropped. */
  lemma BiggerOrSmaller(o: nat, n: nat)
    requires !WithinThreshold(o, n)
    ensures KindOf(Some(o), Some(n)) ==
      if n > o then Some(Bigger) else if n < o then Some(Smaller) else None
  {
    SameWithinThreshold(o, n);
  }

  /** Growth from 0 bytes makes pdiff +Infinity, which fails the band test, so the name lands in `bigger`. */
  lemma GrowthFromZeroIsBigger(n: nat)
    requires n > 0
    ensures Compare(Some(0), Some(n)).pdiff == Infinity(true)
    ensures KindOf(Some(0), Some(n)) == Some(Bigger)
  {
    BiggerOrSmaller(0, n);
  }

  /** A name only in the old map reaches `onlyOld` (diff and pdiff are NaN) exactly when its size is not 0. */
  lemma OnlyInOld(o: nat)
    ensures Compare(Some(o), None).diff == NaN && Compare(Some(o), None).pdiff == NaN
    ensures KindOf(Some(o), None) == if o > 0 then Some(OnlyOld) else None
  {
  }

  /** A name only in the new map reaches `onlyNew` exactly when its size is not 0. */
  lemma OnlyInNew(n: nat)
    ensures Compare(None, Some(n)).diff == NaN && Compare(None, Some(n)).pdiff == NaN
    ensures KindOf(None, Some(n)) == if n > 0 then Some(OnlyNew) else None
  {
  }

  /** A name of the union is placed in no bucket exactly when every side it is present on has size 0. */
  lemma DroppedIffZero(oldBytes: Option<nat>, newBytes: Option<nat>)
    requires oldBytes.Some? || newBytes.Some?
    ensures KindOf(oldBytes, newBytes).None? <==>
      (oldBytes.Some? ==> oldBytes.value == 0) && (newBytes.Some? ==> newBytes.value == 0)
  {
    match (oldBytes, newBytes)
    case (Some(o), Some(n)) =>
      if WithinThreshold(o, n) {
        SameWithinThreshold(o, n);
      } else {
        BiggerOrSmaller(o, n);
      }
    case (Some(o), None) => OnlyInOld(o);
    case (None, Some(n)) => OnlyInNew(n);
  }

  // ---------------------------------------------------------------------------
  // The buckets

  /** A name is in a bucket exactly when it is in one of the maps and the chain picks that bucket; the entry is its own record. */
  lemma BucketMembership(oldAssets: map<string, SizeEntry>, newAssets: map<string, SizeEntry>, kind: Kind, key: string)
    ensures key in BucketsOf(oldAssets, newAssets).Get(kind) <==>
      key in oldAssets.Keys + newAssets.Keys &&
      KindOf(Lookup(oldAssets, key), Lookup(newAssets, key)) == Some(kind)
    ensures key in BucketsOf(oldAssets, newAssets).Get(kind) ==>
      BucketsOf(oldAssets, newAssets).Get(kind)[key] == Compare(Lookup(oldAssets, key), Lookup(newAssets, key))
  {
    var records := Records(oldAssets, newAssets, oldAssets.Keys + newAssets.Keys);
    assert BucketsOf(oldAssets, newAssets).Get(kind) == Select(records, kind) by {
      match kind
      case Bigger =>
      case Smaller =>
      case Same =>
      case OnlyOld =>
      case OnlyNew =>
    }
    if key in records {
      assert records[key] == Compare(Lookup(oldAssets, key), Lookup(newAssets, key));
    }
  }

  /**
    The buckets partition the examined names: no name is in two buckets, no
    name outside the union is in any, and each entry is the name's own record.
  */
  lemma Partition(oldAssets: map<string, SizeEntry>, newAssets: map<string, SizeEntry>)
    ensures forall kind, key :: key in BucketsOf(oldAssets, newAssets).Get(kind) ==>
      key in oldAssets.Keys + newAssets.Keys &&
      BucketsOf(oldAssets, newAssets).Get(kind)[key] == Compare(Lookup(oldAssets, key), Lookup(newAssets, key))
    ensures forall k1, k2 :: k1 != k2 ==>
      BucketsOf(oldAssets, newAssets).Get(k1).Keys !! BucketsOf(oldAssets, newAssets).Get(k2).Keys
  {
    forall kind, key | key in BucketsOf(oldAssets, newAssets).Get(kind)
      ensures key in oldAssets.Keys + newAssets.Keys
      ensures BucketsOf(oldAssets, newAssets).Get(kind)[key] == Compare(Lookup(oldAssets, key), Lookup(newAssets, key))
    {
      BucketMembership(oldAssets, newAssets, kind, key);
    }
    forall k1, k2 | k1 != k2
      ensures BucketsOf(oldAssets, newAssets).Get(k1).Keys !! BucketsOf(oldAssets, newAssets).Get(k2).Keys
    {
      forall key | key in BucketsOf(oldAssets, newAssets).Get(k1)
        ensures key !in BucketsOf(oldAssets, newAssets).Get(k2)
      {
        BucketMembership(oldAssets, newAssets, k1, key);
        BucketMembership(oldAssets, newAssets, k2, key);
      }
    }
  }

  /** Every name of the union with a non-zero size on some side is in some bucket (exactly one, by `Partition`). */
  lemma NonZeroIsPlaced(oldAssets: map<string, SizeEntry>, newAssets: map<string, SizeEntry>, key: string)
    requires key in oldAssets.Keys + newAssets.Keys
    requires (key in oldAssets && oldAssets[key].size > 0) || (key in newAssets && newAssets[key].size > 0)
    ensures exists kind :: key in BucketsOf(oldAssets, newAssets).Get(kind)
  {
    DroppedIffZero(Lookup(oldAssets, key), Lookup(newAssets, key));
    var kind := KindOf(Lookup(oldAssets, key), Lookup(newAssets, key)).value;
    BucketMembership(oldAssets, newAssets, kind, key);
  }

  /** All five buckets start empty, so two empty maps give five empty buckets. */
  lemma EmptyMapsEmptyBuckets()
    ensures BucketsOf(map[], map[]) == Buckets(map[], map[], map[], map[], map[])
  {
  }

  // ---------------------------------------------------------------------------
  // The presence-first ordering, for comparison

  /**
    A chain that tests presence before arithmetic: one-sided names always reach
    `onlyOld` / `onlyNew`, and an unchanged name is `same`.
  */
  function PresenceFirst(oldBytes: Option<nat>, newBytes: Option<nat>): Option<Kind>
  {
    match (oldBytes, newBytes)
    case (Some(o), Some(n)) =>
      if WithinThreshold(o, n) then Some(Same)
      else if n > o then Some(Bigger)
      else if n < o then Some(Smaller)
      else Some(Same)
    case (Some(_), None) => Some(OnlyOld)
    case (None, Some(_)) => Some(OnlyNew)
    case (None, None) => None
  }

  /** When some present size is positive, the source's order and the presence-first order agree. */
  lemma AgreesWithPresenceFirst(oldBytes: Option<nat>, newBytes: Option<nat>)
    requires (oldBytes.Some? && oldBytes.value > 0) || (newBytes.Some? && newBytes.value > 0)
    ensures KindOf(oldBytes, newBytes) == PresenceFirst(oldBytes, newBytes)
  {
    match (oldBytes, newBytes)
    case (Some(o), Some(n)) =>
      if WithinThreshold(o, n) {
        SameWithinThreshold(o, n);
      } else {
        BiggerOrSmaller(o, n);
      }
    case (Some(o), None) => OnlyInOld(o);
    case (None, Some(n)) => OnlyInNew(n);
    case (None, None) =>
  }

  /** For a name of the union, the two orders disagree exactly when every present size is 0. */
  lemma DivergesIffAllZero(oldBytes: Option<nat>, newBytes: Option<nat>)
    requires oldBytes.Some? || newBytes.Some?
    ensures KindOf(oldBytes, newBytes) != PresenceFirst(oldBytes, newBytes) <==>
      (oldBytes.Some? ==> oldBytes.value == 0) && (newBytes.Some? ==> newBytes.value == 0)
  {
    if (oldBytes.Some? && oldBytes.value > 0) || (newBytes.Some? && newBytes.value > 0) {
      AgreesWithPresenceFirst(oldBytes, newBytes);
    } else {
      DroppedIffZero(oldBytes, newBytes);
    }
  }

  /** They differ on zero-size names: the source drops them, the presence-first order keeps them. */
  lemma ZeroSizeDiverges()
    ensures KindOf(Some(0), None) == None && PresenceFirst(Some(0), None) == Some(OnlyOld)
    ensures KindOf(None, Some(0)) == None && PresenceFirst(None, Some(0)) == Some(OnlyNew)
    ensures KindOf(Some(0), Some(0)) == None && PresenceFirst(Some(0), Some(0)) == Some(Same)
  {
    OnlyInOld(0);
    OnlyInNew(0);
    BiggerOrSmaller(0, 0);
  }

  // ---------------------------------------------------------------------------
  // Worked examples

  /** 100 KB to 110 KB grows by 10%: `bigger`, with diff 10 KB and pdiff 10. */
  lemma GrowthExample()
    ensures Compare(Some(102400), Some(112640)) ==
      Comparison(Finite(100.0), Finite(110.0), Finite(10.0), Finite(10.0))
    ensures KindOf(Some(102400), Some(112640)) == Some(Bigger)
  {
    BiggerOrSmaller(102400, 112640);
  }

  /** 100 KB to 103 KB grows by 3%: `same`. */
  lemma SmallGrowthExample()
    ensures KindOf(Some(102400), Some(105472)) == Some(Same)
  {
    SameWithinThreshold(102400, 105472);
  }
}
