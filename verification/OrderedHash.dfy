/** The insertion-ordered hash table: a dense value sequence and a ring of buckets that indexes it. */
module OrderedHashTable {
  import opened AssocList
  import opened Basics
  import opened Bits
  import opened BucketRing
  import opened LoadFactor

  /** `bucket_entry::max_size()` for the 32-bit index type: the largest index marks an empty bucket. */
  const MAX_SIZE: nat := 0xFFFF_FFFE
  const NPROBES: nat := 128

  datatype InsertResult = Inserted(position: nat) | Present(position: nat) | LengthError
  datatype GrowResult = Grew | Kept | TooLarge

  function Hashes<K, V>(hasher: K -> nat, s: Assoc<K, V>): (hs: seq<nat>)
    ensures |hs| == |s| && forall i: nat | i < |s| :: hs[i] == hasher(s[i].0)
  {
    seq<nat>(|s|, i requires 0 <= i < |s| => hasher(s[i].0))
  }

  lemma HashesRemove<K, V>(hasher: K -> nat, s: Assoc<K, V>, p: nat)
    requires p < |s|
    ensures Hashes(hasher, Without(s, p)) == Without(Hashes(hasher, s), p)
  {}

  /** The agreement invariant between the value sequence and the ring. */
  ghost predicate Indexed<K, V>(s: Assoc<K, V>, b: Ring, hasher: K -> nat) {
    && RobinHood(b)
    && Agree(b, Hashes(hasher, s))
    && DistinctKeys(s)
    && |s| <= |b| && |s| <= MAX_SIZE
  }

  lemma IndexedAppend<K, V>(s: Assoc<K, V>, b: Ring, b': Ring, hasher: K -> nat, key: K, value: V)
    requires Indexed(s, b, hasher) && |s| < |b| == |b'| && |s| < MAX_SIZE && !HasKey(s, key)
    requires RobinHood(b')
    requires multiset(b') + multiset{Empty} == multiset(b) + multiset{Entry(|s|, hasher(key) % TWO_32)}
    ensures Indexed(s + [(key, value)], b', hasher)
  {
    AgreeAppend(b, b', Hashes(hasher, s), hasher(key));
    assert Hashes(hasher, s + [(key, value)]) == Hashes(hasher, s) + [hasher(key)];
  }

  lemma IndexedAssign<K, V>(s: Assoc<K, V>, b: Ring, hasher: K -> nat, p: nat, value: V)
    requires Indexed(s, b, hasher) && p < |s|
    ensures Indexed(s[p := (s[p].0, value)], b, hasher)
  {
    assert Hashes(hasher, s[p := (s[p].0, value)]) == Hashes(hasher, s);
  }

  /** A displacement that began at `start` and turned b0 into b has put some entry more than 128 steps from its ideal
      bucket, not counting one put down at `start` itself. */
  ghost predicate FarPlaced(b0: Ring, b: Ring, start: nat)
    requires |b| == |b0|
  {
    exists j: nat :: j < |b| && j != start && b[j].Entry? && b[j] != b0[j] && Dist(b, j) > NPROBES
  }

  lemma FarPlacedStep(b0: Ring, b: Ring, start: nat, p: nat, e: Bucket)
    requires |b| == |b0| && p < |b| && b[p] == b0[p] && e.Entry? && e != b[p]
    ensures FarPlaced(b0, b[p := e], start) <==>
      FarPlaced(b0, b, start) || (p != start && Gap(Ideal(e.hash, |b|), p, |b|) > NPROBES)
  {
    var b' := b[p := e];
    assert Dist(b', p) == Gap(Ideal(e.hash, |b|), p, |b|);
    forall j: nat | j < |b| && j != p ensures b'[j] == b[j] && (b[j].Entry? ==> Dist(b', j) == Dist(b, j)) {}
    if FarPlaced(b0, b, start) {
      var j: nat :| j < |b| && j != start && b[j].Entry? && b[j] != b0[j] && Dist(b, j) > NPROBES;
      assert j != p && b'[j] == b[j];
    }
  }

  /** How far a displacement has come: it began at `start`, has changed nothing from p on, and reaches the hole before
      it comes back to `start`. */
  ghost predicate Passing(b0: Ring, b: Ring, start: nat, p: nat, hole: nat) {
    && |b| == |b0| && start < |b| && p < |b| && hole < |b|
    && Gap(start, p, |b|) + Gap(p, hole, |b|) == Gap(start, hole, |b|)
    && forall j: nat | j < |b| && Gap(start, j, |b|) >= Gap(start, p, |b|) :: b[j] == b0[j]
  }

  lemma PassingNext(b0: Ring, b: Ring, start: nat, p: nat, hole: nat, x: Bucket)
    requires Passing(b0, b, start, p, hole) && p != hole
    ensures Passing(b0, b, start, Next(p, |b|), hole) && Passing(b0, b[p := x], start, Next(p, |b|), hole)
    ensures Next(p, |b|) != start
  {
    assert Gap(start, Next(p, |b|), |b|) == Gap(start, p, |b|) + 1;
  }

  /** A displacement in flight that turned b0 into b: entry `e`, d steps from home, is to go to p or beyond, nothing
      but `e` is missing of `all`, and `far` says whether some entry has come more than 128 steps since the start. */
  ghost predicate Displacing(b0: Ring, b: Ring, start: nat, p: nat, d: nat, e: Bucket, hole: nat, all: multiset<Bucket>,
                             far: bool)
  {
    && Carrying(b, p, d, e, hole) && Passing(b0, b, start, p, hole) && multiset(b) + multiset{e} == all
    && far == (FarPlaced(b0, b, start) || (p != start && d > NPROBES))
  }

  lemma DisplaceStart(b: Ring, start: nat, d: nat, e: Bucket, hole: nat)
    requires Carrying(b, start, d, e, hole)
    ensures Displacing(b, b, start, start, d, e, hole, multiset(b) + multiset{e}, false)
  {}

  lemma DisplaceSwap(b0: Ring, b: Ring, start: nat, p: nat, d: nat, e: Bucket, hole: nat, all: multiset<Bucket>,
                     far: bool)
    requires Displacing(b0, b, start, p, d, e, hole, all, far) && b[p].Entry? && d > Dist(b, p)
    ensures Gap(Next(p, |b|), hole, |b|) < Gap(p, hole, |b|)
    ensures Displacing(b0, b[p := e], start, Next(p, |b|), Dist(b, p) + 1, b[p], hole, all,
                       far || Dist(b, p) + 1 > NPROBES)
  {
    PassingNext(b0, b, start, p, hole, e);
    CarrySwap(b, p, d, e, hole);
    FarPlacedStep(b0, b, start, p, e);
  }

  lemma DisplaceAdvance(b0: Ring, b: Ring, start: nat, p: nat, d: nat, e: Bucket, hole: nat, all: multiset<Bucket>,
                        far: bool)
    requires Displacing(b0, b, start, p, d, e, hole, all, far) && b[p].Entry? && d <= Dist(b, p)
    ensures Gap(Next(p, |b|), hole, |b|) < Gap(p, hole, |b|)
    ensures Displacing(b0, b, start, Next(p, |b|), d + 1, e, hole, all, far || d + 1 > NPROBES)
  {
    PassingNext(b0, b, start, p, hole, e);
    CarryAdvance(b, p, d, e, hole);
  }

  lemma DisplaceEnd(b0: Ring, b: Ring, start: nat, p: nat, d: nat, e: Bucket, hole: nat, all: multiset<Bucket>,
                    far: bool)
    requires Displacing(b0, b, start, p, d, e, hole, all, far) && b[p] == Empty
    ensures RobinHood(b[p := e]) && multiset(b[p := e]) + multiset{Empty} == all
    ensures far == FarPlaced(b0, b[p := e], start)
  {
    CarryPlace(b, p, d, e, hole);
    FarPlacedStep(b0, b, start, p, e);
  }

  /** The positions in the ring whose entry is for `key`. */
  ghost predicate HoldsKey<K, V>(s: Assoc<K, V>, b: Ring, j: nat, key: K) {
    j < |b| && b[j].Entry? && b[j].index < |s| && s[b[j].index].0 == key
  }

  lemma KeyHome<K, V>(s: Assoc<K, V>, b: Ring, hasher: K -> nat, j: nat, key: K)
    requires Indexed(s, b, hasher) && HoldsKey(s, b, j, key)
    requires IsPow2(|b|) && |b| <= TWO_32
    ensures b[j].hash == hasher(key) % TWO_32 && Ideal(b[j].hash, |b|) == Ideal(hasher(key), |b|)
  {
    EntrySound(b, Hashes(hasher, s), j);
    IdealTruncated(hasher(key), |b|);
  }

  /** A probe for `key` has come d steps, and any bucket holding the key is at least as far from home. */
  ghost predicate Probing<K, V>(s: Assoc<K, V>, b: Ring, key: K, d: nat) {
    forall j: nat | HoldsKey(s, b, j, key) :: d <= Dist(b, j)
  }

  /** One look at the d-th bucket: an empty bucket or a richer resident rules the key out, and a resident with
      another key lets the probe go on. */
  lemma ProbeLook<K, V>(s: Assoc<K, V>, b: Ring, hasher: K -> nat, key: K, d: nat)
    requires Indexed(s, b, hasher) && IsPow2(|b|) && |b| <= TWO_32
    requires d <= |b| && Probing(s, b, key, d)
    ensures var p := At(Ideal(hasher(key), |b|), d, |b|);
            && (b[p] == Empty || Dist(b, p) < d ==> !HasKey(s, key))
            && (!HoldsKey(s, b, p, key) ==> Probing(s, b, key, d + 1))
            && (HoldsKey(s, b, p, key) ==> b[p].hash == hasher(key) % TWO_32)
  {
    var p := At(Ideal(hasher(key), |b|), d, |b|);
    if HoldsKey(s, b, p, key) { KeyHome(s, b, hasher, p, key); }
    forall j: nat | HoldsKey(s, b, j, key)
      ensures b[p].Entry? && d <= Dist(b, p) && (d == Dist(b, j) ==> p == j) {
      KeyHome(s, b, hasher, j, key);
      ProbeOccupied(b, Ideal(hasher(key), |b|), d, j);
    }
    if HasKey(s, key) {
      var v: nat :| v < |s| && s[v].0 == key;
      var j := Locate(b, Hashes(hasher, s), v);
      assert HoldsKey(s, b, j, key);
    }
  }

  /** A probe for `key` has come to bucket p, d steps from home, past residents that are not richer. */
  ghost predicate ProbeAt<K, V>(s: Assoc<K, V>, b: Ring, hasher: K -> nat, key: K, p: nat, d: nat) {
    && 0 < |b| && d <= |b| && p == At(Ideal(hasher(key), |b|), d, |b|) && Probing(s, b, key, d)
    && (d > 0 ==> b[Prev(p, |b|)].Entry? && d <= Dist(b, Prev(p, |b|)) + 1)
  }

  lemma ProbeNext<K, V>(s: Assoc<K, V>, b: Ring, hasher: K -> nat, key: K, p: nat, d: nat)
    requires Indexed(s, b, hasher) && IsPow2(|b|) && |b| <= TWO_32 && ProbeAt(s, b, hasher, key, p, d)
    requires b[p].Entry? && d <= Dist(b, p) && !HoldsKey(s, b, p, key)
    ensures d < |b| && ProbeAt(s, b, hasher, key, Next(p, |b|), d + 1)
  {
    ProbeLook(s, b, hasher, key, d);
  }

  lemma ProbeStop<K, V>(s: Assoc<K, V>, b: Ring, hasher: K -> nat, key: K, p: nat, d: nat)
    requires Indexed(s, b, hasher) && IsPow2(|b|) && |b| <= TWO_32 && ProbeAt(s, b, hasher, key, p, d)
    requires b[p] == Empty || d > Dist(b, p)
    ensures !HasKey(s, key)
  {
    ProbeLook(s, b, hasher, key, d);
  }

  /** Comparing truncated hashes first does not miss the key. */
  lemma ProbeMatch<K, V>(s: Assoc<K, V>, b: Ring, hasher: K -> nat, key: K, p: nat, d: nat)
    requires Indexed(s, b, hasher) && IsPow2(|b|) && |b| <= TWO_32 && ProbeAt(s, b, hasher, key, p, d) && b[p].Entry?
    ensures b[p].index < |s|
    ensures b[p].hash == hasher(key) % TWO_32 && s[b[p].index].0 == key <==> HoldsKey(s, b, p, key)
    ensures HoldsKey(s, b, p, key) ==> HasKey(s, key)
  {
    EntrySound(b, Hashes(hasher, s), p);
    ProbeLook(s, b, hasher, key, d);
  }

  /** Where an unsuccessful probe stops, the insertion of its key may start. */
  lemma AppendCarry<K, V>(s: Assoc<K, V>, b: Ring, hasher: K -> nat, key: K, p: nat, d: nat) returns (hole: nat)
    requires Indexed(s, b, hasher) && |s| < |b| <= TWO_32 && IsPow2(|b|) && ProbeAt(s, b, hasher, key, p, d)
    ensures Carrying(b, p, d, Entry(|s|, hasher(key) % TWO_32), hole)
  {
    hole := FindHole(b, Hashes(hasher, s));
    IdealTruncated(hasher(key), |b|);
    CarryFromProbe(b, d, Entry(|s|, hasher(key) % TWO_32), hole);
  }

  class OrderedHash<K(==), V> {
    const hasher: K -> nat
    const maxBuckets: nat
    var buckets: array<Bucket>
    var mask: nat
    var values: Assoc<K, V>
    var growOnNextInsert: bool
    var maxLoadFactor: real
    var loadThreshold: nat

    ghost predicate Shape()
      reads this
    {
      && IsPow2(maxBuckets) && maxBuckets <= TWO_32
      && buckets.Length <= maxBuckets
      && (buckets.Length == 0 || IsPow2(buckets.Length))
      && mask == (if buckets.Length > 0 then buckets.Length - 1 else 0)
      && 0.1 <= maxLoadFactor <= 0.95
      && loadThreshold == Times(buckets.Length, maxLoadFactor).Floor
    }

    ghost predicate Valid()
      reads this, buckets
    {
      Shape() && Indexed(values, buckets[..], hasher)
    }

    /** `bucket_for_hash`: by the mask, which amounts to the hash modulo the number of buckets. */
    function BucketForHash(hash: nat): (ibucket: nat)
      requires Shape() && buckets.Length > 0
      reads this
      ensures ibucket == hash % buckets.Length
    {
      IdealModulo(hash, buckets.Length);
      And(hash, mask)
    }

    /** The bucket that holds `key`, or the number of buckets when there is none. */
    method FindKey(key: K) returns (ibucket: nat)
      requires Valid()
      ensures ibucket <= buckets.Length
      ensures ibucket < buckets.Length <==> HasKey(values, key)
      ensures ibucket < buckets.Length ==> HoldsKey(values, buckets[..], ibucket, key)
    {
      if buckets.Length == 0 {
        return 0;
      }
      var hash := hasher(key);
      ibucket := BucketForHash(hash);
      var dist: nat := 0;
      while true
        invariant ProbeAt(values, buckets[..], hasher, key, ibucket, dist)
        decreases buckets.Length - dist
      {
        if buckets[ibucket] == Empty {
          ProbeStop(values, buckets[..], hasher, key, ibucket, dist);
          return buckets.Length;
        }
        ProbeMatch(values, buckets[..], hasher, key, ibucket, dist);
        if buckets[ibucket].hash == hash % TWO_32 && values[buckets[ibucket].index].0 == key {
          return;
        } else if dist > Dist(buckets[..], ibucket) {
          ProbeStop(values, buckets[..], hasher, key, ibucket, dist);
          return buckets.Length;
        }
        ProbeNext(values, buckets[..], hasher, key, ibucket, dist);
        ibucket := Next(ibucket, buckets.Length);
        dist := dist + 1;
      }
    }

    // ----- the bucket ring, in place

    /** `load_factor()` is at least 0.15. */
    predicate IsLoaded()
      reads this
    {
      Loaded(|values|, buckets.Length)
    }

    /** The two swaps of a displacement: the entry takes the place of the resident. */
    method SwapEntry(ibucket: nat, index: nat, hash: nat) returns (index': nat, hash': nat)
      requires ibucket < buckets.Length && buckets[ibucket].Entry?
      modifies buckets
      ensures buckets[..] == old(buckets[..])[ibucket := Entry(index, hash)]
      ensures Entry(index', hash') == old(buckets[..])[ibucket]
    {
      index', hash' := buckets[ibucket].index, buckets[ibucket].hash;
      buckets[ibucket] := Entry(index, hash);
    }

    /** Places an entry from the position where its probe stopped, handing on whatever richer entry it displaces.
        A long displacement of a loaded table asks the next insertion to grow. */
    method InsertIndex(start: nat, startDist: nat, index: nat, hash: nat, ghost hole: nat)
      requires Carrying(buckets[..], start, startDist, Entry(index, hash), hole)
      modifies buckets, this`growOnNextInsert
      ensures RobinHood(buckets[..])
      ensures multiset(buckets[..]) + multiset{Empty} == multiset(old(buckets[..])) + multiset{Entry(index, hash)}
      ensures growOnNextInsert ==
        (old(growOnNextInsert) || (IsLoaded() && FarPlaced(old(buckets[..]), buckets[..], start)))
    {
      var ibucket: nat, dist: nat, indexInsert, hashInsert := start, startDist, index, hash;
      ghost var b0, all, far := buckets[..], multiset(buckets[..]) + multiset{Entry(index, hash)}, false;
      DisplaceStart(b0, start, dist, Entry(index, hash), hole);
      while buckets[ibucket] != Empty
        invariant Displacing(b0, buckets[..], start, ibucket, dist, Entry(indexInsert, hashInsert), hole, all, far)
        invariant growOnNextInsert == (old(growOnNextInsert) || (IsLoaded() && far))
        decreases Gap(ibucket, hole, buckets.Length)
      {
        indexInsert, hashInsert, dist := Displace(b0, start, ibucket, dist, indexInsert, hashInsert, hole, all, far);
        ibucket := Next(ibucket, buckets.Length);
        far := far || dist > NPROBES;
        if dist > NPROBES && !growOnNextInsert && IsLoaded() {
          growOnNextInsert := true;
        }
      }
      PutDown(b0, start, ibucket, dist, indexInsert, hashInsert, hole, all, far);
    }

    /** The entry in flight comes to an empty bucket. */
    method PutDown(ghost b0: Ring, ghost start: nat, ibucket: nat, ghost dist: nat, index: nat, hash: nat,
                   ghost hole: nat, ghost all: multiset<Bucket>, ghost far: bool)
      requires Displacing(b0, buckets[..], start, ibucket, dist, Entry(index, hash), hole, all, far)
      requires buckets[ibucket] == Empty
      modifies buckets
      ensures RobinHood(buckets[..]) && multiset(buckets[..]) + multiset{Empty} == all
      ensures far == FarPlaced(b0, buckets[..], start)
    {
      ghost var b := buckets[..];
      DisplaceEnd(b0, b, start, ibucket, dist, Entry(index, hash), hole, all, far);
      buckets[ibucket] := Entry(index, hash);
      assert buckets[..] == b[ibucket := Entry(index, hash)];
    }

    /** The entry meets a resident: it takes the place of a richer one, which travels on in its stead. */
    method Displace(ghost b0: Ring, ghost start: nat, ibucket: nat, dist: nat, index: nat, hash: nat, ghost hole: nat,
                    ghost all: multiset<Bucket>, ghost far: bool)
      returns (index': nat, hash': nat, dist': nat)
      requires Displacing(b0, buckets[..], start, ibucket, dist, Entry(index, hash), hole, all, far)
      requires buckets[ibucket].Entry?
      modifies buckets
      ensures var p := Next(ibucket, buckets.Length);
              && Displacing(b0, buckets[..], start, p, dist', Entry(index', hash'), hole, all, far || dist' > NPROBES)
              && Gap(p, hole, buckets.Length) < Gap(ibucket, hole, buckets.Length)
    {
      ghost var b := buckets[..];
      index', hash' := index, hash;
      var distance := Dist(buckets[..], ibucket);
      if dist > distance {
        DisplaceSwap(b0, b, start, ibucket, dist, Entry(index, hash), hole, all, far);
        index', hash' := SwapEntry(ibucket, index, hash);
        dist' := distance + 1;
      } else {
        DisplaceAdvance(b0, b, start, ibucket, dist, Entry(index, hash), hole, all, far);
        dist' := dist + 1;
      }
    }

    /** Moves the entries behind a freshly emptied bucket one step back, up to a hole or an entry at home. */
    method BackwardShift(emptyBucket: nat)
      requires Holed(buckets[..], emptyBucket)
      modifies buckets
      ensures RobinHood(buckets[..]) && multiset(buckets[..]) == multiset(old(buckets[..]))
    {
      var previous := emptyBucket;
      var current := Next(previous, buckets.Length);
      while buckets[current] != Empty && Dist(buckets[..], current) > 0
        invariant Holed(buckets[..], previous) && current == Next(previous, buckets.Length)
        invariant multiset(buckets[..]) == multiset(old(buckets[..]))
        decreases TotalDist(buckets[..], buckets.Length)
      {
        SwapBack(previous, current);
        previous, current := current, Next(current, buckets.Length);
      }
      HoleClose(buckets[..], previous);
    }

    /** One swap of a backward shift. */
    method SwapBack(previous: nat, current: nat)
      requires Shiftable(buckets[..], previous) && current == Next(previous, buckets.Length)
      modifies buckets
      ensures Holed(buckets[..], current) && multiset(buckets[..]) == multiset(old(buckets[..]))
      ensures TotalDist(buckets[..], buckets.Length) < TotalDist(old(buckets[..]), buckets.Length)
    {
      ghost var b := buckets[..];
      HoleShift(b, previous);
      buckets[current], buckets[previous] := buckets[previous], buckets[current];
      assert buckets[..] == Shifted(b, previous);
    }

    /** Renumbers the entries of the values from `from` on, which have just moved down by one. */
    method ShiftIndexesDown(from: nat, ghost doomed: nat)
      requires Shape() && buckets.Length > 0
      requires Renumbering(buckets[..], doomed, from, Hashes(hasher, values), from)
      modifies buckets
      ensures Renumbering(buckets[..], doomed, from, Hashes(hasher, values), |values|)
    {
      ghost var hs := Hashes(hasher, values);
      var ivalue := from;
      while ivalue < |values|
        invariant from <= ivalue <= |values|
        invariant Renumbering(buckets[..], doomed, from, hs, ivalue)
      {
        RenumberOne(from, ivalue, doomed);
        ivalue := ivalue + 1;
      }
    }

    /** Renumbers the entry of one value. */
    method RenumberOne(ghost from: nat, ivalue: nat, ghost doomed: nat)
      requires Shape() && buckets.Length > 0 && from <= ivalue < |values|
      requires Renumbering(buckets[..], doomed, from, Hashes(hasher, values), ivalue)
      modifies buckets
      ensures Renumbering(buckets[..], doomed, from, Hashes(hasher, values), ivalue + 1)
    {
      ghost var b, hs := buckets[..], Hashes(hasher, values);
      ghost var j := RenumberTarget(b, doomed, from, hs, ivalue);
      var ibucket := ScanForIndex(hasher(values[ivalue].0), ivalue + 1, j);
      RenumberStep(b, doomed, from, hs, ivalue, j);
      buckets[ibucket] := Entry(ivalue, buckets[ibucket].hash);
      assert buckets[..] == b[j := Entry(ivalue, b[j].hash)];
    }

    /** Scans from a hash's ideal bucket for the only bucket that carries `oldIndex`; it meets no empty bucket. */
    method ScanForIndex(hash: nat, oldIndex: nat, ghost j: nat) returns (ibucket: nat)
      requires Shape() && RobinHood(buckets[..])
      requires j < buckets.Length && buckets[j] == Entry(oldIndex, hash % TWO_32)
      requires forall i: nat | i < buckets.Length && buckets[i].Entry? && buckets[i].index == oldIndex :: i == j
      ensures ibucket == j
    {
      ghost var start := Ideal(hash, buckets.Length);
      IdealTruncated(hash, buckets.Length);
      ibucket := BucketForHash(hash);
      ghost var t: nat := 0;
      ProbeOccupied(buckets[..], start, 0, j);
      while buckets[ibucket].index != oldIndex
        invariant t <= Dist(buckets[..], j) && ibucket == At(start, t, buckets.Length)
        invariant buckets[ibucket].Entry? && (t == Dist(buckets[..], j) ==> ibucket == j)
        decreases Dist(buckets[..], j) - t
      {
        ibucket := Next(ibucket, buckets.Length);
        t := t + 1;
        ProbeOccupied(buckets[..], start, t, j);
      }
    }

    /** Erases the value that a bucket stands for, keeping the order of the others. */
    method EraseValueFromBucket(ibucket: nat)
      requires Valid() && ibucket < buckets.Length && buckets[ibucket].Entry?
      requires buckets[ibucket].index < |values|
      modifies buckets, this`values
      ensures Valid()
      ensures values == Without(old(values), old(buckets[ibucket].index))
    {
      var p := buckets[ibucket].index;
      RenumberStart(buckets[..], ibucket, Hashes(hasher, values));
      HashesRemove(hasher, values, p);
      values := values[..p] + values[p + 1..];
      if buckets[ibucket].index != |values| {
        ShiftIndexesDown(buckets[ibucket].index, ibucket);
      }
      ClearBucket(ibucket);
      assert DistinctKeys(values);
    }

    /** Empties the doomed bucket and closes the gap. */
    method ClearBucket(ibucket: nat)
      requires ibucket < buckets.Length && buckets[ibucket].Entry?
      requires Renumbering(buckets[..], ibucket, buckets[ibucket].index, Hashes(hasher, values), |values|)
      modifies buckets
      ensures RobinHood(buckets[..]) && Agree(buckets[..], Hashes(hasher, values))
    {
      ghost var b := buckets[..];
      RenumberDone(b, ibucket, b[ibucket].index, Hashes(hasher, values));
      HoleOpen(b, ibucket);
      buckets[ibucket] := Empty;
      assert buckets[..] == b[ibucket := Empty];
      b := buckets[..];
      BackwardShift(ibucket);
      AgreePermuted(b, buckets[..], Hashes(hasher, values));
    }

    /** `erase` by key: the number of values erased. */
    method Erase(key: K) returns (erased: nat)
      requires Valid()
      modifies buckets, this`values
      ensures Valid()
      ensures erased == (if HasKey(old(values), key) then 1 else 0)
      ensures values ==
        match PositionOf(old(values), key) case Some(p) => Without(old(values), p) case None => old(values)
    {
      var ibucket := FindKey(key);
      if ibucket == buckets.Length {
        return 0;
      }
      PositionUnique(values, buckets[ibucket].index);
      EraseValueFromBucket(ibucket);
      erased := 1;
    }

    /** `erase` by position. */
    method EraseAt(position: nat)
      requires Valid() && position < |values|
      modifies buckets, this`values
      ensures Valid() && values == Without(old(values), position)
    {
      PositionUnique(values, position);
      var ibucket := FindKey(values[position].0);
      PositionUnique(values, buckets[ibucket].index);
      EraseValueFromBucket(ibucket);
    }

    /** `unordered_erase`: the last value takes the place of the erased one. */
    method UnorderedErase(key: K) returns (erased: nat)
      requires Valid()
      modifies buckets, this`values
      ensures Valid()
      ensures erased == (if HasKey(old(values), key) then 1 else 0)
      ensures values ==
        match PositionOf(old(values), key) case Some(p) => SwapRemove(old(values), p) case None => old(values)
    {
      var ibucketKey := FindKey(key);
      if ibucketKey == buckets.Length {
        return 0;
      }
      PositionUnique(values, buckets[ibucketKey].index);
      if key != values[|values| - 1].0 {
        var ibucketLast := FindKey(values[|values| - 1].0);
        PositionUnique(values, buckets[ibucketLast].index);
        PositionUnique(values, |values| - 1);
        ExchangeValues(ibucketKey, ibucketLast);
      } else {
        PositionUnique(values, |values| - 1);
      }
      EraseValueFromBucket(ibucketKey);
      erased := 1;
    }

    method ExchangeValues(i: nat, j: nat)
      requires Valid() && i < buckets.Length && j < buckets.Length && i != j
      requires buckets[i].Entry? && buckets[j].Entry? && buckets[i].index < |values| && buckets[j].index < |values|
      modifies buckets, this`values
      ensures Valid() && values == Exchange(old(values), old(buckets[i].index), old(buckets[j].index))
      ensures buckets[i].Entry? && buckets[i].index == old(buckets[j].index)
    {
      ghost var b, hs := buckets[..], Hashes(hasher, values);
      var p, q := buckets[i].index, buckets[j].index;
      AgreeExchange(b, hs, i, j);
      values := values[p := values[q]][q := values[p]];
      assert Hashes(hasher, values) == Exchange(hs, p, q);
      buckets[i], buckets[j] := Entry(q, buckets[i].hash), Entry(p, buckets[j].hash);
      assert buckets[..] == b[i := Entry(q, b[i].hash)][j := Entry(p, b[j].hash)];
    }

    // ----- lookup

    /** `find` and `count`: the probe agrees with linear search for every key. */
    method Find(key: K) returns (position: Option<nat>)
      requires Valid()
      ensures position == PositionOf(values, key)
    {
      var ibucket := FindKey(key);
      if ibucket == buckets.Length {
        return None;
      }
      PositionUnique(values, buckets[ibucket].index);
      position := Some(buckets[ibucket].index);
    }

    /** `at`: the mapped value, or `None` where the original throws `out_of_range`. */
    method ValueAt(key: K) returns (value: Option<V>)
      requires Valid()
      ensures value == Lookup(values, key)
    {
      var position := Find(key);
      value := if position.Some? then Some(values[position.value].1) else None;
    }

    // ----- capacity

    constructor (hasher: K -> nat, bucketCount: nat, maxBuckets: nat, ml: real)
      requires IsPow2(maxBuckets) && maxBuckets <= TWO_32 && bucketCount <= maxBuckets
      ensures Valid() && values == [] && this.hasher == hasher && this.maxBuckets == maxBuckets
      ensures Sized(buckets.Length, bucketCount)
      ensures fresh(buckets) && !growOnNextInsert
      ensures maxLoadFactor == if ml < 0.1 then 0.1 else if ml > 0.95 then 0.95 else ml
    {
      var n := 0;
      if bucketCount > 0 {
        n := RoundUpToPowerOfTwo(bucketCount);
      }
      this.hasher, this.maxBuckets := hasher, maxBuckets;
      buckets := new Bucket[n](_ => Empty);
      mask := if n > 0 then n - 1 else 0;
      values := [];
      growOnNextInsert := false;
      maxLoadFactor := Clamp(ml);
      loadThreshold := ThresholdFor(n, Clamp(ml));
      new;
      RebuildStart(buckets[..], []);
      RebuildDone(buckets[..], [], []);
    }

    method SetMaxLoadFactor(ml: real)
      requires Valid()
      modifies this`maxLoadFactor, this`loadThreshold
      ensures Valid()
      ensures maxLoadFactor == if ml < 0.1 then 0.1 else if ml > 0.95 then 0.95 else ml
    {
      maxLoadFactor := Clamp(ml);
      loadThreshold := ThresholdFor(buckets.Length, maxLoadFactor);
    }

    method Clear()
      requires Valid()
      modifies buckets, this`values, this`growOnNextInsert
      ensures Valid() && values == [] && !growOnNextInsert
    {
      for i := 0 to buckets.Length
        invariant forall k: nat | k < i :: buckets[k] == Empty
      {
        buckets[i] := Empty;
      }
      values := [];
      growOnNextInsert := false;
      RebuildStart(buckets[..], []);
      RebuildDone(buckets[..], [], []);
    }

    /** Moves every entry of `previous` into the current ring of empty buckets, by its stored truncated hash alone. */
    method Reinsert(previous: array<Bucket>, ghost hs: seq<nat>)
      requires previous != buckets && Agree(previous[..], hs) && |hs| <= buckets.Length
      requires forall i: nat | i < buckets.Length :: buckets[i] == Empty
      modifies buckets
      ensures RobinHood(buckets[..]) && Agree(buckets[..], hs)
    {
      RebuildStart(buckets[..], previous[..]);
      for k := 0 to previous.Length
        invariant Rebuilt(buckets[..], previous[..], k)
        invariant previous[..] == old(previous[..])
      {
        ghost var b := buckets[..];
        if previous[k] == Empty {
          RebuildSkip(b, previous[..], k);
        } else {
          ghost var hole := RebuildRoom(b, previous[..], hs, k);
          ReinsertEntry(previous[k].index, previous[k].hash, hole);
          RebuildStep(b, buckets[..], previous[..], k);
        }
      }
      RebuildDone(buckets[..], previous[..], hs);
    }

    /** One pass of the inner loop of `rehash_impl`. */
    method ReinsertEntry(index: nat, hash: nat, ghost hole: nat)
      requires hole < buckets.Length && buckets[hole] == Empty && RobinHood(buckets[..])
      modifies buckets
      ensures RobinHood(buckets[..])
      ensures multiset(buckets[..]) + multiset{Empty} == multiset(old(buckets[..])) + multiset{Entry(index, hash)}
    {
      var ibucket: nat, dist: nat, insertIndex, insertHash := Ideal(hash, buckets.Length), 0, index, hash;
      ghost var target := multiset(buckets[..]) + multiset{Entry(index, hash)};
      CarryStart(buckets[..], Entry(index, hash), hole);
      while buckets[ibucket] != Empty
        invariant Carrying(buckets[..], ibucket, dist, Entry(insertIndex, insertHash), hole)
        invariant multiset(buckets[..]) + multiset{Entry(insertIndex, insertHash)} == target
        decreases Gap(ibucket, hole, buckets.Length)
      {
        ghost var b, e := buckets[..], Entry(insertIndex, insertHash);
        var distance := Dist(buckets[..], ibucket);
        if dist > distance {
          CarrySwap(b, ibucket, dist, e, hole);
          insertIndex, insertHash := SwapEntry(ibucket, insertIndex, insertHash);
          dist := distance;
        } else {
          CarryAdvance(b, ibucket, dist, e, hole);
        }
        ibucket := Next(ibucket, buckets.Length);
        dist := dist + 1;
      }
      ghost var b := buckets[..];
      CarryPlace(b, ibucket, dist, Entry(insertIndex, insertHash), hole);
      buckets[ibucket] := Entry(insertIndex, insertHash);
      assert buckets[..] == b[ibucket := Entry(insertIndex, insertHash)];
    }

    /** `rehash_impl`: `ok` is false where the original throws `length_error`, with the table unchanged. */
    method RehashImpl(count: nat) returns (ok: bool)
      requires Valid() && count >= |values|
      modifies this`buckets, this`mask, this`growOnNextInsert, this`loadThreshold
      ensures Valid() && (buckets == old(buckets) || fresh(buckets))
      ensures ok <==> count <= maxBuckets
      ensures growOnNextInsert == (old(growOnNextInsert) && buckets == old(buckets))
      ensures !ok ==> buckets == old(buckets)
      ensures ok ==> Sized(buckets.Length, count)
    {
      if count > maxBuckets {
        return false;
      }
      var n := 0;
      if count > 0 {
        n := RoundUpToPowerOfTwo(count);
      }
      ok := true;
      if n == buckets.Length {
        return;
      }
      ReplaceBuckets(n);
    }

    method ReplaceBuckets(n: nat)
      requires Valid() && |values| <= n <= maxBuckets && (n == 0 || IsPow2(n))
      modifies this`buckets, this`mask, this`growOnNextInsert, this`loadThreshold
      ensures Valid() && fresh(buckets) && buckets.Length == n && !growOnNextInsert
    {
      var previous := buckets;
      ghost var hs := Hashes(hasher, values);
      buckets := new Bucket[n](_ => Empty);
      mask := if n > 0 then n - 1 else 0;
      loadThreshold := ThresholdFor(n, maxLoadFactor);
      growOnNextInsert := false;
      Reinsert(previous, hs);
    }

    method GrowOnHighLoad() returns (r: GrowResult)
      requires Valid()
      modifies this`buckets, this`mask, this`growOnNextInsert, this`loadThreshold
      ensures Valid() && (buckets == old(buckets) || fresh(buckets))
      ensures r != Grew ==> buckets == old(buckets) && growOnNextInsert == old(growOnNextInsert)
      ensures r == Kept ==> |values| < loadThreshold < buckets.Length
      ensures r == Kept <==> !old(growOnNextInsert) && |values| < old(loadThreshold)
      ensures r == Grew ==> !growOnNextInsert
      ensures r != TooLarge ==>
        Inserts(|values|, old(buckets.Length), maxLoadFactor, old(growOnNextInsert), buckets.Length)
      ensures r == Grew ==> buckets.Length == Grown(old(buckets.Length))
      ensures r == TooLarge <==> old(MustGrow()) && old(buckets.Length) * 2 > maxBuckets
    {
      if MustGrow() {
        var n := buckets.Length;
        var ok := RehashImpl(Grown(n));
        if !ok {
          return TooLarge;
        }
        GrownPow2(n, buckets.Length);
        growOnNextInsert := false;
        r := Grew;
      } else {
        assert buckets.Length > 0 ==> loadThreshold < buckets.Length by { TimesBelow(buckets.Length, maxLoadFactor); }
        r := Kept;
      }
    }

    /** `rehash`. */
    method Rehash(count: nat) returns (ok: bool)
      requires Valid()
      modifies this`buckets, this`mask, this`growOnNextInsert, this`loadThreshold
      ensures Valid() && (buckets == old(buckets) || fresh(buckets))
      ensures var needed := Needed(|values|, maxLoadFactor);
              && needed >= |values| && (|values| > 0 ==> |values| < needed)
              && ok == (count <= maxBuckets && needed <= maxBuckets)
              && (ok ==> Sized(buckets.Length, if count >= needed then count else needed))
      ensures ok ==> |values| <= loadThreshold
      ensures !ok ==> buckets == old(buckets)
    {
      NeededAbove(|values|, maxLoadFactor);
      var needed := Needed(|values|, maxLoadFactor);
      ok := RehashImpl(if count >= needed then count else needed);
      if ok { NeededFits(|values|, maxLoadFactor, buckets.Length); }
    }

    /** `reserve`. */
    method Reserve(count: nat) returns (ok: bool)
      requires Valid()
      modifies this`buckets, this`mask, this`growOnNextInsert, this`loadThreshold
      ensures Valid() && (buckets == old(buckets) || fresh(buckets))
      ensures !ok ==> buckets == old(buckets)
      ensures ok <==> Needed(count, maxLoadFactor) <= maxBuckets && Needed(|values|, maxLoadFactor) <= maxBuckets
      ensures ok ==> count <= loadThreshold && |values| <= loadThreshold
      ensures ok ==> (count > 0 ==> count < buckets.Length) && (|values| > 0 ==> |values| < buckets.Length)
    {
      NeededAbove(count, maxLoadFactor);
      ok := Rehash(Needed(count, maxLoadFactor));
      if ok { NeededFits(count, maxLoadFactor, buckets.Length); }
    }

    // ----- insertion

    /** The probe of `insert_impl`: the key's bucket, or the place where its displacement may start. */
    method ProbeForInsert(key: K) returns (found: bool, ibucket: nat, dist: nat)
      requires Valid() && buckets.Length > 0
      ensures found <==> HasKey(values, key)
      ensures found ==> HoldsKey(values, buckets[..], ibucket, key)
      ensures !found ==> ProbeAt(values, buckets[..], hasher, key, ibucket, dist)
    {
      var hash := hasher(key);
      ibucket, dist := BucketForHash(hash), 0;
      while buckets[ibucket] != Empty && dist <= Dist(buckets[..], ibucket)
        invariant ProbeAt(values, buckets[..], hasher, key, ibucket, dist)
        decreases buckets.Length - dist
      {
        ProbeMatch(values, buckets[..], hasher, key, ibucket, dist);
        if buckets[ibucket].hash == hash % TWO_32 && values[buckets[ibucket].index].0 == key {
          return true, ibucket, dist;
        }
        ProbeNext(values, buckets[..], hasher, key, ibucket, dist);
        ibucket := Next(ibucket, buckets.Length);
        dist := dist + 1;
      }
      ProbeStop(values, buckets[..], hasher, key, ibucket, dist);
      found := false;
    }

    /** The next insertion of a new key needs a larger ring. */
    predicate MustGrow()
      reads this
    {
      growOnNextInsert || |values| >= loadThreshold
    }

    /** Inserting the key throws `length_error`. */
    ghost predicate InsertFails(key: K)
      reads this
    {
      !HasKey(values, key) && (|values| == MAX_SIZE || (MustGrow() && buckets.Length * 2 > maxBuckets))
    }

    /** `insert` and `try_emplace`: appends when the key is absent, and reports where it is otherwise. */
    method Insert(key: K, value: V) returns (r: InsertResult)
      requires Valid()
      modifies this`buckets, this`mask, this`growOnNextInsert, this`loadThreshold, this`values, buckets
      ensures Valid() && (buckets == old(buckets) || fresh(buckets))
      ensures PositionOf(old(values), key).Some? ==>
        r == Present(PositionOf(old(values), key).value) && values == old(values)
      ensures PositionOf(old(values), key).None? ==>
        if r == LengthError then values == old(values)
        else r == Inserted(|old(values)|) && values == old(values) + [(key, value)]
      ensures r == LengthError <==> old(InsertFails(key))
      ensures old(|values| < buckets.Length) ==> |values| < buckets.Length
      ensures buckets.Length ==
        if !r.Inserted? || (!old(growOnNextInsert) && |old(values)| < old(loadThreshold)) then old(buckets.Length)
        else if old(buckets.Length) == 0 then 1 else 2 * old(buckets.Length)
      ensures r.Inserted? ==>
        Inserts(|old(values)|, old(buckets.Length), maxLoadFactor, old(growOnNextInsert), buckets.Length)
      ensures if r.Inserted? then growOnNextInsert ==> IsLoaded()
              else growOnNextInsert == old(growOnNextInsert)
    {
      var found, ibucket, dist := false, 0, 0;
      if buckets.Length > 0 {
        found, ibucket, dist := ProbeForInsert(key);
      }
      if found {
        PositionUnique(values, buckets[ibucket].index);
        return Present(buckets[ibucket].index);
      }
      if |values| >= MAX_SIZE {
        return LengthError;
      }
      var grow := GrowOnHighLoad();
      if grow == TooLarge {
        return LengthError;
      }
      if grow == Grew {
        ibucket, dist := Ideal(hasher(key), buckets.Length), 0;
      }
      Append(key, value, ibucket, dist);
      r := Inserted(|values| - 1);
    }

    method Append(key: K, value: V, ibucket: nat, dist: nat)
      requires Valid() && |values| < buckets.Length && |values| < MAX_SIZE && !HasKey(values, key)
      requires ProbeAt(values, buckets[..], hasher, key, ibucket, dist)
      modifies this`growOnNextInsert, this`values, buckets
      ensures Valid() && values == old(values) + [(key, value)]
      ensures growOnNextInsert ==
        (old(growOnNextInsert) || (IsLoaded() && FarPlaced(old(buckets[..]), buckets[..], ibucket)))
    {
      ghost var b, s := buckets[..], values;
      ghost var hole := AppendCarry(s, b, hasher, key, ibucket, dist);
      values := values + [(key, value)];
      InsertIndex(ibucket, dist, |values| - 1, hasher(key) % TWO_32, hole);
      IndexedAppend(s, b, buckets[..], hasher, key, value);
    }

    /** `insert_or_assign`. */
    method InsertOrAssign(key: K, value: V) returns (r: InsertResult)
      requires Valid()
      modifies this`buckets, this`mask, this`growOnNextInsert, this`loadThreshold, this`values, buckets
      ensures Valid() && (buckets == old(buckets) || fresh(buckets))
      ensures values == if r == LengthError then old(values) else Put(old(values), key, value)
      ensures r != LengthError ==>
        r == match PositionOf(old(values), key) case Some(p) => Present(p) case None => Inserted(|old(values)|)
      ensures r == LengthError <==> old(InsertFails(key))
      ensures old(|values| < buckets.Length) ==> |values| < buckets.Length
    {
      r := Insert(key, value);
      if r.Present? {
        AssignAt(r.position, value);
      }
    }

    method AssignAt(position: nat, value: V)
      requires Valid() && position < |values|
      modifies this`values
      ensures Valid() && values == old(values)[position := (old(values)[position].0, value)]
    {
      IndexedAssign(values, buckets[..], hasher, position, value);
      values := values[position := (values[position].0, value)];
    }
  }

  /** Constructing a table: there is none where the original throws `length_error`. */
  method MakeTable<K(==), V>(hasher: K -> nat, bucketCount: nat, maxBuckets: nat, ml: real)
    returns (table: OrderedHash?<K, V>)
    requires IsPow2(maxBuckets) && maxBuckets <= TWO_32
    ensures table == null <==> bucketCount > maxBuckets
    ensures table != null ==>
      && fresh(table) && fresh(table.buckets) && table.Valid() && table.values == []
      && table.hasher == hasher && table.maxBuckets == maxBuckets
      && table.maxLoadFactor == (if ml < 0.1 then 0.1 else if ml > 0.95 then 0.95 else ml)
      && Sized(table.buckets.Length, bucketCount) && !table.growOnNextInsert
  {
    if bucketCount > maxBuckets {
      return null;
    }
    table := new OrderedHash(hasher, bucketCount, maxBuckets, ml);
  }
}
