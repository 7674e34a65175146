/** The ring of buckets, as a value: probe distances, the Robin Hood invariant and what one step of
    probing, displacement, backward shift and renumbering does to it. Nothing here knows about keys:
    a ring is compared with the sequence `hs` of the hashes of the stored keys, in insertion order. */
module BucketRing {
  import opened Basics
  import opened Bits

  /** `bucket_entry`: empty, or a position in the value sequence with a truncated hash. */
  datatype Bucket = Empty | Entry(index: nat, hash: nat)

  type Ring = seq<Bucket>

  // ----- positions on a ring of n buckets

  function Next(i: nat, n: nat): (r: nat)
    requires i < n
    ensures r < n
  {
    if i + 1 < n then i + 1 else 0
  }

  function Prev(i: nat, n: nat): (r: nat)
    requires i < n
    ensures r < n && Next(r, n) == i
  {
    if i == 0 then n - 1 else i - 1
  }

  /** Steps forward from one position to another. */
  function Gap(from: nat, to: nat, n: nat): (g: nat)
    requires from < n && to < n
    ensures g < n && At(from, g, n) == to
  {
    if to >= from then to - from else n + to - from
  }

  function At(start: nat, t: nat, n: nat): (r: nat)
    requires start < n && t <= n
    ensures r < n
  {
    if start + t < n then start + t else start + t - n
  }

  lemma AndAtMost(a: nat, b: nat)
    ensures And(a, b) <= b
  {}

  /** `bucket_for_hash`: the hash masked with `n - 1`. */
  function Ideal(hash: nat, n: nat): (r: nat)
    requires n > 0
    ensures r < n
  {
    AndAtMost(hash, n - 1);
    And(hash, n - 1)
  }

  /** `distance_from_ideal_bucket`. */
  function Dist(b: Ring, i: nat): (d: nat)
    requires i < |b| && b[i].Entry?
    ensures d < |b|
  {
    Gap(Ideal(b[i].hash, |b|), i, |b|)
  }

  // ----- the Robin Hood invariant

  /** No hole before an entry away from its ideal bucket, and a probe distance at most one above the predecessor's. */
  ghost predicate LocalOk(b: Ring, i: nat)
    requires i < |b|
  {
    b[i].Entry? && Dist(b, i) > 0 ==>
      b[Prev(i, |b|)].Entry? && Dist(b, i) <= Dist(b, Prev(i, |b|)) + 1
  }

  ghost predicate RobinHood(b: Ring) {
    forall i: nat | i < |b| :: LocalOk(b, i)
  }

  /** Every bucket on the way from an entry's ideal bucket is occupied, by an entry at least as far from home
      as the probe has come: a search for that entry never stops early. */
  lemma {:induction false} Chain(b: Ring, j: nat, t: nat)
    requires RobinHood(b) && j < |b| && b[j].Entry? && t <= Dist(b, j)
    ensures var p := At(Ideal(b[j].hash, |b|), t, |b|); b[p].Entry? && Dist(b, p) >= t
    decreases Dist(b, j) - t
  {
    if t < Dist(b, j) {
      Chain(b, j, t + 1);
      var p := At(Ideal(b[j].hash, |b|), t + 1, |b|);
      assert LocalOk(b, p);
      assert Prev(p, |b|) == At(Ideal(b[j].hash, |b|), t, |b|);
    }
  }

  /** An entry has not been displaced across a hole. */
  lemma HoleBound(b: Ring, hole: nat, j: nat)
    requires RobinHood(b) && hole < |b| && b[hole] == Empty && j < |b| && b[j].Entry?
    ensures Dist(b, j) < Gap(hole, j, |b|)
  {
    if Dist(b, j) >= Gap(hole, j, |b|) {
      Chain(b, j, Dist(b, j) - Gap(hole, j, |b|));
    }
  }

  // ----- displacement

  /** The state of an insertion in flight: entry `e`, `d` steps from home, is to be placed at `p` or beyond;
      `hole` is an empty bucket that is still to come. */
  ghost predicate Carrying(b: Ring, p: nat, d: nat, e: Bucket, hole: nat) {
    && p < |b| && hole < |b| && b[hole] == Empty
    && RobinHood(b)
    && e.Entry? && d == Gap(Ideal(e.hash, |b|), p, |b|)
    && (d > 0 ==> b[Prev(p, |b|)].Entry? && d <= Dist(b, Prev(p, |b|)) + 1)
  }

  lemma CarryStart(b: Ring, e: Bucket, hole: nat)
    requires RobinHood(b) && hole < |b| && b[hole] == Empty && e.Entry?
    ensures Carrying(b, Ideal(e.hash, |b|), 0, e, hole)
  {}

  lemma CarryPlace(b: Ring, p: nat, d: nat, e: Bucket, hole: nat)
    requires Carrying(b, p, d, e, hole) && b[p] == Empty
    ensures RobinHood(b[p := e]) && multiset(b[p := e]) + multiset{Empty} == multiset(b) + multiset{e}
  {
    var b' := b[p := e];
    forall i: nat | i < |b'| ensures LocalOk(b', i) {
      assert LocalOk(b, i);
    }
  }

  lemma CarryAdvance(b: Ring, p: nat, d: nat, e: Bucket, hole: nat)
    requires Carrying(b, p, d, e, hole) && b[p].Entry? && d <= Dist(b, p)
    ensures Carrying(b, Next(p, |b|), d + 1, e, hole)
    ensures Gap(Next(p, |b|), hole, |b|) < Gap(p, hole, |b|)
  {
    HoleBound(b, hole, p);
  }

  lemma CarrySwap(b: Ring, p: nat, d: nat, e: Bucket, hole: nat)
    requires Carrying(b, p, d, e, hole) && b[p].Entry? && d > Dist(b, p)
    ensures Carrying(b[p := e], Next(p, |b|), Dist(b, p) + 1, b[p], hole)
    ensures multiset(b[p := e]) + multiset{b[p]} == multiset(b) + multiset{e}
    ensures Gap(Next(p, |b|), hole, |b|) < Gap(p, hole, |b|)
  {
    HoleBound(b, hole, p);
    var b' := b[p := e];
    assert Dist(b', p) == d;
    forall i: nat | i < |b'| ensures LocalOk(b', i) {
      assert LocalOk(b, i);
    }
  }

  // ----- backward shift

  /** The invariant with a bucket just emptied at `h`: its successor may be one step too far from home. */
  ghost predicate Holed(b: Ring, h: nat) {
    && h < |b| && b[h] == Empty
    && (forall i: nat | i < |b| && i != Next(h, |b|) :: LocalOk(b, i))
    && var c := Next(h, |b|);
       b[c].Entry? && Dist(b, c) > 1 ==>
         b[Prev(h, |b|)].Entry? && Dist(b, c) <= Dist(b, Prev(h, |b|)) + 2
  }

  lemma HoleOpen(b: Ring, h: nat)
    requires RobinHood(b) && h < |b| && b[h].Entry?
    ensures Holed(b[h := Empty], h)
  {
    var b' := b[h := Empty];
    forall i: nat | i < |b'| && i != Next(h, |b|) ensures LocalOk(b', i) {
      assert LocalOk(b, i);
    }
    assert LocalOk(b, Next(h, |b|));
    assert LocalOk(b, h);
  }

  lemma HoleClose(b: Ring, h: nat)
    requires Holed(b, h)
    requires var c := Next(h, |b|); b[c].Entry? ==> Dist(b, c) == 0
    ensures RobinHood(b)
  {
    forall i: nat | i < |b| ensures LocalOk(b, i) {}
  }

  function Shifted(b: Ring, h: nat): (r: Ring)
    requires h < |b|
    ensures |r| == |b|
  {
    b[h := b[Next(h, |b|)]][Next(h, |b|) := b[h]]
  }

  lemma HoleShift(b: Ring, h: nat)
    requires Holed(b, h)
    requires var c := Next(h, |b|); b[c].Entry? && Dist(b, c) > 0
    ensures Holed(Shifted(b, h), Next(h, |b|))
    ensures TotalDist(Shifted(b, h), |b|) < TotalDist(b, |b|)
    ensures multiset(Shifted(b, h)) == multiset(b)
  {
    var c := Next(h, |b|);
    HoleShiftHoled(b, h);
    var m := b[h := b[c]];
    TotalDistUpdate(b, h, b[c], |b|);
    TotalDistUpdate(m, c, Empty, |b|);
    assert multiset(m) == multiset(b) - multiset{Empty} + multiset{b[c]};
  }

  ghost predicate Shiftable(b: Ring, h: nat) {
    && Holed(b, h)
    && b[Next(h, |b|)].Entry? && Dist(b, Next(h, |b|)) > 0
  }

  lemma HoleShiftMoved(b: Ring, h: nat)
    requires Shiftable(b, h)
    ensures Next(h, |b|) != h && Dist(Shifted(b, h), h) == Dist(b, Next(h, |b|)) - 1
    ensures LocalOk(Shifted(b, h), h)
  {}

  lemma HoleShiftOther(b: Ring, h: nat, i: nat)
    requires Shiftable(b, h) && i < |b| && i != h && i != Next(h, |b|) && i != Next(Next(h, |b|), |b|)
    ensures LocalOk(Shifted(b, h), i)
  {
    assert LocalOk(b, i);
  }

  lemma HoleShiftHoled(b: Ring, h: nat)
    requires Shiftable(b, h)
    ensures Holed(Shifted(b, h), Next(h, |b|))
  {
    var c := Next(h, |b|);
    var cc := Next(c, |b|);
    HoleShiftMoved(b, h);
    forall i: nat | i < |b| && i != cc ensures LocalOk(Shifted(b, h), i) {
      if i != h && i != c { HoleShiftOther(b, h, i); }
    }
    HoleShiftSuccessor(b, h);
  }

  lemma HoleShiftSuccessor(b: Ring, h: nat)
    requires Shiftable(b, h)
    ensures var b', c := Shifted(b, h), Next(h, |b|);
            var cc := Next(c, |b|);
            b'[cc].Entry? && Dist(b', cc) > 1 ==> Dist(b', cc) <= Dist(b, c) + 1
  {
    var cc := Next(Next(h, |b|), |b|);
    if cc != h { assert LocalOk(b, cc); }
  }

  /** How far all entries are from home: each backward shift brings one entry one step closer. */
  ghost function TotalDist(b: Ring, k: nat): nat
    requires k <= |b|
  {
    if k == 0 then 0 else TotalDist(b, k - 1) + Weight(b, k - 1)
  }

  ghost function Weight(b: Ring, i: nat): nat
    requires i < |b|
  {
    if b[i].Entry? then Dist(b, i) else 0
  }

  lemma TotalDistUpdate(b: Ring, i: nat, x: Bucket, k: nat)
    requires i < |b| && k <= |b|
    ensures TotalDist(b[i := x], k) == TotalDist(b, k) + (if i < k then Weight(b[i := x], i) - Weight(b, i) else 0)
    decreases k
  {
    if k > 0 {
      TotalDistUpdate(b, i, x, k - 1);
    }
  }

  // ----- agreement with the value sequence

  /** How often bucket content `x` must occur in a ring of n buckets that indexes the keys hashed to `hs`. */
  ghost function Want(hs: seq<nat>, n: nat, x: Bucket): int {
    if x == Empty then n - |hs|
    else if x.index < |hs| && x.hash == hs[x.index] % TWO_32 then 1 else 0
  }

  /** Occupied buckets are in bijection with positions, each storing the truncated hash of its position's key. */
  ghost predicate Agree(b: Ring, hs: seq<nat>) {
    forall x: Bucket :: multiset(b)[x] == Want(hs, |b|, x)
  }

  lemma SameContentTwice(b: Ring, i: nat, j: nat)
    requires i < |b| && j < |b| && i != j && b[i] == b[j]
    ensures multiset(b)[b[i]] >= 2
  {
    var b' := b[i := if b[i] == Empty then Entry(0, 0) else Empty];
    assert b'[j] in multiset(b');
  }

  lemma EntrySound(b: Ring, hs: seq<nat>, i: nat)
    requires Agree(b, hs) && i < |b| && b[i].Entry?
    ensures b[i].index < |hs| && b[i].hash == hs[b[i].index] % TWO_32
  {
    assert b[i] in multiset(b);
  }

  /** The bucket of a position, and that it is the only one. */
  lemma Locate(b: Ring, hs: seq<nat>, v: nat) returns (i: nat)
    requires Agree(b, hs) && v < |hs|
    ensures i < |b| && b[i] == Entry(v, hs[v] % TWO_32)
    ensures forall j: nat | j < |b| && b[j].Entry? && b[j].index == v :: j == i
  {
    assert multiset(b)[Entry(v, hs[v] % TWO_32)] == 1;
    assert Entry(v, hs[v] % TWO_32) in multiset(b);
    i :| 0 <= i < |b| && b[i] == Entry(v, hs[v] % TWO_32);
    forall j: nat | j < |b| && b[j].Entry? && b[j].index == v ensures j == i {
      EntrySound(b, hs, j);
      if j != i { SameContentTwice(b, i, j); }
    }
  }

  lemma FindHole(b: Ring, hs: seq<nat>) returns (h: nat)
    requires Agree(b, hs) && |hs| < |b|
    ensures h < |b| && b[h] == Empty
  {
    assert multiset(b)[Empty] > 0;
    assert Empty in multiset(b);
    h :| 0 <= h < |b| && b[h] == Empty;
  }

  lemma AgreePermuted(b: Ring, b': Ring, hs: seq<nat>)
    requires Agree(b, hs) && multiset(b') == multiset(b)
    ensures Agree(b', hs)
  {
    assert |b| == |multiset(b)| && |b'| == |multiset(b')|;
    forall x: Bucket ensures multiset(b')[x] == Want(hs, |b'|, x) {
      assert multiset(b)[x] == Want(hs, |b|, x);
    }
  }

  lemma AgreeAppend(b: Ring, b': Ring, hs: seq<nat>, h: nat)
    requires Agree(b, hs) && |hs| < |b| == |b'|
    requires multiset(b') + multiset{Empty} == multiset(b) + multiset{Entry(|hs|, h % TWO_32)}
    ensures Agree(b', hs + [h])
  {
    forall x: Bucket ensures multiset(b')[x] == Want(hs + [h], |b'|, x) {
      assert multiset(b)[x] == Want(hs, |b|, x);
      assert (multiset(b') + multiset{Empty})[x] == (multiset(b) + multiset{Entry(|hs|, h % TWO_32)})[x];
    }
  }

  // ----- renumbering after an erase

  ghost function WantRenumbering(hs: seq<nat>, n: nat, v: nat, x: Bucket): int {
    if x == Empty then n - |hs|
    else if x.index < v then (if x.index < |hs| && x.hash == hs[x.index] % TWO_32 then 1 else 0)
    else (if v < x.index <= |hs| && x.hash == hs[x.index - 1] % TWO_32 then 1 else 0)
  }

  /** Renumbering in progress: positions below v are final, those from v on are still one too high, and the
      doomed bucket keeps the erased position p <= v. */
  ghost predicate Renumbering(b: Ring, doomed: nat, p: nat, hs: seq<nat>, v: nat) {
    && doomed < |b| && b[doomed].Entry? && b[doomed].index == p <= v <= |hs|
    && RobinHood(b)
    && forall x: Bucket :: multiset(b[doomed := Empty])[x] == WantRenumbering(hs, |b|, v, x)
  }

  lemma RenumberStart(b: Ring, doomed: nat, hs: seq<nat>)
    requires Agree(b, hs) && RobinHood(b) && doomed < |b| && b[doomed].Entry?
    requires b[doomed].index < |hs|
    ensures var p := b[doomed].index; Renumbering(b, doomed, p, Without(hs, p), p)
  {
    var p := b[doomed].index;
    EntrySound(b, hs, doomed);
    forall x: Bucket
      ensures multiset(b[doomed := Empty])[x] == WantRenumbering(Without(hs, p), |b|, p, x) {
      assert multiset(b)[x] == Want(hs, |b|, x);
      assert multiset(b)[b[doomed]] == 1;
    }
  }

  /** Where the scan for position v + 1 ends, and that no other bucket stops it: not even the doomed one. */
  lemma RenumberTarget(b: Ring, doomed: nat, p: nat, hs: seq<nat>, v: nat) returns (j: nat)
    requires Renumbering(b, doomed, p, hs, v) && v < |hs|
    ensures j < |b| && j != doomed && b[j] == Entry(v + 1, hs[v] % TWO_32)
    ensures forall i: nat | i < |b| && b[i].Entry? && b[i].index == v + 1 :: i == j
  {
    var c := b[doomed := Empty];
    var e := Entry(v + 1, hs[v] % TWO_32);
    assert multiset(c)[e] == WantRenumbering(hs, |b|, v, e) == 1;
    assert e in multiset(c);
    j :| 0 <= j < |c| && c[j] == e;
    forall i: nat | i < |b| && b[i].Entry? && b[i].index == v + 1 ensures i == j {
      assert c[i] == b[i] && c[i] in multiset(c);
      assert multiset(c)[c[i]] == WantRenumbering(hs, |b|, v, c[i]);
      if i != j { SameContentTwice(c, i, j); }
    }
  }

  lemma RenumberStep(b: Ring, doomed: nat, p: nat, hs: seq<nat>, v: nat, j: nat)
    requires Renumbering(b, doomed, p, hs, v) && v < |hs|
    requires j < |b| && j != doomed && b[j] == Entry(v + 1, hs[v] % TWO_32)
    ensures Renumbering(b[j := Entry(v, b[j].hash)], doomed, p, hs, v + 1)
  {
    var b' := b[j := Entry(v, b[j].hash)];
    SameHashes(b, b');
    var c := b[doomed := Empty];
    RenumberCounts(c, hs, v, j);
    assert b'[doomed := Empty] == c[j := b'[j]];
  }

  lemma RenumberCounts(c: Ring, hs: seq<nat>, v: nat, j: nat)
    requires forall x: Bucket :: multiset(c)[x] == WantRenumbering(hs, |c|, v, x)
    requires v < |hs| && j < |c| && c[j] == Entry(v + 1, hs[v] % TWO_32)
    ensures var c' := c[j := Entry(v, c[j].hash)];
            forall x: Bucket :: multiset(c')[x] == WantRenumbering(hs, |c|, v + 1, x)
  {
    var c' := c[j := Entry(v, c[j].hash)];
    assert multiset(c') == multiset(c) - multiset{c[j]} + multiset{c'[j]};
    forall x: Bucket ensures multiset(c')[x] == WantRenumbering(hs, |c|, v + 1, x) {
      assert multiset(c)[x] == WantRenumbering(hs, |c|, v, x);
    }
  }

  lemma RenumberDone(b: Ring, doomed: nat, p: nat, hs: seq<nat>)
    requires Renumbering(b, doomed, p, hs, |hs|)
    ensures Agree(b[doomed := Empty], hs)
  {
    var c := b[doomed := Empty];
    forall x: Bucket ensures multiset(c)[x] == Want(hs, |c|, x) {
      assert multiset(c)[x] == WantRenumbering(hs, |b|, |hs|, x);
    }
  }

  /** The Robin Hood invariant reads hashes only. */
  lemma SameHashes(b: Ring, b': Ring)
    requires RobinHood(b) && |b| == |b'|
    requires forall i: nat | i < |b| :: b[i].Entry? == b'[i].Entry? && (b[i].Entry? ==> b[i].hash == b'[i].hash)
    ensures RobinHood(b')
  {
    forall i: nat | i < |b'| ensures LocalOk(b', i) {
      assert LocalOk(b, i);
    }
  }

  // ----- probing

  /** A key's ideal bucket is its hash modulo the number of buckets. */
  lemma IdealModulo(hash: nat, n: nat)
    requires IsPow2(n)
    ensures Ideal(hash, n) == hash % n
  {
    var k: nat :| n == Pow2(k);
    AndMask(hash, k);
  }

  /** Truncating a hash does not change its ideal bucket in a ring of a power of two up to 2^32 buckets. */
  lemma IdealTruncated(hash: nat, n: nat)
    requires IsPow2(n) && n <= TWO_32
    ensures Ideal(hash % TWO_32, n) == Ideal(hash, n)
  {
    var k: nat :| n == Pow2(k);
    Pow2Values();
    if k > 32 { Pow2Monotone(32, k); }
    MaskTruncatedHash(hash, k);
  }

  /** If the entry in bucket j, at home at `start`, is not within d steps of home, then the d-th bucket of the
      probe is occupied, by an entry no nearer home than d, and is j itself only when j is d steps from home. */
  lemma ProbeOccupied(b: Ring, start: nat, d: nat, j: nat)
    requires RobinHood(b) && j < |b| && b[j].Entry? && Ideal(b[j].hash, |b|) == start && d <= Dist(b, j)
    ensures var p := At(start, d, |b|); b[p].Entry? && d <= Dist(b, p) && (d == Dist(b, j) ==> p == j)
  {
    Chain(b, j, d);
  }

  /** The bucket where an unsuccessful probe stops is where a displacement may start. */
  lemma CarryFromProbe(b: Ring, d: nat, e: Bucket, hole: nat)
    requires RobinHood(b) && hole < |b| && b[hole] == Empty && e.Entry? && d <= |b|
    requires var p := At(Ideal(e.hash, |b|), d, |b|);
             d > 0 ==> b[Prev(p, |b|)].Entry? && d <= Dist(b, Prev(p, |b|)) + 1
    ensures Carrying(b, At(Ideal(e.hash, |b|), d, |b|), d, e, hole)
  {
    if d > 0 { HoleBound(b, hole, Prev(At(Ideal(e.hash, |b|), d, |b|), |b|)); }
  }

  // ----- rebuilding a ring of another size

  /** `nb` holds the entries of the first k buckets of `src`. */
  ghost predicate Rebuilt(nb: Ring, src: Ring, k: nat) {
    && k <= |src| && RobinHood(nb)
    && (forall x: Bucket | x.Entry? :: multiset(nb)[x] == multiset(src[..k])[x])
    && multiset(nb)[Empty] == |nb| - (k - multiset(src[..k])[Empty])
  }

  lemma RebuildStart(nb: Ring, src: Ring)
    requires forall i: nat | i < |nb| :: nb[i] == Empty
    ensures Rebuilt(nb, src, 0)
  {
    AllEmpty(nb);
    assert src[..0] == [];
    forall i: nat | i < |nb| ensures LocalOk(nb, i) {}
  }

  lemma AllEmpty(b: Ring)
    requires forall i: nat | i < |b| :: b[i] == Empty
    ensures multiset(b)[Empty] == |b| && forall x: Bucket | x.Entry? :: multiset(b)[x] == 0
  {
    if |b| > 0 {
      AllEmpty(b[..|b| - 1]);
      assert b == b[..|b| - 1] + [Empty];
    }
  }

  lemma PrefixStep(src: Ring, k: nat)
    requires k < |src|
    ensures multiset(src[..k + 1]) == multiset(src[..k]) + multiset{src[k]}
  {
    assert src[..k + 1] == src[..k] + [src[k]];
  }

  lemma RebuildSkip(nb: Ring, src: Ring, k: nat)
    requires Rebuilt(nb, src, k) && k < |src| && src[k] == Empty
    ensures Rebuilt(nb, src, k + 1)
  {
    PrefixStep(src, k);
  }

  lemma RebuildRoom(nb: Ring, src: Ring, hs: seq<nat>, k: nat) returns (hole: nat)
    requires Rebuilt(nb, src, k) && k < |src| && src[k].Entry? && Agree(src, hs) && |hs| <= |nb|
    ensures hole < |nb| && nb[hole] == Empty
  {
    assert multiset(src)[Empty] == Want(hs, |src|, Empty);
    PrefixStep(src, k);
    assert src == src[..k + 1] + src[k + 1..];
    assert multiset(src[k + 1..])[Empty] <= |src[k + 1..]|;
    assert Empty in multiset(nb);
    hole :| 0 <= hole < |nb| && nb[hole] == Empty;
  }

  lemma RebuildStep(nb: Ring, nb': Ring, src: Ring, k: nat)
    requires Rebuilt(nb, src, k) && k < |src| && src[k].Entry? && |nb'| == |nb|
    requires RobinHood(nb') && multiset(nb') + multiset{Empty} == multiset(nb) + multiset{src[k]}
    requires multiset(nb)[Empty] > 0
    ensures Rebuilt(nb', src, k + 1)
  {
    PrefixStep(src, k);
    forall x: Bucket ensures multiset(nb')[x] + multiset{Empty}[x] == multiset(nb)[x] + multiset{src[k]}[x] {
      assert (multiset(nb') + multiset{Empty})[x] == (multiset(nb) + multiset{src[k]})[x];
    }
  }

  lemma RebuildDone(nb: Ring, src: Ring, hs: seq<nat>)
    requires Rebuilt(nb, src, |src|) && Agree(src, hs)
    ensures Agree(nb, hs)
  {
    assert src[..|src|] == src;
    forall x: Bucket ensures multiset(nb)[x] == Want(hs, |nb|, x) {
      assert multiset(src)[x] == Want(hs, |src|, x);
    }
  }

  // ----- exchanging two positions

  function Exchange<T>(s: seq<T>, p: nat, q: nat): (r: seq<T>)
    requires p < |s| && q < |s|
    ensures |r| == |s|
  {
    s[p := s[q]][q := s[p]]
  }

  /** Exchanging two positions in the value sequence and the indices in their two buckets keeps the agreement. */
  lemma AgreeExchange(b: Ring, hs: seq<nat>, i: nat, j: nat)
    requires Agree(b, hs) && RobinHood(b) && i < |b| && j < |b| && i != j
    requires b[i].Entry? && b[j].Entry? && b[i].index < |hs| && b[j].index < |hs|
    ensures var b' := b[i := Entry(b[j].index, b[i].hash)][j := Entry(b[i].index, b[j].hash)];
            Agree(b', Exchange(hs, b[i].index, b[j].index)) && RobinHood(b')
  {
    var m := b[i := Entry(b[j].index, b[i].hash)];
    var b' := m[j := Entry(b[i].index, b[j].hash)];
    SameHashes(b, b');
    EntrySound(b, hs, i);
    EntrySound(b, hs, j);
    ExchangeCounts(b, hs, i, j);
  }

  lemma ExchangeCounts(b: Ring, hs: seq<nat>, i: nat, j: nat)
    requires Agree(b, hs) && i < |b| && j < |b| && i != j
    requires b[i].Entry? && b[j].Entry? && b[i].index < |hs| && b[j].index < |hs|
    requires b[i].hash == hs[b[i].index] % TWO_32 && b[j].hash == hs[b[j].index] % TWO_32
    ensures var b' := b[i := Entry(b[j].index, b[i].hash)][j := Entry(b[i].index, b[j].hash)];
            Agree(b', Exchange(hs, b[i].index, b[j].index))
  {
    var p, q := b[i].index, b[j].index;
    var m := b[i := Entry(q, b[i].hash)];
    var b' := m[j := Entry(p, b[j].hash)];
    var hs' := Exchange(hs, p, q);
    assert multiset(b)[b[i]] == Want(hs, |b|, b[i]) == 1;
    if b[i] == b[j] { SameContentTwice(b, i, j); }
    assert p != q;
    forall x: Bucket ensures multiset(b')[x] == Want(hs', |b'|, x) {
      assert multiset(b)[x] == Want(hs, |b|, x);
      UpdateCount(b, i, m[i], x);
      UpdateCount(m, j, b'[j], x);
      ExchangeCount(b, hs, i, j, x);
    }
  }

  lemma UpdateCount(b: Ring, i: nat, y: Bucket, x: Bucket)
    requires i < |b|
    ensures multiset(b[i := y])[x] ==
      multiset(b)[x] - (if x == b[i] then 1 else 0) + (if x == y then 1 else 0)
  {
    assert multiset(b[i := y]) == multiset(b) - multiset{b[i]} + multiset{y};
  }

  lemma ExchangeCount(b: Ring, hs: seq<nat>, i: nat, j: nat, x: Bucket)
    requires i < |b| && j < |b| && i != j && b[i].Entry? && b[j].Entry?
    requires var p, q := b[i].index, b[j].index;
             p != q && p < |hs| && q < |hs| && b[i].hash == hs[p] % TWO_32 && b[j].hash == hs[q] % TWO_32
    ensures var p, q := b[i].index, b[j].index;
            Want(Exchange(hs, p, q), |b|, x) == Want(hs, |b|, x)
              - (if x == b[i] then 1 else 0) - (if x == b[j] then 1 else 0)
              + (if x == Entry(q, b[i].hash) then 1 else 0) + (if x == Entry(p, b[j].hash) then 1 else 0)
  {}
}
