/** Linear probing with wrap-around over the backing array: where a key's
    probe sequence starts, the lookup scan of `getIndex`, and the scan `put`
    runs to find a cell for a new key. */
module Probing {
  import opened Wrappers
  import opened Slots
  import opened Occupancy

  function Abs(x: int): nat
  {
    if x < 0 then -x else x
  }

  /** Java's `%` on `int`: truncates toward zero, so the remainder takes the
      sign of the dividend (Dafny's own `%` is Euclidean). */
  function JavaRem(a: int, n: int): (r: int)
    requires n > 0
    ensures -n < r < n
    ensures a >= 0 ==> r >= 0
    ensures a <= 0 ==> r <= 0
    ensures Abs(r) == Abs(a) % n
  {
    if a >= 0 then a % n else -((-a) % n)
  }

  /** `getHashCode`: the absolute value of the truncated remainder. Taking
      the remainder first keeps `Math.abs` away from the most negative `int`. */
  function StartIndex(h: int, n: int): (r: nat)
    requires n > 0
    ensures r < n
    ensures r == Abs(h) % n
  {
    Abs(JavaRem(h, n))
  }

  /** The cell visited after `d` steps of `index++; index %= length` from `s`. */
  function ProbeAt(s: nat, d: nat, n: nat): (r: nat)
    requires s < n && d < n
    ensures r < n
  {
    if s + d < n then s + d else s + d - n
  }

  /** How many steps the scan from `s` needs to reach cell `i`. */
  function Dist(s: nat, i: nat, n: nat): (d: nat)
    requires s < n && i < n
    ensures d < n
    ensures ProbeAt(s, d, n) == i
  {
    if s <= i then i - s else i + n - s
  }

  lemma DistProbeAt(s: nat, d: nat, n: nat)
    requires s < n && d < n
    ensures Dist(s, ProbeAt(s, d, n), n) == d
  {
  }

  /** One more step of the scan is one Java increment-and-wrap; after `n`
      steps the scan is back at its start. */
  lemma ProbeStep(s: nat, d: nat, n: nat)
    requires s < n && d + 1 <= n
    ensures d + 1 < n ==> ProbeAt(s, d + 1, n) == (ProbeAt(s, d, n) + 1) % n
    ensures d + 1 == n ==> (ProbeAt(s, d, n) + 1) % n == s
    ensures d + 1 < n ==> ProbeAt(s, d + 1, n) != s
  {
    var p := ProbeAt(s, d, n);
    if p + 1 < n {
      assert (p + 1) % n == p + 1;
    } else {
      assert (p + 1) % n == 0;
    }
  }

  /** Every cell the scan from `s` passes before it reaches `i` is non-empty,
      so a lookup that started at `s` is not stopped on its way to `i`. */
  ghost predicate ChainTo<K, V>(data: seq<Slot<K, V>>, s: nat, i: nat)
    requires s < |data| && i < |data|
  {
    forall e :: 0 <= e < Dist(s, i, |data|) ==> !data[ProbeAt(s, e, |data|)].Empty?
  }

  /** Every live pair is reachable from the start of its key's probe sequence. */
  ghost predicate ChainsIntact<K, V>(data: seq<Slot<K, V>>, hash: K -> int)
    requires |data| > 0
  {
    forall i :: 0 <= i < |data| && data[i].Live? ==>
      ChainTo(data, StartIndex(hash(data[i].key), |data|), i)
  }

  /** The lookup scan from step `j` on: stops with "not found" at an empty
      cell or when the next step would come back to the start. */
  function FindFrom<K(==), V>(data: seq<Slot<K, V>>, k: K, s: nat, j: nat): (r: Option<nat>)
    requires s < |data| && j < |data|
    ensures r.Some? ==> r.value < |data| && data[r.value].Live? && data[r.value].key == k
    ensures r.Some? ==>
              && j <= Dist(s, r.value, |data|)
              && forall e :: j <= e < Dist(s, r.value, |data|) ==> !data[ProbeAt(s, e, |data|)].Empty?
    ensures forall d :: j <= d < |data| && data[ProbeAt(s, d, |data|)].Empty? &&
              (forall e :: j <= e < d ==> !(data[ProbeAt(s, e, |data|)].Live? && data[ProbeAt(s, e, |data|)].key == k))
              ==> r.None?
    decreases |data| - j
  {
    var i := ProbeAt(s, j, |data|);
    if data[i].Empty? then None
    else if data[i].Live? && data[i].key == k then DistProbeAt(s, j, |data|); Some(i)
    else if j + 1 == |data| then None
    else FindFrom(data, k, s, j + 1)
  }

  /** `getIndex` for a non-null key. */
  function FindIndex<K(==), V>(data: seq<Slot<K, V>>, hash: K -> int, k: K): (r: Option<nat>)
    requires |data| > 0
    ensures r.Some? ==> r.value < |data| && data[r.value].Live? && data[r.value].key == k
  {
    FindFrom(data, k, StartIndex(hash(k), |data|), 0)
  }

  /** The lookup scan from step `j` reaches a live cell holding `k` at step
      `d` if nothing before it stops the scan. */
  lemma {:induction false} FindFromReaches<K, V>(data: seq<Slot<K, V>>, k: K, s: nat, j: nat, d: nat)
    requires s < |data| && j <= d < |data|
    requires UniqueKeys(data)
    requires data[ProbeAt(s, d, |data|)].Live? && data[ProbeAt(s, d, |data|)].key == k
    requires forall e :: j <= e < d ==> !data[ProbeAt(s, e, |data|)].Empty?
    ensures FindFrom(data, k, s, j) == Some(ProbeAt(s, d, |data|))
    decreases d - j
  {
    var n := |data|;
    if j < d {
      var p := ProbeAt(s, j, n);
      if data[p].Live? && data[p].key == k {
        DistProbeAt(s, j, n);
        DistProbeAt(s, d, n);
        assert false;
      }
      FindFromReaches(data, k, s, j + 1, d);
    }
  }

  /** Under the table invariant `getIndex` finds a key exactly when some live
      cell holds it, and then it returns that cell. */
  lemma FindIndexCorrect<K, V>(data: seq<Slot<K, V>>, hash: K -> int, k: K)
    requires |data| > 0 && UniqueKeys(data) && ChainsIntact(data, hash)
    ensures FindIndex(data, hash, k).Some? <==> k in Contents(data)
    ensures FindIndex(data, hash, k).Some? ==>
              data[FindIndex(data, hash, k).value] == Live(k, Contents(data)[k])
  {
    var n := |data|;
    var r := FindIndex(data, hash, k);
    if r.Some? {
      ContentsHas(data, r.value);
    } else if k in Contents(data) {
      var i :| 0 <= i < n && data[i].Live? && data[i].key == k;
      var s := StartIndex(hash(k), n);
      assert ChainTo(data, s, i);
      FindFromReaches(data, k, s, 0, Dist(s, i, n));
      assert false;
    }
  }

  /** The insertion scan from step `j` on: the first cell that is empty or a
      tombstone. `None` stands for the Java loop running forever, which only
      a table of live cells alone could cause. */
  function FreeFrom<K, V>(data: seq<Slot<K, V>>, s: nat, j: nat): (r: Option<nat>)
    requires s < |data| && j < |data|
    ensures r.Some? ==> r.value < |data| && !data[r.value].Live?
    ensures r.Some? ==> j <= Dist(s, r.value, |data|)
    ensures r.Some? ==> forall e :: j <= e < Dist(s, r.value, |data|) ==> data[ProbeAt(s, e, |data|)].Live?
    ensures r.None? ==> forall e :: j <= e < |data| ==> data[ProbeAt(s, e, |data|)].Live?
    decreases |data| - j
  {
    var i := ProbeAt(s, j, |data|);
    DistProbeAt(s, j, |data|);
    if !data[i].Live? then Some(i)
    else if j + 1 == |data| then None
    else FreeFrom(data, s, j + 1)
  }

  /** A free cell exists on every probe sequence as long as some cell is not live. */
  lemma FreeFromFinds<K, V>(data: seq<Slot<K, V>>, s: nat)
    requires s < |data| && LiveCount(data) < |data|
    ensures FreeFrom(data, s, 0).Some?
  {
    var n := |data|;
    if FreeFrom(data, s, 0).None? {
      forall i | 0 <= i < n
        ensures data[i].Live?
      {
        assert data[ProbeAt(s, Dist(s, i, n), n)].Live?;
      }
      LiveCountFull(data);
      assert false;
    }
  }

  /** The cell a new key is written to: the first cell of its probe
      sequence that is empty or a tombstone. */
  function FreeIndex<K, V>(data: seq<Slot<K, V>>, hash: K -> int, k: K): (f: nat)
    requires |data| > 0 && LiveCount(data) < |data|
    ensures f < |data| && !data[f].Live?
    ensures forall e :: 0 <= e < Dist(StartIndex(hash(k), |data|), f, |data|) ==>
              data[ProbeAt(StartIndex(hash(k), |data|), e, |data|)].Live?
  {
    FreeFromFinds(data, StartIndex(hash(k), |data|));
    FreeFrom(data, StartIndex(hash(k), |data|), 0).value
  }

  /** The first non-live cell `f` of a probe path comes no later than any
      other non-live cell `i`, and is `i` when every cell before `i` is live. */
  lemma FirstFreeBefore<K, V>(data: seq<Slot<K, V>>, s: nat, f: nat, i: nat)
    requires s < |data| && f < |data| && i < |data|
    requires !data[f].Live? && !data[i].Live?
    requires forall e :: 0 <= e < Dist(s, f, |data|) ==> data[ProbeAt(s, e, |data|)].Live?
    ensures Dist(s, f, |data|) <= Dist(s, i, |data|)
    ensures (forall e :: 0 <= e < Dist(s, i, |data|) ==> data[ProbeAt(s, e, |data|)].Live?) ==> f == i
  {
  }

  /** Rewriting cell `i` leaves the cells before it on a probe path as they were. */
  lemma LiveBeforeKept<K, V>(a: seq<Slot<K, V>>, b: seq<Slot<K, V>>, s: nat, i: nat)
    requires s < |a| && i < |a| && |b| == |a|
    requires forall j :: 0 <= j < |a| && j != i ==> b[j] == a[j]
    ensures (forall e :: 0 <= e < Dist(s, i, |a|) ==> a[ProbeAt(s, e, |a|)].Live?) ==>
            forall e :: 0 <= e < Dist(s, i, |b|) ==> b[ProbeAt(s, e, |b|)].Live?
  {
    var n := |a|;
    forall e | 0 <= e < Dist(s, i, n)
      ensures ProbeAt(s, e, n) != i
    {
      DistProbeAt(s, e, n);
    }
  }

  /** Writing one cell keeps every chain intact provided the new cell is
      non-empty and, when it is live, its own chain is intact already. */
  lemma ChainsAfterWrite<K, V>(data: seq<Slot<K, V>>, hash: K -> int, i: nat, x: Slot<K, V>)
    requires 0 <= i < |data| && ChainsIntact(data, hash)
    requires !x.Empty?
    requires x.Live? ==> ChainTo(data, StartIndex(hash(x.key), |data|), i)
    ensures ChainsIntact(data[i := x], hash)
  {
  }

  /** Java's `getIndex` loop, step for step, over an immutable array. */
  method LookupScan<K(==), V>(data: seq<Slot<K, V>>, hash: K -> int, k: K) returns (r: Option<nat>)
    requires |data| > 0
    ensures r == FindIndex(data, hash, k)
  {
    var n := |data|;
    var start := StartIndex(hash(k), n);
    var index := start;
    ghost var j := 0;
    while !data[index].Empty?
      invariant j < n && index == ProbeAt(start, j, n)
      invariant FindFrom(data, k, start, j) == FindIndex(data, hash, k)
      decreases n - j
    {
      if data[index].IsNotDeleted() && hash(data[index].key) == hash(k) && data[index].key == k {
        return Some(index);
      }
      ProbeStep(start, j, n);
      index := (index + 1) % n;
      if index == start {
        return None;
      }
      j := j + 1;
    }
    return None;
  }

  /** Java's insertion scan of `put`: advance while the cell is live. */
  method FreeScan<K, V>(data: seq<Slot<K, V>>, hash: K -> int, k: K) returns (index: nat)
    requires |data| > 0 && LiveCount(data) < |data|
    ensures index < |data| && !data[index].Live?
    ensures forall e :: 0 <= e < Dist(StartIndex(hash(k), |data|), index, |data|) ==>
              data[ProbeAt(StartIndex(hash(k), |data|), e, |data|)].Live?
    ensures index == FreeIndex(data, hash, k)
  {
    var n := |data|;
    var start := StartIndex(hash(k), n);
    FreeFromFinds(data, start);
    index := start;
    ghost var j := 0;
    while !data[index].Empty? && data[index].IsNotDeleted()
      invariant j < n && index == ProbeAt(start, j, n)
      invariant FreeFrom(data, start, j) == FreeFrom(data, start, 0)
      decreases n - j
    {
      ProbeStep(start, j, n);
      index := (index + 1) % n;
      j := j + 1;
    }
  }
}
