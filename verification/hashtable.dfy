/** `ru.itmo.java.HashTable`: an open-addressing table with linear probing,
    tombstone deletion and growth by full rebuild. A table is an immutable
    value here; every operation returns the table it leaves behind. Keys are
    hashed by `hash`, which stands for the keys' `hashCode`. */
module HashTable {
  import opened Wrappers
  import opened Slots
  import opened Occupancy
  import opened Probing
  import opened Sizing

  /** `IllegalArgumentException` from the constructors and
      `NullPointerException` from `put`. */
  datatype Error = InvalidArgument | NullKeyOrValue

  /** The fields `data`, `loadFactor`, `threshold` and `size`. */
  datatype Table<K, V> = Table(data: seq<Slot<K, V>>, loadFactor: real, threshold: int, size: int)

  /** The part of the invariant that does not depend on hashing: the
      configuration the constructor checked, a threshold below the capacity,
      `size` counting the live cells and never above `threshold`, and each
      key live at most once. */
  ghost predicate WellFormed<K, V>(t: Table<K, V>)
  {
    && |t.data| >= MinimalDataSize
    && ValidLoadFactor(t.loadFactor)
    && 1 <= t.threshold < |t.data|
    && t.size == LiveCount(t.data)
    && t.size <= t.threshold
    && UniqueKeys(t.data)
  }

  /** The full invariant: well formed, and every live pair reachable by the
      lookup scan of its key. */
  ghost predicate Valid<K, V>(t: Table<K, V>, hash: K -> int)
  {
    WellFormed(t) && ChainsIntact(t.data, hash)
  }

  /** The threshold is the one computed from the current capacity and the
      load factor. Kept apart from `WellFormed` because it is the only clause
      that needs real arithmetic. */
  ghost predicate ThresholdMatches<K, V>(t: Table<K, V>)
  {
    |t.data| >= MinimalDataSize && ValidLoadFactor(t.loadFactor) &&
    t.threshold == Threshold(|t.data|, t.loadFactor)
  }

  /** No tombstones anywhere: what a freshly rebuilt array looks like. */
  ghost predicate NoTombs<K, V>(s: seq<Slot<K, V>>)
  {
    forall i :: 0 <= i < |s| ==> !s[i].Tomb?
  }

  /** A fresh array of `n` empty cells with its threshold. */
  function Blank<K, V>(n: nat, loadFactor: real): (r: Table<K, V>)
    requires n >= MinimalDataSize && ValidLoadFactor(loadFactor)
    ensures WellFormed(r) && ThresholdMatches(r) && NoTombs(r.data) && Contents(r.data) == map[]
    ensures |r.data| == n && r.loadFactor == loadFactor && r.size == 0
    ensures forall i :: 0 <= i < n ==> r.data[i].Empty?
  {
    var t := Table(seq(n, _ => Empty), loadFactor, Threshold(n, loadFactor), 0);
    LiveCountZero(t.data);
    t
  }

  lemma BlankValid<K, V>(n: nat, loadFactor: real, hash: K -> int)
    requires n >= MinimalDataSize && ValidLoadFactor(loadFactor)
    ensures Valid(Blank<K, V>(n, loadFactor), hash)
  {
  }

  /** The two-argument constructor; the other three supply the defaults. */
  function New<K, V>(capacity: int, loadFactor: real): (r: Result<Table<K, V>, Error>)
    ensures r.Failure? <==>
              capacity < MinimalDataSize || loadFactor <= MinimalLoadFactor || loadFactor >= MaximumLoadFactor
    ensures r.Failure? ==> r.error == InvalidArgument
    ensures r.Success? ==> |r.value.data| == capacity && r.value.loadFactor == loadFactor
    ensures r.Success? ==> r.value.size == 0 && r.value.threshold == Threshold(capacity, loadFactor)
    ensures r.Success? ==> WellFormed(r.value) && Contents(r.value.data) == map[]
    ensures r.Success? ==> forall i :: 0 <= i < capacity ==> r.value.data[i].Empty?
  {
    if capacity < MinimalDataSize || loadFactor <= MinimalLoadFactor || loadFactor >= MaximumLoadFactor then
      Failure(InvalidArgument)
    else
      Success(Blank(capacity, loadFactor))
  }

  /** A table of empty cells satisfies the invariant whatever the hash. */
  lemma NewValid<K, V>(capacity: int, loadFactor: real, hash: K -> int)
    requires New<K, V>(capacity, loadFactor).Success?
    ensures Valid(New<K, V>(capacity, loadFactor).value, hash)
  {
    BlankValid<K, V>(capacity, loadFactor, hash);
  }

  function NewDefault<K, V>(): (r: Result<Table<K, V>, Error>)
    ensures r.Success? && |r.value.data| == DefaultDataSize && r.value.loadFactor == DefaultLoadFactor
    ensures r.Success? ==> r.value.threshold == 63 && r.value.size == 0
  {
    New(DefaultDataSize, DefaultLoadFactor)
  }

  function NewWithCapacity<K, V>(capacity: int): (r: Result<Table<K, V>, Error>)
    ensures r.Success? <==> capacity >= MinimalDataSize
    ensures r.Success? ==> |r.value.data| == capacity && r.value.loadFactor == DefaultLoadFactor
  {
    New(capacity, DefaultLoadFactor)
  }

  function NewWithLoadFactor<K, V>(loadFactor: real): (r: Result<Table<K, V>, Error>)
    ensures r.Success? <==> ValidLoadFactor(loadFactor)
    ensures r.Success? ==> |r.value.data| == DefaultDataSize && r.value.loadFactor == loadFactor
  {
    New(DefaultDataSize, loadFactor)
  }

  /** `get`: the value mapped to the key, `None` for an absent or null key. */
  function Get<K(==), V>(t: Table<K, V>, hash: K -> int, key: Option<K>): (r: Option<V>)
    requires Valid(t, hash)
    ensures key.None? ==> r.None?
    ensures key.Some? ==> r == Lookup(Contents(t.data), key.value)
  {
    if key.None? then None
    else
      FindIndexCorrect(t.data, hash, key.value);
      match FindIndex(t.data, hash, key.value)
      case None => None
      case Some(i) => Some(t.data[i].value)
  }

  /** `size`: the number of pairs in the table. */
  function Size<K, V>(t: Table<K, V>): (r: int)
    requires WellFormed(t)
    ensures r == |Contents(t.data)|
    ensures 0 <= r < |t.data|
  {
    ContentsSize(t.data);
    t.size
  }

  /** The new-key branch of `put` after the growth check: count the pair,
      scan for the first cell that is empty or a tombstone, write the pair there. */
  function PlaceNew<K, V>(t: Table<K, V>, hash: K -> int, k: K, v: V): (r: Table<K, V>)
    requires Valid(t, hash) && k !in Contents(t.data) && t.size < t.threshold
    ensures r.size == t.size + 1
    ensures |r.data| == |t.data| && r.loadFactor == t.loadFactor && r.threshold == t.threshold
    ensures exists f :: 0 <= f < |t.data| && !t.data[f].Live? && r.data == t.data[f := Live(k, v)] &&
              forall e :: 0 <= e < Dist(StartIndex(hash(k), |t.data|), f, |t.data|) ==>
                t.data[ProbeAt(StartIndex(hash(k), |t.data|), e, |t.data|)].Live?
    ensures UniqueKeys(r.data) && Contents(r.data) == Contents(t.data)[k := v]
    ensures Valid(r, hash)
    ensures NoTombs(t.data) ==> NoTombs(r.data)
  {
    var f := FreeIndex(t.data, hash, k);
    LiveCountUpdate(t.data, f, Live(k, v));
    ContentsPlace(t.data, f, k, v);
    ChainsAfterWrite(t.data, hash, f, Live(k, v));
    Table(t.data[f := Live(k, v)], t.loadFactor, t.threshold, t.size + 1)
  }

  /** The loop of `resize`: re-insert the live pairs of `src`, from cell `j`
      on, into the new table `acc`; tombstones are skipped. */
  function Reinsert<K, V>(src: seq<Slot<K, V>>, hash: K -> int, j: nat, acc: Table<K, V>): (r: Table<K, V>)
    requires j <= |src| && UniqueKeys(src) && UniqueKeys(src[..j])
    requires Valid(acc, hash) && NoTombs(acc.data)
    requires Contents(acc.data) == Contents(src[..j])
    requires acc.size == LiveCount(src[..j])
    requires LiveCount(src) < acc.threshold
    ensures Valid(r, hash) && NoTombs(r.data)
    ensures Contents(r.data) == Contents(src)
    ensures r.size == LiveCount(src)
    ensures |r.data| == |acc.data| && r.loadFactor == acc.loadFactor && r.threshold == acc.threshold
    decreases |src| - j
  {
    if j == |src| then
      assert src[..j] == src;
      acc
    else
      ReinsertStep(src, j, acc);
      if src[j].Live? then
        Reinsert(src, hash, j + 1, PlaceNew(acc, hash, src[j].key, src[j].value))
      else
        Reinsert(src, hash, j + 1, acc)
  }

  /** One cell further into the source array: a live cell adds its pair, an
      absent key, to the pairs re-inserted so far, while staying below the threshold. */
  lemma ReinsertStep<K, V>(src: seq<Slot<K, V>>, j: nat, acc: Table<K, V>)
    requires j < |src| && UniqueKeys(src) && UniqueKeys(src[..j]) && UniqueKeys(acc.data)
    requires Contents(acc.data) == Contents(src[..j])
    requires acc.size == LiveCount(src[..j])
    requires LiveCount(src) < acc.threshold
    ensures UniqueKeys(src[..j + 1])
    ensures src[j].Live? ==>
              && src[j].key !in Contents(acc.data)
              && acc.size < acc.threshold
              && Contents(src[..j + 1]) == Contents(acc.data)[src[j].key := src[j].value]
              && LiveCount(src[..j + 1]) == acc.size + 1
    ensures !src[j].Live? ==>
              Contents(src[..j + 1]) == Contents(acc.data) && LiveCount(src[..j + 1]) == acc.size
  {
    PrefixCount(src, j);
    PrefixContents(src, j);
  }

  lemma PrefixCount<K, V>(src: seq<Slot<K, V>>, j: nat)
    requires j < |src|
    ensures LiveCount(src[..j + 1]) == LiveCount(src[..j]) + (if src[j].Live? then 1 else 0)
    ensures LiveCount(src[..j + 1]) <= LiveCount(src)
  {
    assert src[..j + 1][..j] == src[..j];
    LiveCountPrefix(src, j + 1);
  }

  lemma PrefixContents<K, V>(src: seq<Slot<K, V>>, j: nat)
    requires j < |src| && UniqueKeys(src)
    ensures UniqueKeys(src[..j]) && UniqueKeys(src[..j + 1])
    ensures src[j].Live? ==> src[j].key !in Contents(src[..j])
    ensures Contents(src[..j + 1]) ==
              if src[j].Live? then Contents(src[..j])[src[j].key := src[j].value] else Contents(src[..j])
  {
    assert src[..j + 1] == src[..j] + [src[j]];
    ContentsSnoc(src[..j], src[j]);
  }

  /** `resize`: a larger array, the threshold recomputed, and exactly the
      live pairs re-inserted. */
  function Resize<K, V>(t: Table<K, V>, hash: K -> int): (r: Table<K, V>)
    requires Valid(t, hash)
    ensures Valid(r, hash) && NoTombs(r.data)
    ensures Contents(r.data) == Contents(t.data)
    ensures r.size == t.size && r.loadFactor == t.loadFactor
    ensures |r.data| == |t.data| * GrowthFactor(t.loadFactor) && |r.data| >= 2 * |t.data|
    ensures r.size < |t.data| <= r.threshold && ThresholdMatches(r)
  {
    var n := |t.data| * GrowthFactor(t.loadFactor);
    GrownThresholdCoversCapacity(|t.data|, t.loadFactor);
    var rebuilt := Blank<K, V>(n, t.loadFactor);
    BlankValid<K, V>(n, t.loadFactor, hash);
    assert t.data[..0] == [];
    Reinsert(t.data, hash, 0, rebuilt)
  }

  /** `put` for a non-null key and value; returns the table and the value
      the key had before (`None` for a new key). */
  function Store<K(==), V>(t: Table<K, V>, hash: K -> int, k: K, v: V): (r: (Table<K, V>, Option<V>))
    requires Valid(t, hash)
    ensures Valid(r.0, hash) && r.0.loadFactor == t.loadFactor
    ensures Contents(r.0.data) == Contents(t.data)[k := v]
    ensures r.1 == Lookup(Contents(t.data), k)
    ensures r.0.size == if k in Contents(t.data) then t.size else t.size + 1
    ensures k in Contents(t.data) ==>
              && |r.0.data| == |t.data| && r.0.threshold == t.threshold
              && forall i :: 0 <= i < |t.data| ==>
                   r.0.data[i] == if t.data[i].Live? && t.data[i].key == k then Live(k, v) else t.data[i]
    ensures k !in Contents(t.data) ==>
              |r.0.data| == if t.size >= t.threshold then |t.data| * GrowthFactor(t.loadFactor) else |t.data|
  {
    FindIndexCorrect(t.data, hash, k);
    match FindIndex(t.data, hash, k)
    case Some(i) =>
      ContentsOverwrite(t.data, i, v);
      LiveCountUpdate(t.data, i, Live(k, v));
      ChainsAfterWrite(t.data, hash, i, Live(k, v));
      (t.(data := t.data[i := Live(k, v)]), Some(t.data[i].value))
    case None =>
      var grown := if t.size >= t.threshold then Resize(t, hash) else t;
      (PlaceNew(grown, hash, k, v), None)
  }

  /** `put`: a null key or value fails before anything changes. */
  function Put<K(==), V>(t: Table<K, V>, hash: K -> int, key: Option<K>, value: Option<V>)
    : (r: Result<(Table<K, V>, Option<V>), Error>)
    requires Valid(t, hash)
    ensures r.Failure? <==> key.None? || value.None?
    ensures r.Failure? ==> r.error == NullKeyOrValue
    ensures r.Success? ==> Valid(r.value.0, hash)
    ensures r.Success? ==> Contents(r.value.0.data) == Contents(t.data)[key.value := value.value]
    ensures r.Success? ==> r.value.1 == Lookup(Contents(t.data), key.value)
    ensures r.Success? ==> r.value.0.size == if key.value in Contents(t.data) then t.size else t.size + 1
  {
    if key.None? || value.None? then Failure(NullKeyOrValue)
    else Success(Store(t, hash, key.value, value.value))
  }

  /** `remove`: a present key's cell becomes a tombstone and its value is
      returned; an absent or null key leaves the table as it was. */
  function Remove<K(==), V>(t: Table<K, V>, hash: K -> int, key: Option<K>): (r: (Table<K, V>, Option<V>))
    requires Valid(t, hash)
    ensures Valid(r.0, hash)
    ensures key.None? ==> r == (t, None)
    ensures key.Some? ==> r.1 == Lookup(Contents(t.data), key.value)
    ensures key.Some? ==> Contents(r.0.data) == Contents(t.data) - {key.value}
    ensures key.Some? && key.value !in Contents(t.data) ==> r.0 == t
    ensures key.Some? && key.value in Contents(t.data) ==>
              && r.0.size == t.size - 1
              && |r.0.data| == |t.data| && r.0.loadFactor == t.loadFactor && r.0.threshold == t.threshold
              && forall i :: 0 <= i < |t.data| ==>
                   r.0.data[i] == if t.data[i].Live? && t.data[i].key == key.value then t.data[i].Delete() else t.data[i]
  {
    if key.None? then (t, None)
    else
      var k := key.value;
      FindIndexCorrect(t.data, hash, k);
      match FindIndex(t.data, hash, k)
      case None => (t, None)
      case Some(i) =>
        ContentsDelete(t.data, i);
        LiveCountUpdate(t.data, i, t.data[i].Delete());
        ChainsAfterWrite(t.data, hash, i, t.data[i].Delete());
        (t.(data := t.data[i := t.data[i].Delete()], size := t.size - 1), Some(t.data[i].value))
  }
}
