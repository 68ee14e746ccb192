/** Properties of `HashTable` that relate several calls. */
module TableProperties {
  import opened Wrappers
  import opened Slots
  import opened Occupancy
  import opened Probing
  import opened Sizing
  import opened HashTable

  /** The `put` that `resize` issues for each live pair never finds the key
      and never grows the table again: it is exactly the new-key insertion. */
  lemma ReinsertIsPut<K, V>(t: Table<K, V>, hash: K -> int, k: K, v: V)
    requires Valid(t, hash) && k !in Contents(t.data) && t.size < t.threshold
    ensures Store(t, hash, k, v) == (PlaceNew(t, hash, k, v), None)
  {
    FindIndexCorrect(t.data, hash, k);
  }

  /** Every operation leaves the threshold equal to floor(capacity * loadFactor):
      `put` either keeps both the capacity and the threshold or grows through
      `resize`, which recomputes it; `remove` touches neither. */
  lemma ThresholdFollowsCapacity<K, V>(t: Table<K, V>, hash: K -> int, k: K, v: V)
    requires Valid(t, hash) && ThresholdMatches(t)
    ensures ThresholdMatches(Store(t, hash, k, v).0)
    ensures ThresholdMatches(Remove(t, hash, Some(k)).0)
  {
    FindIndexCorrect(t.data, hash, k);
  }

  /** After `put(k, v)`, `get(k)` yields `v` and every other key reads as before. */
  lemma PutThenGet<K, V>(t: Table<K, V>, hash: K -> int, k: K, v: V, other: K)
    requires Valid(t, hash) && other != k
    ensures Put(t, hash, Some(k), Some(v)).Success?
    ensures Get(Put(t, hash, Some(k), Some(v)).value.0, hash, Some(k)) == Some(v)
    ensures Get(Put(t, hash, Some(k), Some(v)).value.0, hash, Some(other)) == Get(t, hash, Some(other))
  {
  }

  /** Two `put`s of one key: the second returns the first value, the size
      counts the key once, and the second value wins. */
  lemma PutTwice<K, V>(t: Table<K, V>, hash: K -> int, k: K, v1: V, v2: V)
    requires Valid(t, hash)
    ensures var t1 := Store(t, hash, k, v1).0;
            var (t2, prev) := Store(t1, hash, k, v2);
            prev == Some(v1) && t2.size == t1.size && Get(t2, hash, Some(k)) == Some(v2)
  {
  }

  /** After removing the key held in live cell `i` it reads as absent and the
      size drops by one; a later `put` of the key counts it again. */
  lemma RemoveThenGet<K, V>(t: Table<K, V>, hash: K -> int, i: nat, v: V)
    requires Valid(t, hash) && i < |t.data| && t.data[i].Live?
    ensures var k := t.data[i].key;
            var t1 := Remove(t, hash, Some(k)).0;
            && Get(t1, hash, Some(k)).None?
            && t1.size == t.size - 1
            && Store(t1, hash, k, v).0.size == t.size
  {
    ContentsHas(t.data, i);
  }

  /** Removing the key held in live cell `i` turns exactly that cell into a
      tombstone and takes one off the size. */
  lemma RemoveLeavesTomb<K, V>(t: Table<K, V>, hash: K -> int, i: nat)
    requires Valid(t, hash) && i < |t.data| && t.data[i].Live?
    ensures Remove(t, hash, Some(t.data[i].key)).0 ==
            t.(data := t.data[i := Tomb(t.data[i].key, t.data[i].value)], size := t.size - 1)
  {
    var k := t.data[i].key;
    ContentsHas(t.data, i);
    var t1 := Remove(t, hash, Some(k)).0;
    forall j | 0 <= j < |t.data|
      ensures t1.data[j] == t.data[i := Tomb(k, t.data[i].value)][j]
    {
      if j != i && t.data[j].Live? {
        assert t.data[j].key != k;
      }
    }
  }

  /** A new key is placed no further along its probe path than any non-live
      cell `i`, and on `i` itself when every cell before `i` is live. */
  lemma PlaceNewAtOrBefore<K, V>(t: Table<K, V>, hash: K -> int, k: K, v: V, i: nat)
    requires Valid(t, hash) && k !in Contents(t.data) && t.size < t.threshold
    requires i < |t.data| && !t.data[i].Live?
    ensures var n := |t.data|;
            var s := StartIndex(hash(k), n);
            exists f :: 0 <= f < n && Dist(s, f, n) <= Dist(s, i, n) &&
              PlaceNew(t, hash, k, v).data == t.data[f := Live(k, v)] &&
              ((forall e :: 0 <= e < Dist(s, i, n) ==> t.data[ProbeAt(s, e, n)].Live?) ==> f == i)
  {
    var n := |t.data|;
    var s := StartIndex(hash(k), n);
    var f :| 0 <= f < n && !t.data[f].Live? && PlaceNew(t, hash, k, v).data == t.data[f := Live(k, v)] &&
              forall e :: 0 <= e < Dist(s, f, n) ==> t.data[ProbeAt(s, e, n)].Live?;
    FirstFreeBefore(t.data, s, f, i);
  }

  /** Putting a removed key back does not grow the table and lands no further
      along the key's probe path than its tombstone, and exactly on the
      tombstone when every cell before it on the path is live. */
  lemma PutBackReusesTomb<K, V>(t: Table<K, V>, hash: K -> int, i: nat, v: V)
    requires Valid(t, hash) && i < |t.data| && t.data[i].Live?
    ensures var k := t.data[i].key;
            var n := |t.data|;
            var s := StartIndex(hash(k), n);
            var t1 := Remove(t, hash, Some(k)).0;
            exists f :: 0 <= f < n && Dist(s, f, n) <= Dist(s, i, n) &&
              Store(t1, hash, k, v).0.data == t1.data[f := Live(k, v)] &&
              ((forall e :: 0 <= e < Dist(s, i, n) ==> t.data[ProbeAt(s, e, n)].Live?) ==> f == i)
  {
    var k := t.data[i].key;
    var n := |t.data|;
    var s := StartIndex(hash(k), n);
    ContentsHas(t.data, i);
    RemoveLeavesTomb(t, hash, i);
    var t1 := Remove(t, hash, Some(k)).0;
    ReinsertIsPut(t1, hash, k, v);
    PlaceNewAtOrBefore(t1, hash, k, v, i);
    LiveBeforeKept(t.data, t1.data, s, i);
  }

  /** The table `new(7, 0.5)`: threshold 3, so its fourth new key, not its
      third, makes it grow, to 7 * ceil(2.1) = 21 cells. */
  lemma SevenCellTable<K, V>(hash: K -> int, t: Table<K, V>, k: K, v: V)
    requires Valid(t, hash) && ThresholdMatches(t) && |t.data| == 7 && t.loadFactor == 0.5
    requires k !in Contents(t.data)
    ensures t.threshold == 3
    ensures |Store(t, hash, k, v).0.data| == (if t.size == 3 then 21 else 7)
  {
  }
}
