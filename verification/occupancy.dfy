/** What a backing array holds, seen from outside: how many live cells it has
    and which key→value mapping its live cells spell out. */
module Occupancy {
  import opened Wrappers
  import opened Slots

  /** Number of live cells (the value the table keeps in its `size` field). */
  function LiveCount<K, V>(s: seq<Slot<K, V>>): (c: nat)
    ensures c <= |s|
    decreases |s|
  {
    if |s| == 0 then 0
    else LiveCount(s[..|s| - 1]) + (if s[|s| - 1].Live? then 1 else 0)
  }

  /** The count is zero exactly when no cell is live. */
  lemma {:induction false} LiveCountZero<K, V>(s: seq<Slot<K, V>>)
    ensures LiveCount(s) == 0 <==> forall i :: 0 <= i < |s| ==> !s[i].Live?
    decreases |s|
  {
    if |s| > 0 {
      var p := s[..|s| - 1];
      LiveCountZero(p);
      assert forall i :: 0 <= i < |p| ==> p[i] == s[i];
    }
  }

  /** The count reaches the length exactly when every cell is live. */
  lemma {:induction false} LiveCountFull<K, V>(s: seq<Slot<K, V>>)
    ensures LiveCount(s) == |s| <==> forall i :: 0 <= i < |s| ==> s[i].Live?
    decreases |s|
  {
    if |s| > 0 {
      var p := s[..|s| - 1];
      LiveCountFull(p);
      assert forall i :: 0 <= i < |p| ==> p[i] == s[i];
    }
  }

  /** No key is live in two cells. */
  ghost predicate UniqueKeys<K, V>(s: seq<Slot<K, V>>)
  {
    forall i, j ::
      0 <= i < |s| && 0 <= j < |s| && s[i].Live? && s[j].Live? && s[i].key == s[j].key
      ==> i == j
  }

  /** The abstract mapping: every live cell contributes its pair; tombstones
      and empty cells contribute nothing. */
  ghost function Contents<K, V>(s: seq<Slot<K, V>>): map<K, V>
    requires UniqueKeys(s)
  {
    map i | 0 <= i < |s| && s[i].Live? :: s[i].key := s[i].value
  }

  /** `m[k]` when present, `None` (Java `null`) otherwise. */
  ghost function Lookup<K, V>(m: map<K, V>, k: K): Option<V>
  {
    if k in m then Some(m[k]) else None
  }

  lemma ContentsHas<K, V>(s: seq<Slot<K, V>>, i: int)
    requires UniqueKeys(s)
    requires 0 <= i < |s| && s[i].Live?
    ensures s[i].key in Contents(s) && Contents(s)[s[i].key] == s[i].value
  {
  }

  /** Replacing one cell changes the live count by the difference in liveness. */
  lemma {:induction false} LiveCountUpdate<K, V>(s: seq<Slot<K, V>>, i: int, x: Slot<K, V>)
    requires 0 <= i < |s|
    ensures LiveCount(s[i := x]) ==
            LiveCount(s) - (if s[i].Live? then 1 else 0) + (if x.Live? then 1 else 0)
    decreases |s|
  {
    var t := s[i := x];
    var n := |s|;
    if i == n - 1 {
      assert t[..n - 1] == s[..n - 1];
    } else {
      assert t[..n - 1] == s[..n - 1][i := x];
      assert t[n - 1] == s[n - 1];
      LiveCountUpdate(s[..n - 1], i, x);
    }
  }

  /** A prefix never has more live cells than the whole array. */
  lemma {:induction false} LiveCountPrefix<K, V>(s: seq<Slot<K, V>>, j: int)
    requires 0 <= j <= |s|
    ensures LiveCount(s[..j]) <= LiveCount(s)
    decreases |s| - j
  {
    if j < |s| {
      assert s[..j + 1][..j] == s[..j];
      LiveCountPrefix(s, j + 1);
    } else {
      assert s[..j] == s;
    }
  }

  /** Appending a cell: the mapping gains that cell's pair if it is live, and
      (keys being unique) that key was not there before. */
  lemma ContentsSnoc<K, V>(s: seq<Slot<K, V>>, x: Slot<K, V>)
    requires UniqueKeys(s + [x])
    ensures UniqueKeys(s)
    ensures x.Live? ==> x.key !in Contents(s)
    ensures Contents(s + [x]) == if x.Live? then Contents(s)[x.key := x.value] else Contents(s)
  {
    var t := s + [x];
    assert forall i :: 0 <= i < |s| ==> t[i] == s[i];
    assert UniqueKeys(s);
    assert forall i :: 0 <= i < |s| && s[i].Live? && x.Live? ==> s[i].key != x.key by {
      forall i | 0 <= i < |s| && s[i].Live? && x.Live?
        ensures s[i].key != x.key
      {
        assert t[i] == s[i] && t[|s|] == x;
      }
    }
    var m := if x.Live? then Contents(s)[x.key := x.value] else Contents(s);
    forall k | k in Contents(t)
      ensures k in m && Contents(t)[k] == m[k]
    {
      var j :| 0 <= j < |t| && t[j].Live? && t[j].key == k;
      ContentsHas(t, j);
      if j < |s| {
        ContentsHas(s, j);
      }
    }
    forall k | k in m
      ensures k in Contents(t)
    {
      if x.Live? && k == x.key {
        ContentsHas(t, |s|);
      } else {
        var j :| 0 <= j < |s| && s[j].Live? && s[j].key == k;
        ContentsHas(t, j);
      }
    }
  }

  /** The number of live cells is the size of the mapping they spell out. */
  lemma {:induction false} ContentsSize<K, V>(s: seq<Slot<K, V>>)
    requires UniqueKeys(s)
    ensures |Contents(s)| == LiveCount(s)
    decreases |s|
  {
    if |s| == 0 {
      assert Contents(s) == map[];
    } else {
      var p := s[..|s| - 1];
      var x := s[|s| - 1];
      assert s == p + [x];
      ContentsSnoc(p, x);
      ContentsSize(p);
    }
  }

  /** Overwriting the value of a live cell in place. */
  lemma ContentsOverwrite<K, V>(s: seq<Slot<K, V>>, i: int, v: V)
    requires UniqueKeys(s)
    requires 0 <= i < |s| && s[i].Live?
    ensures UniqueKeys(s[i := Live(s[i].key, v)])
    ensures Contents(s[i := Live(s[i].key, v)]) == Contents(s)[s[i].key := v]
  {
    var t := s[i := Live(s[i].key, v)];
    assert UniqueKeys(t);
    forall k | k in Contents(t)
      ensures k in Contents(s)[s[i].key := v] && Contents(t)[k] == Contents(s)[s[i].key := v][k]
    {
      var j :| 0 <= j < |t| && t[j].Live? && t[j].key == k;
      ContentsHas(t, j);
      if j != i {
        ContentsHas(s, j);
      }
    }
    forall k | k in Contents(s)[s[i].key := v]
      ensures k in Contents(t)
    {
      if k != s[i].key {
        var j :| 0 <= j < |s| && s[j].Live? && s[j].key == k;
        ContentsHas(t, j);
      } else {
        ContentsHas(t, i);
      }
    }
  }

  /** Turning a live cell into a tombstone removes exactly its key. */
  lemma ContentsDelete<K, V>(s: seq<Slot<K, V>>, i: int)
    requires UniqueKeys(s)
    requires 0 <= i < |s| && s[i].Live?
    ensures UniqueKeys(s[i := s[i].Delete()])
    ensures Contents(s[i := s[i].Delete()]) == Contents(s) - {s[i].key}
  {
    var t := s[i := s[i].Delete()];
    assert UniqueKeys(t);
    forall k | k in Contents(t)
      ensures k in Contents(s) - {s[i].key} && Contents(t)[k] == Contents(s)[k]
    {
      var j :| 0 <= j < |t| && t[j].Live? && t[j].key == k;
      ContentsHas(t, j);
      ContentsHas(s, j);
    }
    forall k | k in Contents(s) - {s[i].key}
      ensures k in Contents(t)
    {
      var j :| 0 <= j < |s| && s[j].Live? && s[j].key == k;
      ContentsHas(t, j);
    }
  }

  /** Writing a pair for an absent key into a cell that is not live adds
      exactly that pair. */
  lemma ContentsPlace<K, V>(s: seq<Slot<K, V>>, i: int, k: K, v: V)
    requires UniqueKeys(s)
    requires 0 <= i < |s| && !s[i].Live? && k !in Contents(s)
    ensures UniqueKeys(s[i := Live(k, v)])
    ensures Contents(s[i := Live(k, v)]) == Contents(s)[k := v]
  {
    var t := s[i := Live(k, v)];
    forall a, b | 0 <= a < |t| && 0 <= b < |t| && t[a].Live? && t[b].Live? && t[a].key == t[b].key
      ensures a == b
    {
      if a != i && b == i {
        ContentsHas(s, a);
      } else if a == i && b != i {
        ContentsHas(s, b);
      }
    }
    forall key | key in Contents(t)
      ensures key in Contents(s)[k := v] && Contents(t)[key] == Contents(s)[k := v][key]
    {
      var j :| 0 <= j < |t| && t[j].Live? && t[j].key == key;
      ContentsHas(t, j);
      if j != i {
        ContentsHas(s, j);
      }
    }
    forall key | key in Contents(s)[k := v]
      ensures key in Contents(t)
    {
      if key != k {
        var j :| 0 <= j < |s| && s[j].Live? && s[j].key == key;
        ContentsHas(t, j);
      } else {
        ContentsHas(t, i);
      }
    }
  }
}
