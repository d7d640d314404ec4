/**
 * A `std::map<uint32_t, int32_t>` as the catalog uses it: its entries in the
 * ascending key order in which the map iterates them, with `find`, `insert`
 * (which keeps an existing entry) and `erase`.
 */
module SortedMap {
  import opened Common
  import opened Bytes

  /** Keys strictly ascending: the order of iteration, and no key twice. */
  predicate Ordered(ps: seq<(u32, i32)>)
  {
    forall i, j :: 0 <= i < j < |ps| ==> ps[i].0 < ps[j].0
  }

  /** Every key of `ps` is below `k`. */
  predicate Below(ps: seq<(u32, i32)>, k: u32)
  {
    forall i :: 0 <= i < |ps| ==> ps[i].0 < k
  }

  /** `find`: the value stored under `k`, if any. */
  function Find(ps: seq<(u32, i32)>, k: u32): (r: Option<i32>)
    ensures r.Some? ==> (k, r.value) in ps
    ensures r.None? <==> forall i :: 0 <= i < |ps| ==> ps[i].0 != k
  {
    if ps == [] then None
    else if ps[0].0 == k then Some(ps[0].1)
    else Find(ps[1..], k)
  }

  /** `insert({k, v})`: adds the entry in its place unless `k` is already a key. */
  function Insert(ps: seq<(u32, i32)>, k: u32, v: i32): seq<(u32, i32)>
  {
    if ps == [] then [(k, v)]
    else if k < ps[0].0 then [(k, v)] + ps
    else if k == ps[0].0 then ps
    else [ps[0]] + Insert(ps[1..], k, v)
  }

  /** `erase(k)`: removes the entry for `k`, if there is one. */
  function Erase(ps: seq<(u32, i32)>, k: u32): seq<(u32, i32)>
  {
    if ps == [] then []
    else if ps[0].0 == k then ps[1..]
    else [ps[0]] + Erase(ps[1..], k)
  }

  /** Every key of `ps` is above `k`. */
  predicate Above(ps: seq<(u32, i32)>, k: u32)
  {
    forall i :: 0 <= i < |ps| ==> k < ps[i].0
  }

  /** An entry before an ordered map all of whose keys are above it extends it. */
  lemma OrderedCons(e: (u32, i32), ps: seq<(u32, i32)>)
    requires Ordered(ps) && Above(ps, e.0)
    ensures Ordered([e] + ps)
  {
    var r := [e] + ps;
    forall i, j | 0 <= i < j < |r| ensures r[i].0 < r[j].0 {
      assert r[j] == ps[j - 1];
      if i > 0 {
        assert r[i] == ps[i - 1];
      }
    }
  }

  /** The rest of an ordered map is ordered and above its first key. */
  lemma OrderedTail(ps: seq<(u32, i32)>)
    requires Ordered(ps) && ps != []
    ensures Ordered(ps[1..]) && Above(ps[1..], ps[0].0)
  {
    forall i | 0 <= i < |ps[1..]| ensures ps[0].0 < ps[1..][i].0 {
      assert ps[1..][i] == ps[i + 1];
    }
  }

  /** Inserting a key above `x` keeps every key above `x`. */
  lemma {:induction false} InsertAboveKey(ps: seq<(u32, i32)>, k: u32, v: i32, x: u32)
    requires Above(ps, x) && x < k
    ensures Above(Insert(ps, k, v), x)
    decreases |ps|
  {
    if ps != [] && k > ps[0].0 {
      assert Above(ps[1..], x) by {
        forall i | 0 <= i < |ps[1..]| ensures x < ps[1..][i].0 {
          assert ps[1..][i] == ps[i + 1];
        }
      }
      InsertAboveKey(ps[1..], k, v, x);
      var r := Insert(ps, k, v);
      forall i | 0 <= i < |r| ensures x < r[i].0 {
        if i > 0 {
          assert r[i] == Insert(ps[1..], k, v)[i - 1];
        }
      }
    }
  }

  /** Erasing a key keeps every key above `x`. */
  lemma {:induction false} EraseAboveKey(ps: seq<(u32, i32)>, k: u32, x: u32)
    requires Above(ps, x)
    ensures Above(Erase(ps, k), x)
    decreases |ps|
  {
    if ps != [] {
      assert Above(ps[1..], x) by {
        forall i | 0 <= i < |ps[1..]| ensures x < ps[1..][i].0 {
          assert ps[1..][i] == ps[i + 1];
        }
      }
      if ps[0].0 != k {
        EraseAboveKey(ps[1..], k, x);
        var r := Erase(ps, k);
        forall i | 0 <= i < |r| ensures x < r[i].0 {
          if i > 0 {
            assert r[i] == Erase(ps[1..], k)[i - 1];
          }
        }
      }
    }
  }

  /** An insert keeps the map ordered. */
  lemma {:induction false} InsertOrdered(ps: seq<(u32, i32)>, k: u32, v: i32)
    requires Ordered(ps)
    ensures Ordered(Insert(ps, k, v))
    decreases |ps|
  {
    if ps == [] {
    } else if k < ps[0].0 {
      assert Above(ps, k) by {
        forall i | 0 <= i < |ps| ensures k < ps[i].0 {
          assert i == 0 || ps[0].0 < ps[i].0;
        }
      }
      OrderedCons((k, v), ps);
    } else if k > ps[0].0 {
      OrderedTail(ps);
      InsertOrdered(ps[1..], k, v);
      InsertAboveKey(ps[1..], k, v, ps[0].0);
      OrderedCons(ps[0], Insert(ps[1..], k, v));
    }
  }

  /** An erase keeps the map ordered. */
  lemma {:induction false} EraseOrdered(ps: seq<(u32, i32)>, k: u32)
    requires Ordered(ps)
    ensures Ordered(Erase(ps, k))
    decreases |ps|
  {
    if ps != [] {
      OrderedTail(ps);
      if ps[0].0 != k {
        EraseOrdered(ps[1..], k);
        EraseAboveKey(ps[1..], k, ps[0].0);
        OrderedCons(ps[0], Erase(ps[1..], k));
      }
    }
  }

  /** After an insert, `k` maps to `v` if it was absent and every other lookup is unchanged. */
  lemma {:induction false} FindInsert(ps: seq<(u32, i32)>, k: u32, v: i32, j: u32)
    requires Ordered(ps)
    ensures Find(Insert(ps, k, v), j) == if j == k && Find(ps, k).None? then Some(v) else Find(ps, j)
    decreases |ps|
  {
    if ps != [] && k > ps[0].0 {
      FindInsert(ps[1..], k, v, j);
      assert Insert(ps, k, v)[1..] == Insert(ps[1..], k, v);
    } else if ps != [] && k < ps[0].0 {
      assert Insert(ps, k, v)[1..] == ps;
      if j == k {
        assert forall i :: 0 <= i < |ps| ==> ps[0].0 <= ps[i].0;
      }
    }
  }

  /** After an erase, `k` is absent and every other lookup is unchanged. */
  lemma {:induction false} FindErase(ps: seq<(u32, i32)>, k: u32, j: u32)
    requires Ordered(ps)
    ensures Find(Erase(ps, k), j) == if j == k then None else Find(ps, j)
    decreases |ps|
  {
    if ps != [] {
      if ps[0].0 == k {
        if j == k {
          assert forall i :: 0 <= i < |ps[1..]| ==> ps[1..][i].0 != k by {
            forall i | 0 <= i < |ps[1..]| ensures ps[1..][i].0 != k {
              assert ps[1..][i] == ps[i + 1];
            }
          }
        }
      } else {
        FindErase(ps[1..], k, j);
        assert Erase(ps, k)[1..] == Erase(ps[1..], k);
      }
    }
  }

  /** Inserting a key above all the others appends its entry, as a map filled in ascending order grows. */
  lemma {:induction false} InsertAbove(ps: seq<(u32, i32)>, k: u32, v: i32)
    requires Ordered(ps) && Below(ps, k)
    ensures Insert(ps, k, v) == ps + [(k, v)]
    decreases |ps|
  {
    if ps != [] {
      assert Below(ps[1..], k) by {
        forall i | 0 <= i < |ps[1..]| ensures ps[1..][i].0 < k {
          assert ps[1..][i] == ps[i + 1];
        }
      }
      InsertAbove(ps[1..], k, v);
      assert [ps[0]] + (ps[1..] + [(k, v)]) == ps + [(k, v)];
    }
  }

  /** Erasing a key just inserted into a map without it gives the map back. */
  lemma {:induction false} EraseInsert(ps: seq<(u32, i32)>, k: u32, v: i32)
    requires Ordered(ps) && Find(ps, k).None?
    ensures Erase(Insert(ps, k, v), k) == ps
    decreases |ps|
  {
    if ps != [] && k > ps[0].0 {
      EraseInsert(ps[1..], k, v);
      assert [ps[0]] + ps[1..] == ps;
    }
  }

  /** A prefix of an ordered map is ordered and below its next key. */
  lemma OrderedPrefix(ps: seq<(u32, i32)>)
    requires Ordered(ps) && ps != []
    ensures Ordered(ps[..|ps| - 1]) && Below(ps[..|ps| - 1], ps[|ps| - 1].0)
  {
    var n := |ps| - 1;
    forall i | 0 <= i < n ensures ps[..n][i].0 < ps[n].0 {
      assert ps[..n][i] == ps[i];
    }
  }

  /** An insert adds one entry exactly when the key was absent. */
  lemma {:induction false} InsertSize(ps: seq<(u32, i32)>, k: u32, v: i32)
    requires Ordered(ps)
    ensures |Insert(ps, k, v)| == if Find(ps, k).None? then |ps| + 1 else |ps|
    decreases |ps|
  {
    if ps != [] && k > ps[0].0 {
      OrderedTail(ps);
      InsertSize(ps[1..], k, v);
    } else if ps != [] && k < ps[0].0 {
      assert Find(ps, k).None? by {
        assert forall i :: 0 <= i < |ps| ==> ps[0].0 <= ps[i].0;
      }
    }
  }

  /** An erase never adds an entry. */
  lemma {:induction false} EraseSize(ps: seq<(u32, i32)>, k: u32)
    ensures |Erase(ps, k)| <= |ps|
    decreases |ps|
  {
    if ps != [] && ps[0].0 != k {
      EraseSize(ps[1..], k);
    }
  }
}
