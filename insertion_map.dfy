/**
  An insertion-ordered dictionary with the semantics of a JavaScript `Map`:
  the entries are a sequence of key/value pairs with pairwise distinct keys,
  kept in the order in which their keys were first inserted. Overwriting an
  existing key keeps its position; a new key is appended; deleting a key
  removes its entry and keeps the order of the others. Iteration over
  `entries()` visits the sequence from left to right.
 */
module InsertionMap {

  import opened JsValues

  /** The entries of a `Map<string, string>`, in iteration order. */
  type Entries = seq<(string, string)>

  /** The keys of the entries, in iteration order. */
  function Keys(e: Entries): (ks: seq<string>)
    ensures |ks| == |e|
    ensures forall i :: 0 <= i < |e| ==> ks[i] == e[i].0
  {
    if e == [] then [] else [e[0].0] + Keys(e[1..])
  }

  /** No key occurs twice: the representation invariant of a map. */
  ghost predicate UniqueKeys(e: Entries)
  {
    forall i, j :: 0 <= i < j < |e| ==> e[i].0 != e[j].0
  }

  /** No entry holds the key `k`. */
  ghost predicate Absent(e: Entries, k: string)
  {
    forall j :: 0 <= j < |e| ==> e[j].0 != k
  }

  /** `Map.prototype.get`: the value stored under `k`, if any. */
  function Get(e: Entries, k: string): (r: Option<string>)
    ensures r.None? <==> Absent(e, k)
  {
    if e == [] then None
    else if e[0].0 == k then Some(e[0].1)
    else AbsentTail(e, k); Get(e[1..], k)
  }

  /** `Map.prototype.set`: last write wins; an existing key keeps its place. */
  function Put(e: Entries, k: string, v: string): (r: Entries)
    ensures |e| <= |r| <= |e| + 1
  {
    if e == [] then [(k, v)]
    else if e[0].0 == k then [(k, v)] + e[1..]
    else [e[0]] + Put(e[1..], k, v)
  }

  /** `Map.prototype.delete`: drop the entry of `k`, keep the others in order. */
  function Delete(e: Entries, k: string): (r: Entries)
    ensures Absent(r, k)
    ensures |r| <= |e|
  {
    if e == [] then []
    else if e[0].0 == k then Delete(e[1..], k)
    else
      var t := Delete(e[1..], k);
      assert forall j :: 1 <= j <= |t| ==> ([e[0]] + t)[j] == t[j - 1];
      [e[0]] + t
  }

  /** The position of the first entry, in iteration order, whose value is `v`. */
  function FirstIndexFor(e: Entries, v: string): (r: Option<nat>)
    ensures r.None? <==> forall i :: 0 <= i < |e| ==> e[i].1 != v
    ensures r.Some? ==> r.value < |e| && e[r.value].1 == v && NoValueBefore(e, v, r.value)
  {
    if e == [] then None
    else if e[0].1 == v then Some(0)
    else match FirstIndexFor(e[1..], v)
      case None => None
      case Some(i) => Some(i + 1)
  }

  /** The key of the first entry, in iteration order, whose value is `v`. */
  function FirstKeyFor(e: Entries, v: string): (r: Option<string>)
    ensures r.None? <==> forall i :: 0 <= i < |e| ==> e[i].1 != v
    ensures r.Some? ==> exists i :: 0 <= i < |e| && e[i] == (r.value, v) && NoValueBefore(e, v, i)
  {
    match FirstIndexFor(e, v)
    case None => None
    case Some(i) => Some(e[i].0)
  }

  /** No entry before index `i` holds the value `v`. */
  ghost predicate NoValueBefore(e: Entries, v: string, i: int)
    requires 0 <= i <= |e|
  {
    forall j :: 0 <= j < i ==> e[j].1 != v
  }

  /**
    The loop of `getDriverId` and of `removeXBySocketId`: iterate over the
    entries in insertion order and stop at the first whose value is `v`.
   */
  method ScanForValue(e: Entries, v: string) returns (r: Option<string>)
    ensures r == FirstKeyFor(e, v)
  {
    var i := 0;
    while i < |e|
      invariant 0 <= i <= |e|
      invariant NoValueBefore(e, v, i)
    {
      if e[i].1 == v {
        FirstKeyForAt(e, v, i);
        return Some(e[i].0);
      }
      i := i + 1;
    }
    return None;
  }

  // ---------------------------------------------------------------------
  // Properties of the operations
  // ---------------------------------------------------------------------

  /** Past a first entry with another key, absence is decided by the tail. */
  lemma AbsentTail(e: Entries, k: string)
    requires e != [] && e[0].0 != k
    ensures Absent(e, k) <==> Absent(e[1..], k)
  {
    assert forall j :: 1 <= j < |e| ==> e[1..][j - 1] == e[j];
  }

  /**
    `Put` keeps the iteration order of the keys: an existing key stays where
    it was, a new key comes last.
   */
  lemma {:induction false} PutKeys(e: Entries, k: string, v: string)
    ensures Keys(Put(e, k, v)) == if Absent(e, k) then Keys(e) + [k] else Keys(e)
  {
    if e != [] && e[0].0 != k {
      AbsentTail(e, k);
      PutKeys(e[1..], k, v);
      assert Put(e, k, v)[1..] == Put(e[1..], k, v);
      assert Keys(e)[1..] == Keys(e[1..]);
    }
  }

  /** The first match is pinned down by its index. */
  lemma {:induction false} FirstKeyForAt(e: Entries, v: string, i: int)
    requires 0 <= i < |e| && e[i].1 == v && NoValueBefore(e, v, i)
    ensures FirstKeyFor(e, v) == Some(e[i].0)
  {
    if i > 0 {
      assert e[0].1 != v;
      assert e[1..][i - 1] == e[i];
      FirstKeyForAt(e[1..], v, i - 1);
    }
  }

  /** In a map, the key found by value really maps to that value. */
  lemma {:induction false} FirstKeyForMapsTo(e: Entries, v: string)
    requires UniqueKeys(e)
    ensures FirstKeyFor(e, v).Some? ==> Get(e, FirstKeyFor(e, v).value) == Some(v)
  {
    var r := FirstKeyFor(e, v);
    if r.Some? {
      var i :| 0 <= i < |e| && e[i] == (r.value, v) && NoValueBefore(e, v, i);
      GetAt(e, i);
    }
  }

  /** In a map, `Get` returns the value of the one entry holding the key. */
  lemma {:induction false} GetAt(e: Entries, i: int)
    requires UniqueKeys(e) && 0 <= i < |e|
    ensures Get(e, e[i].0) == Some(e[i].1)
  {
    if i > 0 {
      assert e[0].0 != e[i].0;
      assert e[1..][i - 1] == e[i];
      GetAt(e[1..], i - 1);
    }
  }

  /** After `Put(e, k, v)` the lookup of `k` yields `v`. */
  lemma {:induction false} PutGet(e: Entries, k: string, v: string)
    ensures Get(Put(e, k, v), k) == Some(v)
  {
    if e != [] && e[0].0 != k {
      PutGet(e[1..], k, v);
    }
  }

  /** `Put(e, k, v)` leaves the lookup of every other key unchanged. */
  lemma {:induction false} PutGetOther(e: Entries, k: string, v: string, k': string)
    requires k' != k
    ensures Get(Put(e, k, v), k') == Get(e, k')
  {
    if e != [] && e[0].0 != k {
      PutGetOther(e[1..], k, v, k');
    }
  }

  /** Overwriting an existing key replaces its entry in place. */
  lemma {:induction false} PutOverwrites(e: Entries, k: string, v: string, i: int)
    requires UniqueKeys(e) && 0 <= i < |e| && e[i].0 == k
    ensures Put(e, k, v) == e[i := (k, v)]
  {
    if i > 0 {
      assert e[0].0 != k;
      assert e[1..][i - 1] == e[i];
      PutOverwrites(e[1..], k, v, i - 1);
      assert [e[0]] + e[1..][i - 1 := (k, v)] == e[i := (k, v)];
    }
  }

  /** A new key is appended at the end of the iteration order. */
  lemma {:induction false} PutAppends(e: Entries, k: string, v: string)
    requires Absent(e, k)
    ensures Put(e, k, v) == e + [(k, v)]
  {
    if e != [] {
      AbsentTail(e, k);
      PutAppends(e[1..], k, v);
      assert [e[0]] + (e[1..] + [(k, v)]) == e + [(k, v)];
    }
  }

  /** `Put` keeps keys unique, so a re-added key still has exactly one entry. */
  lemma PutUnique(e: Entries, k: string, v: string)
    requires UniqueKeys(e)
    ensures UniqueKeys(Put(e, k, v))
  {
    if !Absent(e, k) {
      var i :| 0 <= i < |e| && e[i].0 == k;
      PutOverwrites(e, k, v, i);
      var r := e[i := (k, v)];
      assert Put(e, k, v) == r;
      forall a, b | 0 <= a < b < |r| ensures r[a].0 != r[b].0 {
        assert r[a].0 == e[a].0 && r[b].0 == e[b].0;
      }
    } else {
      PutAppends(e, k, v);
      var r := e + [(k, v)];
      assert Put(e, k, v) == r;
      forall a, b | 0 <= a < b < |r| ensures r[a].0 != r[b].0 {
        if b == |e| {
          assert r[a] == e[a];
        }
      }
    }
  }

  /** A value held by no entry, once put under `k`, is found by value under `k`. */
  lemma PutThenFindByValue(e: Entries, k: string, v: string)
    requires UniqueKeys(e)
    requires forall i :: 0 <= i < |e| ==> e[i].1 != v
    ensures FirstKeyFor(Put(e, k, v), v) == Some(k)
  {
    var e' := Put(e, k, v);
    if !Absent(e, k) {
      var i :| 0 <= i < |e| && e[i].0 == k;
      PutOverwrites(e, k, v, i);
      assert e' == e[i := (k, v)];
      forall j | 0 <= j < i ensures e'[j].1 != v {
        assert e'[j] == e[j];
      }
      FirstKeyForAt(e', v, i);
    } else {
      PutAppends(e, k, v);
      assert e' == e + [(k, v)];
      forall j | 0 <= j < |e| ensures e'[j].1 != v {
        assert e'[j] == e[j];
      }
      FirstKeyForAt(e', v, |e|);
    }
  }

  /** Deleting a key undoes any `Put` of it. */
  lemma {:induction false} DeletePut(e: Entries, k: string, v: string)
    ensures Delete(Put(e, k, v), k) == Delete(e, k)
  {
    if e != [] && e[0].0 != k {
      DeletePut(e[1..], k, v);
    }
  }

  /** After `Delete(e, k)` the lookup of `k` fails. */
  lemma DeleteGet(e: Entries, k: string)
    ensures Get(Delete(e, k), k) == None
  {
  }

  /** `Delete(e, k)` leaves the lookup of every other key unchanged. */
  lemma {:induction false} DeleteGetOther(e: Entries, k: string, k': string)
    requires k' != k
    ensures Get(Delete(e, k), k') == Get(e, k')
  {
    if e != [] {
      DeleteGetOther(e[1..], k, k');
    }
  }

  /** Deleting an absent key changes nothing. */
  lemma {:induction false} DeleteAbsent(e: Entries, k: string)
    requires Absent(e, k)
    ensures Delete(e, k) == e
  {
    if e != [] {
      AbsentTail(e, k);
      DeleteAbsent(e[1..], k);
    }
  }

  /** In a map, deleting a present key removes exactly its one entry. */
  lemma {:induction false} DeleteAt(e: Entries, k: string, i: int)
    requires UniqueKeys(e) && 0 <= i < |e| && e[i].0 == k
    ensures Delete(e, k) == e[..i] + e[i + 1..]
    ensures |Delete(e, k)| == |e| - 1
  {
    if i == 0 {
      assert Absent(e[1..], k) by {
        forall j | 0 <= j < |e| - 1 ensures e[1..][j].0 != k {
          assert e[1..][j] == e[j + 1];
        }
      }
      DeleteAbsent(e[1..], k);
      assert e[..0] + e[1..] == e[1..];
    } else {
      assert e[0].0 != k;
      assert e[1..][i - 1] == e[i];
      DeleteAt(e[1..], k, i - 1);
      assert [e[0]] + (e[1..][..i - 1] + e[1..][i..]) == e[..i] + e[i + 1..];
    }
  }

  /** Removing one entry keeps keys unique. */
  lemma RemoveAtUnique(e: Entries, i: int)
    requires UniqueKeys(e) && 0 <= i < |e|
    ensures UniqueKeys(e[..i] + e[i + 1..])
  {
    var r := e[..i] + e[i + 1..];
    assert forall a :: 0 <= a < i ==> r[a] == e[a];
    assert forall a :: i <= a < |r| ==> r[a] == e[a + 1];
  }

  /** `Delete` keeps keys unique. */
  lemma DeleteUnique(e: Entries, k: string)
    requires UniqueKeys(e)
    ensures UniqueKeys(Delete(e, k))
  {
    if !Absent(e, k) {
      var i :| 0 <= i < |e| && e[i].0 == k;
      DeleteAt(e, k, i);
      RemoveAtUnique(e, i);
    } else {
      DeleteAbsent(e, k);
    }
  }

  /**
    In a map, deleting the key found by value removes exactly the first
    entry holding that value and nothing else.
   */
  lemma DeleteFirstMatch(e: Entries, v: string)
    requires UniqueKeys(e)
    ensures FirstIndexFor(e, v).Some? ==>
              var i := FirstIndexFor(e, v).value;
              FirstKeyFor(e, v) == Some(e[i].0) && Delete(e, e[i].0) == e[..i] + e[i + 1..]
  {
    if FirstIndexFor(e, v).Some? {
      var i := FirstIndexFor(e, v).value;
      DeleteAt(e, e[i].0, i);
    }
  }
}
