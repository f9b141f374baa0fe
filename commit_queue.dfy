/** The commit queue of a finger cursor: a dictionary from priority to the
    list of candidates committed at that priority, iterated from the highest
    priority to the lowest. It is represented by its entries in iteration
    order, which is how a sorted dictionary with a descending comparer
    presents itself to a `foreach`. */
module CommitQueue {
  import opened Selectables

  datatype Option<T> = None | Some(value: T)

  /** One dictionary entry: a priority key and its list, in commit order. */
  datatype Bucket = Bucket(priority: int, items: seq<Selectable>)

  /** Keys strictly descending: the iteration order of the dictionary, and
      no key twice. */
  ghost predicate Descending(buckets: seq<Bucket>) {
    forall i, j :: 0 <= i < j < |buckets| ==> buckets[i].priority > buckets[j].priority
  }

  /** Every candidate held in some list. */
  ghost function Committed(buckets: seq<Bucket>): set<Selectable> {
    if buckets == [] then {}
    else (set s | s in buckets[0].items) + Committed(buckets[1..])
  }

  lemma {:induction false} CommittedAt(buckets: seq<Bucket>, i: nat, j: nat)
    requires i < |buckets| && j < |buckets[i].items|
    ensures buckets[i].items[j] in Committed(buckets)
  {
    if i > 0 {
      CommittedAt(buckets[1..], i - 1, j);
    }
  }

  /** The dictionary itself, as a map from priority to list. */
  function AsMap(buckets: seq<Bucket>): map<int, seq<Selectable>> {
    if buckets == [] then map[]
    else AsMap(buckets[1..])[buckets[0].priority := buckets[0].items]
  }

  /** Adding a new key with an empty list, at its place in the order (the
      dictionary's `Add`); the caller adds only absent keys. */
  function InsertBucket(buckets: seq<Bucket>, p: int): (r: seq<Bucket>)
    ensures |r| == |buckets| + 1
    ensures r[0] == Bucket(p, []) || (buckets != [] && r[0] == buckets[0])
  {
    if buckets == [] || buckets[0].priority < p then [Bucket(p, [])] + buckets
    else [buckets[0]] + InsertBucket(buckets[1..], p)
  }

  lemma {:induction false} InsertBucketKeepsOrder(buckets: seq<Bucket>, p: int)
    requires Descending(buckets) && p !in AsMap(buckets)
    ensures Descending(InsertBucket(buckets, p))
  {
    var r := InsertBucket(buckets, p);
    if buckets == [] || buckets[0].priority < p {
      assert r[1..] == buckets;
    } else {
      var tail := buckets[1..];
      InsertBucketKeepsOrder(tail, p);
      var rest := InsertBucket(tail, p);
      assert r[1..] == rest;
      assert rest[0].priority < buckets[0].priority;
    }
  }

  lemma {:induction false} InsertBucketAddsKey(buckets: seq<Bucket>, p: int)
    requires p !in AsMap(buckets)
    ensures AsMap(InsertBucket(buckets, p)) == AsMap(buckets)[p := []]
    ensures Committed(InsertBucket(buckets, p)) == Committed(buckets)
  {
    var r := InsertBucket(buckets, p);
    if buckets == [] || buckets[0].priority < p {
      assert r[1..] == buckets;
    } else {
      var tail := buckets[1..];
      InsertBucketAddsKey(tail, p);
      assert r[1..] == InsertBucket(tail, p);
    }
  }

  /** Appending a candidate to the end of the list kept for key `p` (the
      list's `Add`); keys and their order are untouched. */
  function AppendAt(buckets: seq<Bucket>, p: int, s: Selectable): (r: seq<Bucket>)
    ensures |r| == |buckets|
    ensures forall i :: 0 <= i < |r| ==> r[i].priority == buckets[i].priority
  {
    if buckets == [] then []
    else if buckets[0].priority == p then [Bucket(p, buckets[0].items + [s])] + buckets[1..]
    else [buckets[0]] + AppendAt(buckets[1..], p, s)
  }

  lemma {:induction false} AppendAtExtendsList(buckets: seq<Bucket>, p: int, s: Selectable)
    requires p in AsMap(buckets)
    ensures AsMap(AppendAt(buckets, p, s)) == AsMap(buckets)[p := AsMap(buckets)[p] + [s]]
    ensures Committed(AppendAt(buckets, p, s)) == Committed(buckets) + {s}
  {
    var r := AppendAt(buckets, p, s);
    var tail := buckets[1..];
    if buckets[0].priority == p {
      assert r[1..] == tail;
      assert (set x | x in buckets[0].items + [s]) == (set x | x in buckets[0].items) + {s};
    } else {
      AppendAtExtendsList(tail, p, s);
      assert r[1..] == AppendAt(tail, p, s);
    }
  }

  /** The dictionary after every list has been cleared: keys stay, lists are empty. */
  function Drained(buckets: seq<Bucket>): (r: seq<Bucket>)
    ensures |r| == |buckets|
    ensures forall i :: 0 <= i < |r| ==> r[i].priority == buckets[i].priority && r[i].items == []
  {
    seq(|buckets|, i requires 0 <= i < |buckets| => Bucket(buckets[i].priority, []))
  }

  lemma {:induction false} DrainedEmptiesEveryList(buckets: seq<Bucket>)
    ensures Descending(buckets) ==> Descending(Drained(buckets))
    ensures AsMap(Drained(buckets)).Keys == AsMap(buckets).Keys
    ensures forall p :: p in AsMap(Drained(buckets)) ==> AsMap(Drained(buckets))[p] == []
    ensures Committed(Drained(buckets)) == {}
  {
    if buckets != [] {
      DrainedEmptiesEveryList(buckets[1..]);
      assert Drained(buckets)[1..] == Drained(buckets[1..]);
    }
  }

  /** Index of the first valid candidate of a list, scanning in list order. */
  function FirstValid(items: seq<Selectable>): (r: Option<nat>)
    reads items
    ensures r.Some? ==> r.value < |items| && IsValid(items[r.value])
    ensures forall k :: 0 <= k < |items| && IsValid(items[k]) ==> r.Some? && r.value <= k
  {
    if items == [] then None
    else if IsValid(items[0]) then Some(0)
    else match FirstValid(items[1..])
      case Some(k) => Some(k + 1)
      case None => None
  }

  /** Position (bucket, index) of the arbitration winner: the first valid
      candidate met when scanning the buckets in order and each list in
      commit order. */
  function WinnerAt(buckets: seq<Bucket>): (r: Option<(nat, nat)>)
    reads Committed(buckets)
    ensures r.Some? ==> r.value.0 < |buckets| && r.value.1 < |buckets[r.value.0].items|
    ensures r.Some? ==> IsValid(buckets[r.value.0].items[r.value.1])
    ensures forall i, j :: 0 <= i < |buckets| && 0 <= j < |buckets[i].items| && IsValid(buckets[i].items[j]) ==>
              r.Some? && (r.value.0 < i || (r.value.0 == i && r.value.1 <= j))
  {
    if buckets == [] then None
    else match FirstValid(buckets[0].items)
      case Some(j) => Some((0, j))
      case None =>
        match WinnerAt(buckets[1..])
        case Some((i, j)) => Some((i + 1, j))
        case None => None
  }

  /** The candidate whose flag an arbitration pass over `buckets` toggles. */
  function Winner(buckets: seq<Bucket>): (r: Option<Selectable>)
    reads Committed(buckets)
    ensures r.Some? ==> r.value in Committed(buckets) && IsValid(r.value)
    ensures r.None? ==> forall i, j :: 0 <= i < |buckets| && 0 <= j < |buckets[i].items| ==>
              !IsValid(buckets[i].items[j])
  {
    match WinnerAt(buckets)
    case Some((i, j)) => CommittedAt(buckets, i, j); Some(buckets[i].items[j])
    case None => None
  }

  /** In descending order, each bucket's list is what the dictionary holds
      for its key, and every key is some bucket's. */
  lemma {:induction false} AsMapLookup(buckets: seq<Bucket>)
    requires Descending(buckets)
    ensures forall i :: 0 <= i < |buckets| ==>
              buckets[i].priority in AsMap(buckets) && AsMap(buckets)[buckets[i].priority] == buckets[i].items
    ensures forall p :: p in AsMap(buckets) ==> exists i :: 0 <= i < |buckets| && buckets[i].priority == p
  {
    if buckets != [] {
      var tail := buckets[1..];
      AsMapLookup(tail);
      assert AsMap(buckets) == AsMap(tail)[buckets[0].priority := buckets[0].items];
      forall p | p in AsMap(buckets) ensures exists i :: 0 <= i < |buckets| && buckets[i].priority == p {
        if p != buckets[0].priority {
          assert p in AsMap(tail);
          var i :| 0 <= i < |tail| && tail[i].priority == p;
          assert buckets[i + 1].priority == p;
        }
      }
    }
  }

  /** The winner stated on the dictionary: a valid candidate at key `p`,
      position `k`, such that every valid committed candidate sits at a lower
      key, or at key `p` no earlier than `k`, is the one the pass toggles. */
  lemma WinnerByPriority(buckets: seq<Bucket>, p: int, k: nat)
    requires Descending(buckets)
    requires p in AsMap(buckets) && k < |AsMap(buckets)[p]| && IsValid(AsMap(buckets)[p][k])
    requires forall q, l :: q in AsMap(buckets) && 0 <= l < |AsMap(buckets)[q]| && IsValid(AsMap(buckets)[q][l])
               ==> q < p || (q == p && k <= l)
    ensures Winner(buckets) == Some(AsMap(buckets)[p][k])
  {
    AsMapLookup(buckets);
    var i :| 0 <= i < |buckets| && buckets[i].priority == p;
    assert buckets[i].items[k] == AsMap(buckets)[p][k];
    var (wi, wj) := WinnerAt(buckets).value;
    assert buckets[wi].priority in AsMap(buckets);
    assert AsMap(buckets)[buckets[wi].priority][wj] == buckets[wi].items[wj];
  }

  /** There is no winner exactly when no committed candidate is valid. */
  lemma NoWinnerIffNoneValid(buckets: seq<Bucket>)
    requires Descending(buckets)
    ensures Winner(buckets).None? <==>
              forall q, l :: q in AsMap(buckets) && 0 <= l < |AsMap(buckets)[q]| ==> !IsValid(AsMap(buckets)[q][l])
  {
    AsMapLookup(buckets);
    if Winner(buckets).Some? {
      var (wi, wj) := WinnerAt(buckets).value;
      var p := buckets[wi].priority;
      assert AsMap(buckets)[p][wj] == buckets[wi].items[wj];
    } else {
      forall q, l | q in AsMap(buckets) && 0 <= l < |AsMap(buckets)[q]|
        ensures !IsValid(AsMap(buckets)[q][l])
      {
        var i :| 0 <= i < |buckets| && buckets[i].priority == q;
        assert buckets[i].items[l] == AsMap(buckets)[q][l];
      }
    }
  }

  /** Conversely, any winner is a valid committed candidate that no valid
      candidate precedes in descending key order, then list order. */
  lemma WinnerIsFirstValidByPriority(buckets: seq<Bucket>)
    requires Descending(buckets)
    ensures Winner(buckets).Some? ==>
              exists p, k :: p in AsMap(buckets) && 0 <= k < |AsMap(buckets)[p]| && AsMap(buckets)[p][k] == Winner(buckets).value
                && IsValid(AsMap(buckets)[p][k])
                && forall q, l :: q in AsMap(buckets) && 0 <= l < |AsMap(buckets)[q]| && IsValid(AsMap(buckets)[q][l])
                     ==> q < p || (q == p && k <= l)
  {
    AsMapLookup(buckets);
    if Winner(buckets).Some? {
      var (wi, wj) := WinnerAt(buckets).value;
      var p := buckets[wi].priority;
      assert AsMap(buckets)[p][wj] == Winner(buckets).value;
      forall q, l | q in AsMap(buckets) && 0 <= l < |AsMap(buckets)[q]| && IsValid(AsMap(buckets)[q][l])
        ensures q < p || (q == p && wj <= l)
      {
        var i :| 0 <= i < |buckets| && buckets[i].priority == q;
        assert buckets[i].items[l] == AsMap(buckets)[q][l];
      }
    }
  }
}
