/** The standard priority queue, over a comparator: `Top` is an entry that no other outranks.
    Which one it is among equals is not part of any contract here. */
module PriorityQueue {

  datatype Entry<T> = Entry(id: nat, key: T)

  ghost predicate StrictOrder<T(!new)>(less: (T, T) -> bool) {
    && (forall a :: !less(a, a))
    && (forall a, b, c :: less(a, b) && less(b, c) ==> less(a, c))
  }

  function TopIndex<T(!new)>(q: seq<Entry<T>>, less: (T, T) -> bool): (k: nat)
    requires q != [] && StrictOrder(less)
    ensures k < |q| && forall j :: 0 <= j < |q| ==> !less(q[k].key, q[j].key)
  {
    var n := |q| - 1;
    if n == 0 then 0
    else
      var k := TopIndex(q[..n], less);
      assert forall j :: 0 <= j < n ==> q[..n][j] == q[j];
      if less(q[k].key, q[n].key) then n else k
  }

  function Top<T(!new)>(q: seq<Entry<T>>, less: (T, T) -> bool): (e: Entry<T>)
    requires q != [] && StrictOrder(less)
    ensures e in q && forall x :: x in q ==> !less(e.key, x.key)
  {
    q[TopIndex(q, less)]
  }

  function Pop<T(!new)>(q: seq<Entry<T>>, less: (T, T) -> bool): (rest: seq<Entry<T>>)
    requires q != [] && StrictOrder(less)
    ensures multiset(q) == multiset(rest) + multiset{Top(q, less)}
    ensures |rest| == |q| - 1 && forall x :: x in q <==> x in rest || x == Top(q, less)
  {
    var k := TopIndex(q, less);
    assert q == q[..k] + [q[k]] + q[k + 1..];
    q[..k] + q[k + 1..]
  }
}
