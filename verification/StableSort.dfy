/** std::stable_sort by descending priority, as the send queue uses it. */
module StableSort {
  import opened Bytes

  datatype Entry = Entry(line: seq<byte>, priority: int)

  /** The entries of one priority, in order. */
  function Of(q: seq<Entry>, p: int): seq<Entry> {
    if q == [] then [] else (if q[0].priority == p then [q[0]] else []) + Of(q[1..], p)
  }

  ghost predicate Sorted(q: seq<Entry>) {
    forall i, j :: 0 <= i < j < |q| ==> q[i].priority >= q[j].priority
  }

  /** Same entries, and entries of equal priority in the same order. */
  ghost predicate SameByPriority(q: seq<Entry>, r: seq<Entry>) {
    forall p :: Of(q, p) == Of(r, p)
  }

  /** `e` goes ahead of the entries of its own priority, behind those of higher ones. */
  function Insert(e: Entry, q: seq<Entry>): (r: seq<Entry>)
    ensures |r| == |q| + 1
  {
    if q == [] || e.priority >= q[0].priority then [e] + q else [q[0]] + Insert(e, q[1..])
  }

  function Sort(q: seq<Entry>): (r: seq<Entry>)
    ensures |r| == |q|
  {
    if q == [] then [] else Insert(q[0], Sort(q[1..]))
  }

  lemma {:induction false} OfAppend(q: seq<Entry>, r: seq<Entry>, p: int)
    ensures Of(q + r, p) == Of(q, p) + Of(r, p)
    decreases |q|
  {
    if q == [] {
      assert q + r == r;
    } else {
      var s, first := q + r, if q[0].priority == p then [q[0]] else [];
      assert s[0] == q[0] && s[1..] == q[1..] + r;
      OfAppend(q[1..], r, p);
      assert first + Of(q[1..], p) + Of(r, p) == first + (Of(q[1..], p) + Of(r, p));
    }
  }

  lemma OfCons(e: Entry, q: seq<Entry>, p: int)
    ensures Of([e] + q, p) == (if e.priority == p then [e] else []) + Of(q, p)
  {
    assert ([e] + q)[1..] == q;
  }

  lemma {:induction false} InsertOf(e: Entry, q: seq<Entry>, p: int)
    requires Sorted(q)
    ensures Of(Insert(e, q), p) == (if e.priority == p then [e] else []) + Of(q, p)
    decreases |q|
  {
    if q == [] || e.priority >= q[0].priority {
      OfCons(e, q, p);
    } else {
      InsertOf(e, q[1..], p);
      OfCons(q[0], Insert(e, q[1..]), p);
      if e.priority == p {
        assert Of(q, p) == [] + Of(q[1..], p) == Of(q[1..], p);
      }
    }
  }

  lemma {:induction false} InsertSorts(e: Entry, q: seq<Entry>)
    requires Sorted(q)
    ensures Sorted(Insert(e, q))
    ensures forall x :: x in Insert(e, q) <==> x == e || x in q
    decreases |q|
  {
    if q != [] && e.priority < q[0].priority {
      var tail := Insert(e, q[1..]);
      InsertSorts(e, q[1..]);
      assert forall x :: x in q <==> x == q[0] || x in q[1..];
      assert forall x :: x in tail ==> x.priority <= q[0].priority;
    }
  }

  lemma {:induction false} SortIsStable(q: seq<Entry>)
    ensures Sorted(Sort(q)) && SameByPriority(Sort(q), q)
    decreases |q|
  {
    if q != [] {
      SortIsStable(q[1..]);
      InsertSorts(q[0], Sort(q[1..]));
      forall p
        ensures Of(Sort(q), p) == Of(q, p)
      {
        InsertOf(q[0], Sort(q[1..]), p);
      }
    }
  }

  /** Same counts per priority means same length and same members. */
  lemma {:induction false} SameByPriorityIsPermutation(q: seq<Entry>, r: seq<Entry>)
    requires SameByPriority(q, r)
    ensures multiset(q) == multiset(r)
  {
    forall e: Entry
      ensures multiset(q)[e] == multiset(r)[e]
    {
      OfCount(q, e);
      OfCount(r, e);
      assert Of(q, e.priority) == Of(r, e.priority);
    }
  }

  lemma {:induction false} OfCount(q: seq<Entry>, e: Entry)
    ensures multiset(q)[e] == multiset(Of(q, e.priority))[e]
    decreases |q|
  {
    if q != [] {
      OfCount(q[1..], e);
      assert q == [q[0]] + q[1..];
    }
  }

  /** The head of a sorted queue comes from no lower priority and is the first of its own. */
  lemma SortedHead(q: seq<Entry>)
    requires Sorted(q) && q != []
    ensures forall e :: e in q ==> e.priority <= q[0].priority
    ensures Of(q, q[0].priority) == [q[0]] + Of(q[1..], q[0].priority)
    ensures Of(q[1..], q[0].priority) == Of(q, q[0].priority)[1..]
    ensures forall p :: p != q[0].priority ==> Of(q[1..], p) == Of(q, p)
    ensures Sorted(q[1..])
  {
  }

  /** The order is determined: a sorted queue with the same entries per priority is the same queue. */
  lemma {:induction false} StableOrderIsUnique(q: seq<Entry>, r: seq<Entry>)
    requires Sorted(q) && Sorted(r) && SameByPriority(q, r)
    ensures q == r
    decreases |q|
  {
    SameByPriorityIsPermutation(q, r);
    assert |q| == |multiset(q)| == |multiset(r)| == |r|;
    if q != [] {
      assert q[0] in multiset(r) && r[0] in multiset(q);
      SortedHead(q);
      SortedHead(r);
      assert Of(q, q[0].priority) == Of(r, q[0].priority);
      assert q[0] == r[0];
      forall p
        ensures Of(q[1..], p) == Of(r[1..], p)
      {
        assert Of(q, p) == Of(r, p);
      }
      StableOrderIsUnique(q[1..], r[1..]);
    }
  }
}
