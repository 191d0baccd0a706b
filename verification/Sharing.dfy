/**
 How the puts of one client are shared out among its nodes, and what the answers of all nodes amount to together.
 A route may be any function from key names to nodes.
 */
module Sharing {
  import opened Memory
  import opened IndexSpec
  import opened IndexTheorems

  type Route = Bytes -> nat

  /** The puts that node i has seen. */
  function Share(route: Route, h: seq<Put>, i: nat): (g: seq<Put>)
    ensures |g| <= |h|
  {
    if h == [] then []
    else
      var rest, last := Share(route, h[..|h| - 1], i), h[|h| - 1];
      if route(KeyName(last)) == i then rest + [last] else rest
  }

  lemma ShareAfter(route: Route, h: seq<Put>, r: Put, i: nat)
    ensures Share(route, h + [r], i) == if route(KeyName(r)) == i then Share(route, h, i) + [r] else Share(route, h, i)
  {
    assert (h + [r])[..|h|] == h;
  }

  /** All puts under one key go to one node, which therefore holds the latest of all; the other nodes hold none. */
  lemma {:induction false} LatestOfShare(route: Route, h: seq<Put>, name: Bytes, i: nat)
    ensures Latest(Share(route, h, i), name) == if i == route(name) then Latest(h, name) else []
  {
    if h != [] {
      var n := |h| - 1;
      LatestOfShare(route, h[..n], name, i);
      LatestAfter(Share(route, h[..n], i), h[n], name);
    }
  }

  /** Every put is in the share of its own node. */
  lemma {:induction false} ShareHolds(route: Route, h: seq<Put>, k: nat)
    requires k < |h|
    ensures h[k] in Share(route, h, route(KeyName(h[k])))
  {
    if k < |h| - 1 {
      ShareHolds(route, h[..|h| - 1], k);
    }
  }

  lemma {:induction false} ShareOf(route: Route, h: seq<Put>, i: nat)
    ensures forall r :: r in Share(route, h, i) ==> r in h
  {
    if h != [] {
      ShareOf(route, h[..|h| - 1], i);
    }
  }

  // All nodes together --------------------------------------------------

  /** The answers 0 .. n-1, one behind the other. */
  function Gather(answers: nat -> seq<Bytes>, n: nat): seq<Bytes> {
    if n == 0 then [] else Gather(answers, n - 1) + answers(n - 1)
  }

  /** The same with every answer put in front. */
  function GatherFront(answers: nat -> seq<Bytes>, n: nat): seq<Bytes> {
    if n == 0 then [] else answers(n - 1) + GatherFront(answers, n - 1)
  }

  /** The answers from number a on. */
  function From(answers: nat -> seq<Bytes>, a: nat): nat -> seq<Bytes> {
    (i: nat) => answers(a + i)
  }

  lemma {:induction false} GatherTwo(answers: nat -> seq<Bytes>, a: nat, b: nat)
    ensures Gather(answers, a + b) == Gather(answers, a) + Gather(From(answers, a), b)
  {
    if b > 0 {
      var n := b - 1;
      GatherTwo(answers, a, n);
      JoinThree(Gather(answers, a), Gather(From(answers, a), n), answers(a + n));
    }
  }

  lemma {:induction false} GatherFrontTwo(answers: nat -> seq<Bytes>, a: nat, b: nat)
    ensures GatherFront(answers, a + b) == GatherFront(From(answers, a), b) + GatherFront(answers, a)
  {
    if b > 0 {
      var n := b - 1;
      GatherFrontTwo(answers, a, n);
      JoinThree(answers(a + n), GatherFront(From(answers, a), n), GatherFront(answers, a));
    }
  }

  /** The first answer alone, and the answers of some nodes before those of the others. */
  lemma GatherInOrder(answers: nat -> seq<Bytes>, a: nat, b: nat)
    ensures Gather(answers, 1) == answers(0) == GatherFront(answers, 1)
    ensures Gather(answers, a + b) == Gather(answers, a) + Gather(From(answers, a), b)
    ensures GatherFront(answers, a + b) == GatherFront(From(answers, a), b) + GatherFront(answers, a)
  {
    GatherTwo(answers, a, b);
    GatherFrontTwo(answers, a, b);
  }

  /** The stored data of every put of g that is wanted, in order. */
  function Picked(h: seq<Put>, g: seq<Put>, wanted: Put -> bool): seq<Bytes> {
    if g == [] then []
    else
      var rest, last := Picked(h, g[..|g| - 1], wanted), g[|g| - 1];
      if wanted(last) then rest + [Latest(h, KeyName(last))] else rest
  }

  lemma PickedAfter(h: seq<Put>, g: seq<Put>, r: Put, wanted: Put -> bool)
    ensures Picked(h, g + [r], wanted)
         == if wanted(r) then Picked(h, g, wanted) + [Latest(h, KeyName(r))] else Picked(h, g, wanted)
  {
    assert (g + [r])[..|g|] == g;
  }

  /** What node i picks, read against the whole history. */
  lemma {:induction false} PickedOfShare(route: Route, h: seq<Put>, i: nat, g: seq<Put>, wanted: Put -> bool)
    ensures Picked(Share(route, h, i), Share(route, g, i), wanted) == Picked(h, Share(route, g, i), wanted)
  {
    if g != [] {
      var n := |g| - 1;
      PickedOfShare(route, h, i, g[..n], wanted);
      PickedAfter(Share(route, h, i), Share(route, g[..n], i), g[n], wanted);
      PickedAfter(h, Share(route, g[..n], i), g[n], wanted);
      LatestOfShare(route, h, KeyName(g[n]), i);
    }
  }

  /** How often x is picked. */
  function PickCount(h: seq<Put>, g: seq<Put>, wanted: Put -> bool, x: Bytes): nat {
    multiset(Picked(h, g, wanted))[x]
  }

  /** The sum of f over 0 .. n-1. */
  function Sum(f: nat -> nat, n: nat): nat {
    if n == 0 then 0 else Sum(f, n - 1) + f(n - 1)
  }

  /** Raising one summand raises the sum by as much. */
  lemma {:induction false} SumAfter(f: nat -> nat, f': nat -> nat, k: nat, d: nat, n: nat)
    requires forall i: nat :: f'(i) == f(i) + if i == k then d else 0
    ensures Sum(f', n) == Sum(f, n) + if k < n then d else 0
  {
    if n > 0 {
      SumAfter(f, f', k, d, n - 1);
    }
  }

  lemma {:induction false} SumZero(f: nat -> nat, n: nat)
    requires forall i: nat :: f(i) == 0
    ensures Sum(f, n) == 0
  {
    if n > 0 {
      SumZero(f, n - 1);
    }
  }

  /** How often x is picked on each node. */
  function CountAt(route: Route, h: seq<Put>, g: seq<Put>, wanted: Put -> bool, x: Bytes): nat -> nat {
    (i: nat) => PickCount(h, Share(route, g, i), wanted, x)
  }

  /** What one put adds. */
  function One(h: seq<Put>, wanted: Put -> bool, r: Put, x: Bytes): nat {
    if wanted(r) && Latest(h, KeyName(r)) == x then 1 else 0
  }

  lemma PickCountAfter(h: seq<Put>, g: seq<Put>, r: Put, wanted: Put -> bool, x: Bytes)
    ensures PickCount(h, g + [r], wanted, x) == PickCount(h, g, wanted, x) + One(h, wanted, r, x)
  {
    PickedAfter(h, g, r, wanted);
  }

  lemma CountAtAfter(route: Route, h: seq<Put>, g: seq<Put>, r: Put, wanted: Put -> bool, x: Bytes, i: nat)
    ensures CountAt(route, h, g + [r], wanted, x)(i)
         == CountAt(route, h, g, wanted, x)(i) + if i == route(KeyName(r)) then One(h, wanted, r, x) else 0
  {
    ShareAfter(route, g, r, i);
    PickCountAfter(h, Share(route, g, i), r, wanted, x);
  }

  /** Shared out and put together again, the picks are those of the whole history. */
  lemma {:induction false} SharesAddUp(route: Route, h: seq<Put>, g: seq<Put>, wanted: Put -> bool, n: nat, x: Bytes)
    requires forall k :: 0 <= k < |g| ==> route(KeyName(g[k])) < n
    ensures Sum(CountAt(route, h, g, wanted, x), n) == PickCount(h, g, wanted, x)
  {
    if g == [] {
      SumZero(CountAt(route, h, g, wanted, x), n);
    } else {
      var rest, last := g[..|g| - 1], g[|g| - 1];
      SharesAddUp(route, h, rest, wanted, n, x);
      forall i: nat
        ensures CountAt(route, h, g, wanted, x)(i) == CountAt(route, h, rest, wanted, x)(i)
             + if i == route(KeyName(last)) then One(h, wanted, last, x) else 0
      {
        assert rest + [last] == g;
        CountAtAfter(route, h, rest, last, wanted, x, i);
      }
      SumAfter(CountAt(route, h, rest, wanted, x), CountAt(route, h, g, wanted, x), route(KeyName(last)),
               One(h, wanted, last, x), n);
      assert rest + [last] == g;
      PickCountAfter(h, rest, last, wanted, x);
    }
  }

  lemma CountOfTwo(a: seq<Bytes>, b: seq<Bytes>, x: Bytes)
    ensures multiset(a + b)[x] == multiset(a)[x] + multiset(b)[x]
  {
  }

  lemma {:induction false} GatherCount(answers: nat -> seq<Bytes>, f: nat -> nat, n: nat, x: Bytes)
    requires forall i: nat :: i < n ==> multiset(answers(i))[x] == f(i)
    ensures multiset(Gather(answers, n))[x] == Sum(f, n)
    ensures multiset(GatherFront(answers, n))[x] == Sum(f, n)
  {
    if n > 0 {
      GatherCount(answers, f, n - 1, x);
      CountOfTwo(Gather(answers, n - 1), answers(n - 1), x);
      CountOfTwo(answers(n - 1), GatherFront(answers, n - 1), x);
    }
  }

  lemma CountTogether(route: Route, h: seq<Put>, wanted: Put -> bool, answers: nat -> seq<Bytes>, n: nat, x: Bytes)
    requires forall k :: 0 <= k < |h| ==> route(KeyName(h[k])) < n
    requires forall i: nat :: i < n ==> answers(i) == Picked(Share(route, h, i), Share(route, h, i), wanted)
    ensures multiset(Gather(answers, n))[x] == PickCount(h, h, wanted, x) == multiset(GatherFront(answers, n))[x]
  {
    forall i: nat | i < n
      ensures multiset(answers(i))[x] == CountAt(route, h, h, wanted, x)(i)
    {
      PickedOfShare(route, h, i, h, wanted);
    }
    GatherCount(answers, CountAt(route, h, h, wanted, x), n, x);
    SharesAddUp(route, h, h, wanted, n, x);
  }

  /** Whatever every node picks of its own share: all nodes together pick it from the whole history, each put once, in
      whatever order the nodes are asked. */
  lemma NodesTogether(route: Route, h: seq<Put>, wanted: Put -> bool, answers: nat -> seq<Bytes>, n: nat)
    requires forall k :: 0 <= k < |h| ==> route(KeyName(h[k])) < n
    requires forall i: nat :: i < n ==> answers(i) == Picked(Share(route, h, i), Share(route, h, i), wanted)
    ensures multiset(Gather(answers, n)) == multiset(Picked(h, h, wanted))
    ensures multiset(GatherFront(answers, n)) == multiset(Picked(h, h, wanted))
  {
    forall x: Bytes
      ensures multiset(Gather(answers, n))[x] == PickCount(h, h, wanted, x) == multiset(GatherFront(answers, n))[x]
    {
      CountTogether(route, h, wanted, answers, n, x);
    }
  }

  // Queries -------------------------------------------------------------

  /** The answer of every node. */
  function NodeHits(route: Route, h: seq<Put>, q: Query): nat -> seq<Bytes> {
    (i: nat) => Hits(Share(route, h, i), Share(route, h, i), q)
  }

  function MatchesOf(q: Query): Put -> bool {
    (r: Put) => Matches(q, r)
  }

  lemma {:induction false} HitsArePicked(h: seq<Put>, g: seq<Put>, q: Query)
    ensures Hits(h, g, q) == Picked(h, g, MatchesOf(q))
  {
    if g != [] {
      HitsArePicked(h, g[..|g| - 1], q);
    }
  }

  /** Over all nodes a query answers exactly the stored data of the matching puts of the whole history, each once
      per matching put, in whatever order the nodes are asked. */
  lemma AllNodesRefineFilter(route: Route, h: seq<Put>, q: Query, n: nat)
    requires forall k :: 0 <= k < |h| ==> route(KeyName(h[k])) < n
    ensures multiset(Gather(NodeHits(route, h, q), n)) == multiset(Hits(h, h, q))
    ensures multiset(GatherFront(NodeHits(route, h, q), n)) == multiset(Hits(h, h, q))
    ensures DistinctKeys(h) ==> Hits(h, h, q) == Records(h, q)
  {
    forall i: nat | i < n
      ensures NodeHits(route, h, q)(i) == Picked(Share(route, h, i), Share(route, h, i), MatchesOf(q))
    {
      HitsArePicked(Share(route, h, i), Share(route, h, i), q);
    }
    NodesTogether(route, h, MatchesOf(q), NodeHits(route, h, q), n);
    HitsArePicked(h, h, q);
    if DistinctKeys(h) {
      assert h[..|h|] == h;
      HitsOfDistinct(h, |h|, q);
    }
  }

  // Columns -------------------------------------------------------------

  /** A column scan of one node: the data of the first limit puts of the column. */
  function ColumnOf(route: Route, h: seq<Put>, name: Bytes, limit: nat): nat -> seq<Bytes> {
    (i: nat) => ColumnHead(Share(route, h, i), name, limit)
  }

  function ColumnHead(h: seq<Put>, name: Bytes, limit: nat): seq<Bytes> {
    DataOf(h, Chain(Column, name, h)[..Min(limit, |Chain(Column, name, h)|)])
  }

  function InColumn(name: Bytes): Put -> bool {
    (r: Put) => Selected(Column, r) && Token(Column, r) == name
  }

  lemma {:induction false} ColumnIsPicked(h: seq<Put>, g: seq<Put>, name: Bytes)
    ensures DataOf(h, Chain(Column, name, g)) == Picked(h, g, InColumn(name))
  {
    if g != [] {
      ColumnIsPicked(h, g[..|g| - 1], name);
    }
  }

  /** The limit covers the whole column on node i. */
  predicate Covers(route: Route, h: seq<Put>, name: Bytes, limit: nat, i: nat) {
    |Chain(Column, name, Share(route, h, i))| <= limit
  }

  /** Node i holds at least limit entries of the column. */
  predicate Fills(route: Route, h: seq<Put>, name: Bytes, limit: nat, i: nat) {
    limit <= |Chain(Column, name, Share(route, h, i))|
  }

  lemma ProductAfter(limit: nat, n: nat)
    requires n > 0
    ensures limit * n == limit * (n - 1) + limit
  {
  }

  lemma {:induction false} GatherLength(answers: nat -> seq<Bytes>, limit: nat, n: nat)
    requires forall i: nat :: i < n ==> |answers(i)| <= limit
    ensures |GatherFront(answers, n)| <= limit * n
    ensures (forall i: nat :: i < n ==> |answers(i)| == limit) ==> |GatherFront(answers, n)| == limit * n
  {
    if n > 0 {
      var last := n - 1;
      GatherLength(answers, limit, last);
      assert |answers(last)| <= limit;
      ProductAfter(limit, n);
    }
  }

  /** All nodes together give at most limit entries each, and exactly so many when every node holds them. */
  lemma ColumnCount(route: Route, h: seq<Put>, name: Bytes, limit: nat, n: nat)
    ensures |GatherFront(ColumnOf(route, h, name, limit), n)| <= limit * n
    ensures (forall i: nat :: i < n ==> Fills(route, h, name, limit, i)) ==>
              |GatherFront(ColumnOf(route, h, name, limit), n)| == limit * n
  {
    var answers := ColumnOf(route, h, name, limit);
    forall i: nat | i < n
      ensures |answers(i)| <= limit && (Fills(route, h, name, limit, i) ==> |answers(i)| == limit)
    {
    }
    GatherLength(answers, limit, n);
  }

  /** When the limit covers the column on every node, all nodes together return the data of the whole column. */
  lemma AllNodesGiveColumn(route: Route, h: seq<Put>, name: Bytes, limit: nat, n: nat)
    requires forall k :: 0 <= k < |h| ==> route(KeyName(h[k])) < n
    requires forall i: nat :: i < n ==> Covers(route, h, name, limit, i)
    ensures multiset(GatherFront(ColumnOf(route, h, name, limit), n)) == multiset(DataOf(h, Chain(Column, name, h)))
  {
    forall i: nat | i < n
      ensures ColumnOf(route, h, name, limit)(i) == Picked(Share(route, h, i), Share(route, h, i), InColumn(name))
    {
      assert Covers(route, h, name, limit, i);
      var g := Share(route, h, i);
      assert Chain(Column, name, g)[..|Chain(Column, name, g)|] == Chain(Column, name, g);
      ColumnIsPicked(g, g, name);
    }
    NodesTogether(route, h, InColumn(name), ColumnOf(route, h, name, limit), n);
    ColumnIsPicked(h, h, name);
  }
}
