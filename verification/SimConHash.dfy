/**
 Client/SimConHash.h and the ring that Client/ClientCpp.cpp builds on it: nodes sit on a line of 32-bit keys,
 each owning the keys below its threshold that no earlier node owns.
 */
module SimConHash {
  import opened Bits

  const MAX_NODE_NUM: nat := 100

  /** What Query hands back: NULL, or a node and its position. */
  datatype Target<T> = NoNode | Node(id: nat, value: T)

  class Ring<T(0)> {
    const nodes: array<T>
    const condition: array<Word32>
    var nodeNum: nat

    ghost predicate Valid()
      reads this
    {
      && (nodes as object) != (condition as object)
      && nodes.Length == condition.Length == MAX_NODE_NUM && nodeNum <= MAX_NODE_NUM
    }

    /** GetArray, cut to the nodes there are. */
    function Nodes(): (s: seq<T>)
      requires Valid()
      reads this, nodes
      ensures |s| == nodeNum
    {
      nodes[..nodeNum]
    }

    ghost function Thresholds(): (s: seq<Word32>)
      requires Valid()
      reads this, condition
      ensures |s| == nodeNum
    {
      condition[..nodeNum]
    }

    constructor ()
      ensures Valid() && nodeNum == 0 && fresh(nodes) && fresh(condition)
    {
      nodes, condition, nodeNum := new T[MAX_NODE_NUM], new Word32[MAX_NODE_NUM](_ => 0), 0;
    }

    method InsertNode(keyBeg: Word32, t: T)
      requires Valid() && nodeNum < MAX_NODE_NUM
      modifies this, nodes, condition
      ensures Valid() && nodeNum == old(nodeNum) + 1
      ensures Nodes() == old(Nodes()) + [t] && Thresholds() == old(Thresholds()) + [keyBeg]
    {
      nodes[nodeNum] := t;
      condition[nodeNum] := keyBeg;
      nodeNum := nodeNum + 1;
    }

    /** The first node whose threshold lies above the key, or the last node when none does. */
    method Query(key: Word32) returns (r: Target<T>)
      requires Valid()
      ensures nodeNum == 0 ==> r == NoNode
      ensures nodeNum > 0 ==> r.Node? && Owner(Thresholds(), key, r.id) && r.value == Nodes()[r.id]
    {
      if nodeNum == 0 {
        return NoNode;
      }
      for cur := 0 to nodeNum
        invariant forall k :: 0 <= k < cur ==> key >= condition[k]
      {
        if key < condition[cur] {
          return Node(cur, nodes[cur]);
        }
      }
      return Node(nodeNum - 1, nodes[nodeNum - 1]);
    }
  }

  /** Node id owns the key. */
  predicate Owner(thresholds: seq<Word32>, key: Word32, id: nat) {
    && id < |thresholds|
    && (forall k :: 0 <= k < id ==> key >= thresholds[k])
    && (key < thresholds[id] || id == |thresholds| - 1)
  }

  /** The first node from k on that owns the key. */
  function OwnerFrom(thresholds: seq<Word32>, key: Word32, k: nat): (id: nat)
    requires k < |thresholds| && forall j :: 0 <= j < k ==> key >= thresholds[j]
    ensures Owner(thresholds, key, id)
    decreases |thresholds| - k
  {
    if key < thresholds[k] || k == |thresholds| - 1 then k else OwnerFrom(thresholds, key, k + 1)
  }

  function OwnerOf(thresholds: seq<Word32>, key: Word32): (id: nat)
    requires |thresholds| > 0
    ensures Owner(thresholds, key, id)
  {
    OwnerFrom(thresholds, key, 0)
  }

  /** Every key has one owner. */
  lemma OwnerUnique(thresholds: seq<Word32>, key: Word32, a: nat, b: nat)
    requires Owner(thresholds, key, a) && Owner(thresholds, key, b)
    ensures a == b
  {
  }

  /** uiInterval */
  function Interval(n: nat): Word32
    requires 1 <= n <= MAX_NODE_NUM
  {
    0xFFFF_FFFF / n - 5
  }

  lemma IntervalBounds(n: nat)
    requires 1 <= n <= MAX_NODE_NUM
    ensures Interval(n) >= 42_949_667
    ensures Interval(n) * n + 5 * n <= 0xFFFF_FFFF
  {
    var q := 0xFFFF_FFFF / n;
    assert q * n <= 0xFFFF_FFFF;
    if q < 42_949_672 {
      MulMono(q + 1, n, 100);
    }
  }

  /** uiInterval * (uiCur + 1) in 32-bit arithmetic. */
  function Threshold(n: nat, k: nat): Word32
    requires 1 <= n <= MAX_NODE_NUM
  {
    Interval(n) * (k + 1) % 0x1_0000_0000
  }

  /** No threshold wraps round. */
  lemma ThresholdExact(n: nat, k: nat)
    requires 1 <= n <= MAX_NODE_NUM && k < n
    ensures Threshold(n, k) == Interval(n) * (k + 1)
  {
    IntervalBounds(n);
    MulMono(Interval(n), k + 1, n);
    WordStays(Interval(n) * (k + 1));
  }

  lemma WordStays(x: nat)
    requires x <= 0xFFFF_FFFF
    ensures x % 0x1_0000_0000 == x
  {
  }

  lemma MulMono(a: nat, b: nat, c: nat)
    requires b <= c
    ensures a * b <= a * c
  {
    assert a * c - a * b == a * (c - b);
  }

  /** The ring that Init builds for n nodes. */
  ghost predicate IsEvenRing(thresholds: seq<Word32>, n: nat) {
    1 <= n <= MAX_NODE_NUM && |thresholds| == n && forall k :: 0 <= k < n ==> thresholds[k] == Threshold(n, k)
  }

  /** ClientCpp::Init: one evenly spaced threshold a node. */
  method BuildRing<T(0)>(servers: seq<T>) returns (ring: Ring<T>)
    requires 1 <= |servers| <= MAX_NODE_NUM
    ensures fresh(ring) && fresh(ring.nodes) && fresh(ring.condition) && ring.Valid()
    ensures ring.Nodes() == servers && IsEvenRing(ring.Thresholds(), |servers|)
  {
    ring := new Ring();
    var interval := Interval(|servers|);
    for cur := 0 to |servers|
      invariant ring.Valid() && ring.nodeNum == cur && fresh(ring) && fresh(ring.nodes) && fresh(ring.condition)
      invariant ring.Nodes() == servers[..cur]
      invariant forall k :: 0 <= k < cur ==> ring.Thresholds()[k] == Threshold(|servers|, k)
    {
      ring.InsertNode(interval * (cur + 1) % 0x1_0000_0000, servers[cur]);
    }
  }

  /** Thresholds at the positive multiples of w. */
  ghost predicate Multiples(thresholds: seq<Word32>, n: nat, w: nat) {
    |thresholds| == n && forall k :: 0 <= k < n ==> thresholds[k] == w * (k + 1)
  }

  lemma EvenRing(thresholds: seq<Word32>, n: nat)
    requires IsEvenRing(thresholds, n)
    ensures Interval(n) > 0 && Multiples(thresholds, n, Interval(n))
  {
    IntervalBounds(n);
    forall k | 0 <= k < n
      ensures thresholds[k] == Interval(n) * (k + 1)
    {
      ThresholdExact(n, k);
    }
  }

  /** The thresholds strictly increase. */
  lemma ThresholdsIncrease(thresholds: seq<Word32>, n: nat, i: nat, k: nat)
    requires IsEvenRing(thresholds, n) && i < k < n
    ensures thresholds[i] < thresholds[k]
  {
    EvenRing(thresholds, n);
    MultiplesIncrease(Interval(n), i + 1, k + 1);
  }

  lemma MultiplesIncrease(w: nat, i: nat, k: nat)
    requires w > 0 && i < k
    ensures w * i < w * k
  {
    assert w * k - w * i == w * (k - i);
  }

  lemma OwnerOfMultiples(thresholds: seq<Word32>, n: nat, w: nat, key: Word32, q: nat)
    requires n >= 1 && w > 0 && Multiples(thresholds, n, w) && w * q <= key < w * (q + 1)
    ensures Owner(thresholds, key, if q < n then q else n - 1)
  {
    forall k | 0 <= k < n && k < q
      ensures key >= thresholds[k]
    {
      MulMono(w, k + 1, q);
    }
  }

  lemma Quotient(a: nat, m: nat) returns (q: nat)
    requires m > 0
    ensures q == a / m && m * q <= a < m * (q + 1)
  {
    q := a / m;
  }

  /** Some key belongs to every node, so all keys stay below node m exactly when there are no more than m nodes. */
  lemma AllBelowIff(thresholds: seq<Word32>, n: nat, m: nat)
    requires IsEvenRing(thresholds, n) && m >= 1
    ensures (forall key: Word32 :: OwnerOf(thresholds, key) < m) <==> n <= m
  {
    if n > m {
      EvenRing(thresholds, n);
      IntervalBounds(n);
      MulMono(Interval(n), m, n);
      var key: Word32 := Interval(n) * m;
      OwnerOfMultiples(thresholds, n, Interval(n), key, m);
      OwnerUnique(thresholds, key, m, OwnerOf(thresholds, key));
    }
  }

  /** Node min(key / interval, n - 1) owns the key, for every 32-bit key. */
  lemma OwnerIsQuotient(thresholds: seq<Word32>, n: nat, key: Word32, id: nat)
    requires IsEvenRing(thresholds, n)
    ensures Interval(n) > 0
    ensures Owner(thresholds, key, id) <==> id == if key / Interval(n) < n then key / Interval(n) else n - 1
  {
    EvenRing(thresholds, n);
    var q := Quotient(key, Interval(n));
    OwnerOfMultiples(thresholds, n, Interval(n), key, q);
    if Owner(thresholds, key, id) {
      OwnerUnique(thresholds, key, id, if q < n then q else n - 1);
    }
  }

  /** Every node but the last owns the w keys from w times its number on; the last owns all from there. */
  ghost predicate OwnsItsShare(thresholds: seq<Word32>, n: nat, w: nat, key: Word32, id: nat) {
    Owner(thresholds, key, id) <==> id < n && w * id <= key && (id == n - 1 || key < w * (id + 1))
  }

  lemma WidthIs(n: nat)
    requires 1 <= n <= MAX_NODE_NUM
    ensures n * (Interval(n) + 5) <= 0xFFFF_FFFF < n * (Interval(n) + 6)
  {
    var q := Quotient(0xFFFF_FFFF, n);
    assert Interval(n) == q - 5;
  }

  lemma ShareIs(thresholds: seq<Word32>, n: nat, w: nat, key: Word32, id: nat)
    requires n >= 1 && w > 0 && Multiples(thresholds, n, w)
    ensures OwnsItsShare(thresholds, n, w, key, id)
  {
    var q := Quotient(key, w);
    OwnerOfMultiples(thresholds, n, w, key, q);
    if Owner(thresholds, key, id) {
      OwnerUnique(thresholds, key, id, if q < n then q else n - 1);
      MulMono(w, id, q);
    }
    if id < n && w * id <= key && (id == n - 1 || key < w * (id + 1)) {
      QuotientBounds(w, key, q, id);
    }
  }

  /** Where a key of node id's share lies by its quotient. */
  lemma QuotientBounds(w: nat, key: nat, q: nat, id: nat)
    requires w > 0 && w * q <= key < w * (q + 1) && w * id <= key
    ensures id <= q && (key < w * (id + 1) ==> q == id)
  {
    if id > q {
      MulMono(w, q + 1, id);
    }
    if q > id {
      MulMono(w, id + 1, q);
    }
  }

  /** The ring in numbers: there is one width w, fixed by n (w + 5) <= 2^32 - 1 < n (w + 6); each node but the last owns
      exactly w consecutive keys, and the last the w that follow and up to 6 n more. */
  lemma RingShares(thresholds: seq<Word32>, n: nat) returns (w: nat)
    requires IsEvenRing(thresholds, n)
    ensures n * (w + 5) <= 0xFFFF_FFFF < n * (w + 6)
    ensures forall key: Word32, id: nat :: OwnsItsShare(thresholds, n, w, key, id)
    ensures w <= 0x1_0000_0000 - w * (n - 1) <= w + 6 * n
  {
    w := Interval(n);
    WidthIs(n);
    EvenRing(thresholds, n);
    forall key: Word32, id: nat
      ensures OwnsItsShare(thresholds, n, w, key, id)
    {
      ShareIs(thresholds, n, w, key, id);
    }
  }
}
