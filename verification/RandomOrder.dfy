/**
 The random server order of SearchPlainText and RangeQueryPlainText in Client/ClientCpp.cpp: draw until the draw is
 new, server after server. The draws are a stream that brings up every server again and again.
 */
module RandomOrder {

  /** The results of rand(), one after the other. */
  type Draws = nat -> nat

  /** From any draw on, a later one gives server v. */
  ghost predicate Comes(draws: Draws, n: nat, k: nat, v: nat)
    requires n > 0
  {
    exists j: nat :: k <= j && draws(j) % n == v
  }

  ghost predicate Fair(draws: Draws, n: nat)
    requires n > 0
  {
    forall k: nat, v: nat :: v < n ==> Comes(draws, n, k, v)
  }

  predicate IsNew(order: seq<int>, v: int) {
    forall j :: 0 <= j < |order| ==> order[j] != v
  }

  /** Servers below n, none twice. */
  predicate Chosen(order: seq<int>, n: nat) {
    && (forall j :: 0 <= j < |order| ==> 0 <= order[j] < n)
    && (forall i, j :: 0 <= i < j < |order| ==> order[i] != order[j])
  }

  ghost function Range(n: nat): (r: set<int>)
    ensures forall v: int :: v in r <==> 0 <= v < n
  {
    if n == 0 then {} else Range(n - 1) + {n - 1}
  }

  ghost function Elements(order: seq<int>): set<int> {
    set v: int | v in order
  }

  lemma {:induction false} RangeSize(n: nat)
    ensures |Range(n)| == n
  {
    if n > 0 {
      RangeSize(n - 1);
    }
  }

  lemma {:induction false} ElementsSize(order: seq<int>, n: nat)
    requires Chosen(order, n)
    ensures |Elements(order)| == |order|
  {
    if order != [] {
      var rest, last := order[..|order| - 1], order[|order| - 1];
      ElementsSize(rest, n);
      assert Elements(order) == Elements(rest) + {last};
      assert last !in rest;
    }
  }

  lemma SubsetSize(a: set<int>, b: set<int>)
    requires a <= b
    ensures |a| <= |b| && (|a| == |b| ==> a == b)
  {
    assert b == a + (b - a);
  }

  /** While fewer than n servers are chosen, one is left. */
  lemma FreeServer(order: seq<int>, n: nat) returns (v: nat)
    requires Chosen(order, n) && |order| < n
    ensures v < n && IsNew(order, v)
  {
    ElementsSize(order, n);
    RangeSize(n);
    assert Elements(order) <= Range(n);
    if forall u: nat :: u < n ==> u in Elements(order) {
      assert Range(n) <= Elements(order);
      SubsetSize(Range(n), Elements(order));
    }
    v :| v < n && v !in Elements(order);
  }

  /** n chosen servers are all of them. */
  lemma AllChosen(order: seq<int>, n: nat)
    requires Chosen(order, n) && |order| == n
    ensures forall v: nat :: v < n ==> v in order
  {
    ElementsSize(order, n);
    RangeSize(n);
    assert Elements(order) <= Range(n);
    SubsetSize(Elements(order), Range(n));
    forall v: nat | v < n
      ensures v in order
    {
      assert v in Range(n);
    }
  }

  /** The check of one draw against the servers chosen so far: -1 for a repetition. */
  method CheckDraw(serverID: array<int>, i: nat, drawn: nat) returns (sid: int)
    requires i <= serverID.Length
    ensures sid == if IsNew(serverID[..i], drawn) then drawn else -1
  {
    sid := drawn;
    for j := 0 to i
      invariant IsNew(serverID[..j], drawn)
    {
      assert serverID[..j + 1] == serverID[..j] + [serverID[j]];
      if serverID[j] == drawn {
        assert serverID[..i][j] == drawn;
        return -1;
      }
    }
  }

  /** Draws until server i is a new one; k counts the draws. */
  method ChooseOne(draws: Draws, serverID: array<int>, i: nat, n: nat, k0: nat) returns (k: nat)
    requires i < n && i < serverID.Length && Fair(draws, n) && Chosen(serverID[..i], n) && serverID[i] < 0
    modifies serverID
    ensures Chosen(serverID[..i + 1], n) && serverID[..i] == old(serverID[..i]) &&
            serverID[i + 1..] == old(serverID[i + 1..])
  {
    k := k0;
    ghost var free := FreeServer(serverID[..i], n);
    assert Comes(draws, n, k, free);
    ghost var hit: nat :| k <= hit && draws(hit) % n == free;
    while serverID[i] < 0
      invariant serverID[..i] == old(serverID[..i]) && serverID[i + 1..] == old(serverID[i + 1..])
      invariant serverID[i] < 0 ==> k <= hit
      invariant serverID[i] >= 0 ==> serverID[i] < n && IsNew(serverID[..i], serverID[i])
      decreases if serverID[i] < 0 then hit - k + 1 else 0
    {
      var sid := CheckDraw(serverID, i, draws(k) % n);
      serverID[i] := sid;
      k := k + 1;
    }
    assert serverID[..i + 1] == serverID[..i] + [serverID[i]];
  }

  /** The first of the entries that the order has and the servers that it needs. */
  function Entries(n: nat): nat { if n < 16 then n else 16 }

  /** Up to 16 servers every one is asked exactly once, for every stream of draws that keeps bringing up each of them;
      without that the inner loop need not end. With more servers, which the ring takes, the 16 entries fill up with
      different ones and the loop goes on past their end: complete says which of the two happens. */
  method ServerOrder(draws: Draws, n: nat) returns (serverID: array<int>, complete: bool)
    requires n > 0 ==> Fair(draws, n)
    ensures serverID.Length == 16 && Chosen(serverID[..Entries(n)], n)
    ensures complete <==> n <= 16
    ensures complete <==> forall v: nat :: v < n ==> v in serverID[..Entries(n)]
  {
    serverID := new int[16](_ => -1);
    var k := 0;
    var i := 0;
    while i < n && i < serverID.Length
      invariant i <= Entries(n) && Chosen(serverID[..i], n)
      invariant forall j :: i <= j < 16 ==> serverID[j] == -1
    {
      ghost var rest := serverID[i + 1..];
      k := ChooseOne(draws, serverID, i, n, k);
      assert forall j :: i + 1 <= j < 16 ==> serverID[j] == rest[j - (i + 1)];
      i := i + 1;
    }
    complete := i == n;
    if complete {
      AllChosen(serverID[..i], n);
    } else {
      var v := FreeServer(serverID[..i], n);
      assert v !in serverID[..i];
    }
  }
}
