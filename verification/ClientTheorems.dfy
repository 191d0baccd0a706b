/**
 What a caller of the client can rely on: a value comes back from Get exactly when both routes meet, and a column
 comes back in put order.
 */
module ClientTheorems {
  import opened Bits
  import opened Memory
  import opened OreHelper
  import opened SimConHash
  import opened Prf
  import opened IndexSpec
  import opened IndexTheorems
  import opened Sharing
  import opened ClientSpec
  import opened Client
  import opened Proxy
  import opened OreSpec

  /** What Get reads for a name: the latest put of it on the node that Get asks. */
  function GetReads(keys: Keys, thresholds: seq<Word32>, h: seq<Put>, name: Bytes): Bytes
    requires |thresholds| > 0
  {
    Latest(Share(PutRoute(keys, thresholds), h, GetRoute(keys, thresholds)(name)), name)
  }

  /** Get finds the latest value of a key when the first word and the exclusive or of the trapdoor's words have the
      same owner, and nothing otherwise. */
  lemma GetFindsIff(keys: Keys, thresholds: seq<Word32>, h: seq<Put>, name: Bytes)
    requires |thresholds| > 0
    ensures GetReads(keys, thresholds, h, name)
         == if GetRoute(keys, thresholds)(name) == PutRoute(keys, thresholds)(name) then Latest(h, name) else []
  {
    LatestOfShare(PutRoute(keys, thresholds), h, name, GetRoute(keys, thresholds)(name));
  }

  /** Get right after Put gives back the value exactly when both routes meet. */
  lemma GetAfterPut(keys: Keys, thresholds: seq<Word32>, aes: Aes, h: seq<Put>, r: Put)
    requires |thresholds| > 0 && r.cipher != [] && Decrypts(aes, r)
    ensures GetReads(keys, thresholds, h + [r], KeyName(r)) != [] &&
            aes.dec(GetReads(keys, thresholds, h + [r], KeyName(r))) == r.val
      <==> GetRoute(keys, thresholds)(KeyName(r)) == PutRoute(keys, thresholds)(KeyName(r))
  {
    GetFindsIff(keys, thresholds, h + [r], KeyName(r));
    LatestAfter(h, r, KeyName(r));
  }

  /** What node i holds under the key of the last put. */
  lemma LastPutOnNode(route: Route, h: seq<Put>, r: Put, i: nat)
    ensures Latest(Share(route, h + [r], i), KeyName(r)) == if i == route(KeyName(r)) then r.cipher else []
  {
    LatestOfShare(route, h + [r], KeyName(r), i);
    LatestAfter(h, r, KeyName(r));
  }

  /** What Get makes of a history that ends with a put of the key. */
  method GetBack(client: ClientCpp, table: Bytes, key: Bytes, col: Bytes, ghost h: seq<Put>, ghost r: Put)
    returns (found: bool, got: Bytes)
    requires client.Linked() && client.Fits() && client.history == h + [r]
    requires r.table == table && r.key == key && r.col == col
    requires KeyName(r) in client.world.names && r.cipher != [] && Decrypts(client.aes, r)
    ensures found && got == r.val <==> client.Asked(KeyName(r)) == client.route(KeyName(r))
    ensures found ==> got == r.val
  {
    LastPutOnNode(client.route, h, r, client.Asked(KeyName(r)));
    found, got := client.Get(table, key, col);
  }

  /** Put and then Get on one client: the value comes back exactly when both routes meet, and otherwise nothing does. */
  method PutThenGet(client: ClientCpp, table: Bytes, key: Bytes, col: Bytes, val: Bytes, columnIndex: bool,
                    equalIndexV1: bool, equalIndexV2: bool, oreIndex: bool, iv: Bytes, nonce: Block)
    returns (found: bool, got: Bytes)
    requires client.Ready()
    requires |client.history| < 0xFFFF_FFFF
    requires client.MayPut(Request(table, key, col, val, columnIndex, equalIndexV1, equalIndexV2, oreIndex,
                                   client.aes.enc(iv, val), nonce))
    modifies client, client.nodes, client.tdValue, client.oreRight, client.helper.index.compRight
    ensures found && got == val <==> client.RoutesMeet(table + key + col)
    ensures found ==> got == val
  {
    ghost var h := client.history;
    ghost var r := client.Put(table, key, col, val, columnIndex, equalIndexV1, equalIndexV2, oreIndex, iv, nonce);
    found, got := GetBack(client, table, key, col, h, r);
    client.AsksOwner(table + key + col);
  }

  /** With one node they always meet. */
  lemma OneNodeMeets(keys: Keys, thresholds: seq<Word32>, name: Bytes)
    requires |thresholds| == 1
    ensures GetRoute(keys, thresholds)(name) == PutRoute(keys, thresholds)(name) == 0
  {
  }

  /** Get routes by the first four bytes of the trapdoor. */
  lemma GetKeyIs(td: Digest)
    ensures ToLE(GetKey(td), 4) == td[..4]
  {
    ToLERead(td, 0, 4);
    assert td[..4] == td[0..4];
  }

  /** Put routes by four bytes, each the exclusive or of every fourth byte of the trapdoor but those of 12 to 15. */
  lemma PutKeyIs(td: Digest, k: nat)
    requires k < 4
    ensures ToLE(PutKey(td), 4)[k]
         == XorByte(XorByte(XorByte(XorByte(XorByte(XorByte(td[k], td[4 + k]), td[8 + k]), td[16 + k]), td[20 + k]),
                            td[24 + k]), td[28 + k])
  {
    var a := WordAt(td, 0);
    var b := Xor32(a, WordAt(td, 4));
    var c := Xor32(b, WordAt(td, 8));
    var d := Xor32(c, WordAt(td, 16));
    var e := Xor32(d, WordAt(td, 20));
    var f := Xor32(e, WordAt(td, 24));
    ToLERead(td, 0, 4);
    XorWordByte(a, td, 4, k);
    XorWordByte(b, td, 8, k);
    XorWordByte(c, td, 16, k);
    XorWordByte(d, td, 20, k);
    XorWordByte(e, td, 24, k);
    XorWordByte(f, td, 28, k);
  }

  lemma XorWordByte(a: Word32, td: Digest, off: nat, k: nat)
    requires off + 4 <= 32 && k < 4
    ensures ToLE(Xor32(a, WordAt(td, off)), 4)[k] == XorByte(ToLE(a, 4)[k], td[off + k])
  {
    XorInMemory(a, WordAt(td, off), 4);
    ToLERead(td, off, 4);
  }

  /** The four bytes at k are zero. */
  predicate ZeroAt(td: Digest, k: nat)
    requires k + 4 <= 32
  {
    td[k] == td[k + 1] == td[k + 2] == td[k + 3] == 0
  }

  /** Trapdoors that two nodes route apart: of the words that count, only the top byte of the second is set. */
  lemma RoutesPart(thresholds: seq<Word32>, td: Digest)
    requires IsEvenRing(thresholds, 2)
    requires ZeroAt(td, 0) && td[4] == td[5] == td[6] == 0 && td[7] == 255 && ZeroAt(td, 8)
    requires ZeroAt(td, 16) && ZeroAt(td, 20) && ZeroAt(td, 24) && ZeroAt(td, 28)
    ensures OwnerOf(thresholds, GetKey(td)) == 0 && OwnerOf(thresholds, PutKey(td)) == 1
  {
    ZeroWord(td, 0);
    HighByte(td);
    ZeroWord(td, 8);
    ZeroWord(td, 16);
    ZeroWord(td, 20);
    ZeroWord(td, 24);
    ZeroWord(td, 28);
    assert PutKey(td) == 0xFF00_0000;
    ThresholdExact(2, 0);
    assert thresholds[0] == 2147483642;
  }

  /** Of the rings that the client builds, those of up to nine nodes have counters for every key, and no others. */
  lemma CountersCoverIff(thresholds: seq<Word32>, n: nat)
    requires IsEvenRing(thresholds, n)
    ensures (forall key: Word32 :: OwnerOf(thresholds, key) < DEMO_SERVER_NUM) <==> n <= 9
  {
    AllBelowIff(thresholds, n, DEMO_SERVER_NUM);
  }

  lemma ZeroWord(td: Digest, k: nat)
    requires k + 4 <= 32 && ZeroAt(td, k)
    ensures WordAt(td, k) == 0
  {
    FourBytesRead(td, k, 4, 0, 0, 0, 0);
  }

  lemma HighByte(td: Digest)
    requires td[4] == td[5] == td[6] == 0 && td[7] == 255
    ensures WordAt(td, 4) == 0xFF00_0000
  {
    FourBytesRead(td, 4, 4, 0, 0, 0, 255);
  }

  /** With distinct keys a node's part of GetCol is the values of the first puts of the column, in put order. */
  lemma ColumnValues(w: World, aes: Aes, store: Store, ts: Tables, h: seq<Put>, name: Bytes, limit: nat)
    requires NodeFits(w, aes, store, ts, h) && DistinctKeys(h)
    ensures Decrypted(aes, ColumnHead(h, name, limit))
              == Values(Chain(Column, name, h)[..Min(limit, |Chain(Column, name, h)|)])
  {
    var head := Chain(Column, name, h)[..Min(limit, |Chain(Column, name, h)|)];
    forall k | 0 <= k < |head|
      ensures aes.dec(Latest(h, KeyName(head[k]))) == head[k].val
    {
      var i := ChainPosition(Column, name, h, k);
      LatestOfDistinct(h, i);
      assert Decrypts(aes, h[i]);
    }
  }

  /** No put of h is bad. */
  ghost predicate Free(h: seq<Put>, bad: Put -> bool) {
    forall k: nat :: k < |h| ==> !bad(h[k])
  }

  function AmbiguousWith(table: Bytes, col: Bytes, val: Bytes): Put -> bool {
    (r: Put) => Ambiguous(r, table, col, val)
  }

  ghost predicate ShareFree(route: Route, h: seq<Put>, bad: Put -> bool, i: nat) {
    Free(Share(route, h, i), bad)
  }

  lemma SharesFree(route: Route, h: seq<Put>, bad: Put -> bool, n: nat)
    requires forall k :: 0 <= k < |h| ==> route(KeyName(h[k])) < n
    ensures (forall i: nat :: i < n ==> ShareFree(route, h, bad, i)) <==> Free(h, bad)
  {
    forall i: nat | i < n && Free(h, bad)
      ensures ShareFree(route, h, bad, i)
    {
      ShareOf(route, h, i);
      forall j: nat | j < |Share(route, h, i)|
        ensures !bad(Share(route, h, i)[j])
      {
        assert Share(route, h, i)[j] in h;
      }
    }
    forall k: nat | k < |h| && bad(h[k])
      ensures !ShareFree(route, h, bad, route(KeyName(h[k])))
    {
      ShareHolds(route, h, k);
    }
  }

  ghost predicate NoLonger(f: nat -> seq<Bytes>, g: nat -> seq<Bytes>, i: nat) {
    |f(i)| <= |g(i)| && (|f(i)| == |g(i)| ==> f(i) == g(i))
  }

  /** Answers none of which is longer: together they are no longer, and the same exactly when each is as long. */
  lemma {:induction false} GatherNoLonger(f: nat -> seq<Bytes>, g: nat -> seq<Bytes>, n: nat)
    requires forall i: nat :: i < n ==> NoLonger(f, g, i)
    ensures |Gather(f, n)| <= |Gather(g, n)|
    ensures |Gather(f, n)| == |Gather(g, n)| <==> forall i: nat :: i < n ==> |f(i)| == |g(i)|
    ensures |Gather(f, n)| == |Gather(g, n)| ==> Gather(f, n) == Gather(g, n)
  {
    if n > 0 {
      GatherNoLonger(f, g, n - 1);
      assert NoLonger(f, g, n - 1);
    }
  }

  /** One node. */
  lemma NodeAgrees(route: Route, h: seq<Put>, table: Bytes, col: Bytes, val: Bytes, i: nat)
    requires BothFlags(h)
    ensures var f, g := NodeHits(route, h, Value1(table, col, val)), NodeHits(route, h, Value2(table, col, val));
      NoLonger(f, g, i) && (|f(i)| == |g(i)| <==> ShareFree(route, h, AmbiguousWith(table, col, val), i))
  {
    var share := Share(route, h, i);
    ShareOf(route, h, i);
    forall k | 0 <= k < |share|
      ensures share[k].equalIndexV1 && share[k].equalIndexV2
    {
      assert share[k] in h;
    }
    FastFindsMore(share, share, table, col, val);
    FreeIs(share, table, col, val);
  }

  lemma FreeIs(h: seq<Put>, table: Bytes, col: Bytes, val: Bytes)
    ensures Free(h, AmbiguousWith(table, col, val)) <==> forall k :: 0 <= k < |h| ==> !Ambiguous(h[k], table, col, val)
  {
  }

  /** Searching all nodes by either index gives the same list exactly when no put of the whole history runs together
      with the query to the same name from another column. */
  lemma SearchesAgreeIff(route: Route, h: seq<Put>, table: Bytes, col: Bytes, val: Bytes, n: nat)
    requires BothFlags(h) && forall k :: 0 <= k < |h| ==> route(KeyName(h[k])) < n
    ensures Gather(NodeHits(route, h, Value1(table, col, val)), n)
              == Gather(NodeHits(route, h, Value2(table, col, val)), n)
      <==> forall k :: 0 <= k < |h| ==> !Ambiguous(h[k], table, col, val)
  {
    var f, g := NodeHits(route, h, Value1(table, col, val)), NodeHits(route, h, Value2(table, col, val));
    var bad := AmbiguousWith(table, col, val);
    forall i: nat | i < n
      ensures NoLonger(f, g, i) && (|f(i)| == |g(i)| <==> ShareFree(route, h, bad, i))
    {
      NodeAgrees(route, h, table, col, val, i);
    }
    GatherNoLonger(f, g, n);
    SharesFree(route, h, bad, n);
    FreeIs(h, table, col, val);
  }

  // A session -----------------------------------------------------------

  /** What a session assumes of the keys and of the one put it makes. */
  ghost predicate SessionOk(w: World, aes: Aes, r: Put) {
    && Sound(w) && AesOk(aes) && Sendable(w, aes, r) && r.equalIndexV1 && r.oreIndex
    && w.sk.params.blockLen <= 10 && |ValName(r)| <= DEF_MAX_TDVALUE_SIZE
  }

  /** A helper with its keys, and two empty nodes. */
  method Equip(prfKey: Block, prpKey: Block, blockSize: nat) returns (helper: OREHelper, servers: seq<ProxyNode>)
    requires 1 <= blockSize <= 16
    ensures fresh(helper) && fresh(helper.query) && fresh(helper.index)
    ensures fresh(helper.query.compLeft) && fresh(helper.index.compRight)
    ensures helper.Valid() && helper.key == OreKey(true, prfKey, prpKey, HelperParams(blockSize))
    ensures |servers| == 2 && forall i: nat, j: nat :: i < j < |servers| ==> servers[i] != servers[j]
    ensures forall i: nat :: i < |servers| ==> UsesParams(servers[i], helper.key.params) && servers[i].store == map[]
    ensures forall i: nat :: i < |servers| ==> fresh(servers[i])
  {
    helper := new OREHelper();
    helper.Init(prfKey, prpKey, blockSize);
    var first := new ProxyNode(blockSize);
    var second := new ProxyNode(blockSize);
    servers := [first, second];
  }

  /** The first and only put, by any query. */
  lemma OnlyHit(r: Put, q: Query, found: seq<Bytes>)
    requires multiset(found) == multiset(Hits([r], [r], q))
    ensures found == if Matches(q, r) then [r.cipher] else []
  {
    HitsAfter([r], [], r, q);
    LatestAfter([], r, KeyName(r));
    assert [] + [r] == [r];
    if Matches(q, r) {
      OneElement(found, r.cipher);
    } else {
      NoElement(found);
    }
  }

  lemma OneElement(s: seq<Bytes>, x: Bytes)
    requires multiset(s) == multiset{x}
    ensures s == [x]
  {
    assert |s| == |multiset(s)| == 1;
    assert s[0] in multiset(s);
  }

  lemma NoElement(s: seq<Bytes>)
    requires multiset(s) == multiset([])
    ensures s == []
  {
    assert |s| == |multiset(s)| == 0;
  }

  /** A put on a fresh client: everything that the next call requires still holds. */
  method PutFirst(client: ClientCpp, table: Bytes, key: Bytes, col: Bytes, val: Bytes, iv: Bytes, nonce: Block)
    returns (ghost r: Put)
    requires client.Ready()
    requires client.history == [] && |client.nodes| <= DEMO_SERVER_NUM
    requires SessionOk(client.world, client.aes,
                       Request(table, key, col, val, false, true, false, true, client.aes.enc(iv, val), nonce))
    modifies client, client.nodes, client.tdValue, client.oreRight, client.helper.index.compRight
    ensures client.Linked() && client.OrderReady() && client.Fits() && client.history == [r]
    ensures r == Request(table, key, col, val, false, true, false, true, client.aes.enc(iv, val),
                         nonce).(right := r.right)
  {
    client.RouteInRange(table + key + col);
    r := client.Put(table, key, col, val, false, true, false, true, iv, nonce);
    assert [] + [r] == [r];
  }

  /** The value put is found by value. */
  method SearchFirst(client: ClientCpp, table: Bytes, col: Bytes, val: Bytes, ghost r: Put) returns (found: seq<Bytes>)
    requires client.Linked() && client.Routed() && client.Fits() && client.history == [r]
    requires r.table == table && r.col == col && r.val == val
    requires SessionOk(client.world, client.aes, r) && client.tdValue.Length == DEF_MAX_TDVALUE_SIZE
    modifies client.tdValue
    ensures found == [r.cipher]
  {
    var _, all := client.Search(table, col, val, false);
    OnlyHit(r, Value1(table, col, val), all);
    found := all;
  }

  /** And by range exactly when it lies in the range. */
  method RangeFirst(client: ClientCpp, table: Bytes, col: Bytes, iCmp: int, bound: Word32, ghost r: Put)
    returns (found: seq<Bytes>)
    requires client.Linked() && client.Routed() && client.OrderReady() && client.Fits() && client.history == [r]
    requires r.table == table && r.col == col
    requires SessionOk(client.world, client.aes, r) && RowsApart(client.world, Range(table, col, iCmp, bound))
    modifies client.oreLeft, client.helper.query.compLeft
    ensures found == if InRange(Num(r.val), iCmp, bound) then [r.cipher] else []
  {
    var _, all := client.RangeQuery(table, col, iCmp, bound);
    OnlyHit(r, Range(table, col, iCmp, bound), all);
    found := all;
  }

  predicate InRange(v: nat, iCmp: int, bound: nat) {
    if iCmp > 0 then v < bound else v > bound
  }

  /** A client over empty nodes meets every invariant. */
  method Connect(keys: Keys, aes: Aes, o: Oracle, helper: OREHelper, servers: seq<ProxyNode>, ghost names: set<Bytes>)
    returns (client: ClientCpp)
    requires 1 <= |servers| <= MAX_NODE_NUM && helper.Valid() && AesOk(aes)
    requires forall i: nat, j: nat :: i < j < |servers| ==> servers[i] != servers[j]
    requires forall i: nat :: i < |servers| ==> UsesParams(servers[i], helper.key.params) && servers[i].store == map[]
    requires Sound(World(keys, names, o, helper.key))
    ensures client.world == World(keys, names, o, helper.key) && client.aes == aes && client.history == []
    ensures client.helper == helper && client.nodes == servers && IsEvenRing(client.thresholds, |servers|)
    ensures fresh(client) && fresh(client.tdValue) && fresh(client.oreLeft) && fresh(client.oreRight)
    ensures client.Ready()
  {
    client := new ClientCpp(keys, aes, o, helper, servers, names);
    client.StartsFitting();
  }

  /** One put, then a search for its value and a range query. */
  method UseOnce(client: ClientCpp, table: Bytes, key: Bytes, col: Bytes, val: Bytes, iv: Bytes, nonce: Block,
                 iCmp: int, bound: Word32) returns (byValue: seq<Bytes>, byRange: seq<Bytes>)
    requires client.Ready()
    requires client.history == [] && |client.nodes| <= DEMO_SERVER_NUM
    requires RowsApart(client.world, Range(table, col, iCmp, bound))
    requires SessionOk(client.world, client.aes,
                       Request(table, key, col, val, false, true, false, true, client.aes.enc(iv, val), nonce))
    modifies client, client.nodes, client.tdValue, client.oreRight, client.helper.index.compRight
    modifies client.oreLeft, client.helper.query.compLeft
    ensures byValue == [client.aes.enc(iv, val)]
    ensures byRange == if InRange(Num(val), iCmp, bound) then [client.aes.enc(iv, val)] else []
  {
    ghost var r := PutFirst(client, table, key, col, val, iv, nonce);
    byValue := SearchFirst(client, table, col, val, r);
    byRange := RangeFirst(client, table, col, iCmp, bound, r);
  }

  /** Two empty nodes and a client over them. */
  method Start(keys: Keys, aes: Aes, o: Oracle, prfKey: Block, prpKey: Block, blockSize: nat, ghost w: World)
    returns (client: ClientCpp)
    requires 1 <= blockSize <= 16 && AesOk(aes) && Sound(w)
    requires w == World(keys, w.names, o, OreKey(true, prfKey, prpKey, HelperParams(blockSize)))
    ensures client.world == w && client.aes == aes && client.history == []
    ensures client.Ready() && |client.nodes| == 2 && IsEvenRing(client.thresholds, 2)
    ensures fresh(client) && fresh(client.tdValue) && fresh(client.oreLeft) && fresh(client.oreRight)
    ensures fresh(client.helper.query.compLeft) && fresh(client.helper.index.compRight)
    ensures forall i: nat :: i < |client.nodes| ==> fresh(client.nodes[i])
  {
    var helper, servers := Equip(prfKey, prpKey, blockSize);
    ghost var left, right := helper.query.compLeft, helper.index.compRight;
    assert World(keys, w.names, o, helper.key) == w;
    client := Connect(keys, aes, o, helper, servers, w.names);
    assert client.helper.query.compLeft == left && client.helper.index.compRight == right;
  }

  /** From nothing: two empty nodes, a client over them, and one put of a value that starts with the four bytes of the
      number v. The search for the value finds it, and the range query exactly when v lies in the range. */
  method Session(keys: Keys, aes: Aes, o: Oracle, prfKey: Block, prpKey: Block, blockSize: nat, ghost w: World,
                 table: Bytes, key: Bytes, col: Bytes, v: Word32, rest: Bytes, iv: Bytes, nonce: Block,
                 iCmp: int, bound: Word32)
    returns (byValue: seq<Bytes>, byRange: seq<Bytes>)
    requires 1 <= blockSize <= 16
    requires w == World(keys, w.names, o, OreKey(true, prfKey, prpKey, HelperParams(blockSize)))
    requires var val := ToLE(v, 4) + rest;
      SessionOk(w, aes, Request(table, key, col, val, false, true, false, true, aes.enc(iv, val), nonce))
    requires RowsApart(w, Range(table, col, iCmp, bound))
    ensures byValue == [aes.enc(iv, ToLE(v, 4) + rest)]
    ensures byRange == if (if iCmp > 0 then v < bound else v > bound) then byValue else []
  {
    var client := Start(keys, aes, o, prfKey, prpKey, blockSize, w);
    NumOf(v, rest);
    byValue, byRange := UseOnce(client, table, key, col, ToLE(v, 4) + rest, iv, nonce, iCmp, bound);
  }
}
