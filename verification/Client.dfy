/**
 Client/ClientCpp.cpp: one writing client over its nodes. Put writes indexes and data to the node that owns the key;
 searches ask every node.
 */
module Client {
  import opened Bits
  import opened Memory
  import opened OreSpec
  import opened OreBlk
  import opened OreHelper
  import opened SimConHash
  import opened Prf
  import opened IndexSpec
  import opened Proxy
  import opened IndexTheorems
  import opened Sharing
  import opened ClientSpec
  import opened PutSteps

  const DEMO_SERVER_NUM: nat := 9
  const DEF_MAX_TDVALUE_SIZE: nat := 10240

  /** What the store's invariant needs of the next put. */
  lemma NextPutOk(w: World, h: seq<Put>, r: Put)
    requires Usable(w.sk.params) && RightMade(w.o, w.sk, h, r)
    requires KeyName(r) in w.names && ColName(r) in w.names && ValName(r) in w.names
    requires r.cipher != [] && (r.oreIndex ==> |r.val| >= 4)
    ensures PutOk(w, h + [r], |h|)
  {
    assert (h + [r])[..|h|] == h;
  }

  /** The meaning of a query on one node. */
  lemma NodeAnswers(w: World, aes: Aes, store: Store, ts: Tables, h: seq<Put>, q: Query, probe: Probe)
    requires Sound(w) && NodeFits(w, aes, store, ts, h)
    requires QueryNamed(w, q) && ProbeFor(w, q, probe) && RowsApart(w, q)
    ensures QueryPlan(w, q, probe, h).store == store && Ends(QueryPlan(w, q, probe, h))
    ensures ScanAnswer(QueryPlan(w, q, probe, h)) == Hits(h, h, q)
  {
    ScanRefinesFilter(w, q, probe, h);
  }

  const NO_COUNTERS := Tables(map[], map[], map[], map[])

  /** The counters of node i: the source has maps for the first nine nodes, and the others never take a counter. */
  function TablesAt(counters: seq<Tables>, i: nat): Tables {
    if i < |counters| then counters[i] else NO_COUNTERS
  }

  /** What is kept of a node's counters after a put. */
  function WithTables(counters: seq<Tables>, id: nat, ts: Tables): (r: seq<Tables>)
    requires id < |counters| || ts == NO_COUNTERS
    ensures |r| == |counters|
    ensures forall i: nat :: TablesAt(r, i) == if i == id then ts else TablesAt(counters, i)
  {
    if id < |counters| then counters[id := ts] else counters
  }

  /** A put that asks for no index takes no counter. */
  predicate Unindexed(r: Put) {
    !r.columnIndex && !r.equalIndexV1 && !r.equalIndexV2 && !r.oreIndex
  }

  function NoCounters(): (cs: seq<Tables>)
    ensures |cs| == DEMO_SERVER_NUM && forall i :: 0 <= i < |cs| ==> cs[i] == NO_COUNTERS
  {
    seq(DEMO_SERVER_NUM, _ => NO_COUNTERS)
  }

  /** Before the first put. */
  lemma NothingSeen(w: World, aes: Aes)
    ensures NodeFits(w, aes, map[], NO_COUNTERS, [])
  {
    assert Log(w.keys, []) == [];
    forall f: Family
      ensures CountsFor(w, Table(NO_COUNTERS, f), f, [])
    {
      assert forall t: Bytes :: CountIs(w, Table(NO_COUNTERS, f), f, [], t);
    }
  }

  /** uiNum / uiServerNum */
  function PerNode(n: Word32, servers: nat): Word32
    requires servers > 0
  {
    n / servers
  }

  lemma PerNodeIs(n: Word32, servers: nat)
    requires servers > 0
    ensures EvenShare(n, servers, PerNode(n, servers))
  {
    var q, r := n / servers, n % servers;
    assert n == servers * q + r;
  }

  /** share is the most that each of n can get of what is to be shared out. */
  predicate EvenShare(all: nat, n: nat, share: nat) {
    share * n <= all < share * n + n
  }

  function Decrypted(aes: Aes, items: seq<Bytes>): (r: seq<Bytes>)
    ensures |r| == |items|
    ensures forall k :: 0 <= k < |items| ==> r[k] == aes.dec(items[k])
  {
    seq(|items|, k requires 0 <= k < |items| => aes.dec(items[k]))
  }

  /** Node i and its counters agree with its share of the history. */
  ghost predicate FitsAt(w: World, aes: Aes, route: Route, h: seq<Put>, nodes: seq<ProxyNode>, counters: seq<Tables>,
                         i: nat)
    requires i < |nodes|
    reads nodes[i]
  {
    NodeFits(w, aes, nodes[i].store, TablesAt(counters, i), Share(route, h, i))
  }

  /** So do all nodes. */
  ghost predicate AllFit(w: World, aes: Aes, route: Route, h: seq<Put>, nodes: seq<ProxyNode>, counters: seq<Tables>)
    reads nodes
  {
    forall i: nat :: i < |nodes| ==> FitsAt(w, aes, route, h, nodes, counters, i)
  }

  // Whole columns -------------------------------------------------------

  /** The values of a list of puts. */
  function Values(g: seq<Put>): (r: seq<Bytes>)
    ensures |r| == |g| && forall k :: 0 <= k < |g| ==> r[k] == g[k].val
  {
    seq(|g|, k requires 0 <= k < |g| => g[k].val)
  }

  /** s without its element k. */
  function Without(s: seq<Bytes>, k: nat): (r: seq<Bytes>)
    requires k < |s|
    ensures |r| == |s| - 1
  {
    s[..k] + s[k + 1..]
  }

  lemma WithoutOne(s: seq<Bytes>, k: nat)
    requires k < |s|
    ensures multiset(s) == multiset(Without(s, k)) + multiset{s[k]}
    ensures multiset(Without(s, k)) == multiset(s) - multiset{s[k]}
  {
    assert s == s[..k] + [s[k]] + s[k + 1..];
  }

  lemma DecryptedWithout(aes: Aes, s: seq<Bytes>, k: nat)
    requires k < |s|
    ensures multiset(Decrypted(aes, s)) == multiset(Decrypted(aes, Without(s, k))) + multiset{aes.dec(s[k])}
  {
    WithoutOne(Decrypted(aes, s), k);
    assert Without(Decrypted(aes, s), k) == Decrypted(aes, Without(s, k));
  }

  /** Decryption keeps multisets. */
  lemma {:induction false} DecryptedTogether(aes: Aes, a: seq<Bytes>, b: seq<Bytes>)
    requires multiset(a) == multiset(b)
    ensures multiset(Decrypted(aes, a)) == multiset(Decrypted(aes, b))
    decreases |a|
  {
    assert |a| == |multiset(a)| == |multiset(b)| == |b|;
    if a != [] {
      assert a[0] in multiset(b);
      var k: nat :| k < |b| && b[k] == a[0];
      WithoutOne(a, 0);
      WithoutOne(b, k);
      DecryptedTogether(aes, Without(a, 0), Without(b, k));
      DecryptedWithout(aes, a, 0);
      DecryptedWithout(aes, b, k);
    }
  }

  /** The whole history decrypts when every node's share does. */
  lemma AllDecrypt(w: World, aes: Aes, route: Route, h: seq<Put>, nodes: seq<ProxyNode>, counters: seq<Tables>, k: nat)
    requires AllFit(w, aes, route, h, nodes, counters) && k < |h| && route(KeyName(h[k])) < |nodes|
    ensures Decrypts(aes, h[k])
  {
    var i := route(KeyName(h[k]));
    ShareHolds(route, h, k);
    assert FitsAt(w, aes, route, h, nodes, counters, i);
    var j :| 0 <= j < |Share(route, h, i)| && Share(route, h, i)[j] == h[k];
    assert Decrypts(aes, Share(route, h, i)[j]);
  }

  /** With distinct keys the decrypted data of a column is its values. */
  lemma ColumnDecrypts(aes: Aes, h: seq<Put>, name: Bytes)
    requires DistinctKeys(h) && forall k: nat :: k < |h| ==> Decrypts(aes, h[k])
    ensures Decrypted(aes, DataOf(h, Chain(Column, name, h))) == Values(Chain(Column, name, h))
  {
    var chain := Chain(Column, name, h);
    forall c | 0 <= c < |chain|
      ensures aes.dec(Latest(h, KeyName(chain[c]))) == chain[c].val
    {
      var i := ChainPosition(Column, name, h, c);
      LatestOfDistinct(h, i);
      assert Decrypts(aes, h[i]);
    }
  }

  ghost predicate CoversAll(route: Route, h: seq<Put>, name: Bytes, limit: nat, n: nat) {
    forall i: nat :: i < n ==> Covers(route, h, name, limit, i)
  }

  /** When the limit covers the column on every node, the nodes together give all of it. */
  lemma WholeColumn(w: World, aes: Aes, route: Route, h: seq<Put>, nodes: seq<ProxyNode>, counters: seq<Tables>,
                    name: Bytes, limit: nat)
    requires AllFit(w, aes, route, h, nodes, counters) && CoversAll(route, h, name, limit, |nodes|)
    requires forall k :: 0 <= k < |h| ==> route(KeyName(h[k])) < |nodes|
    ensures multiset(Decrypted(aes, GatherFront(ColumnOf(route, h, name, limit), |nodes|)))
         == multiset(Decrypted(aes, DataOf(h, Chain(Column, name, h))))
    ensures DistinctKeys(h) ==> Decrypted(aes, DataOf(h, Chain(Column, name, h))) == Values(Chain(Column, name, h))
  {
    AllNodesGiveColumn(route, h, name, limit, |nodes|);
    DecryptedTogether(aes, GatherFront(ColumnOf(route, h, name, limit), |nodes|),
                      DataOf(h, Chain(Column, name, h)));
    if DistinctKeys(h) {
      forall k: nat | k < |h|
        ensures Decrypts(aes, h[k])
      {
        AllDecrypt(w, aes, route, h, nodes, counters, k);
      }
      ColumnDecrypts(aes, h, name);
    }
  }

  // Searching -----------------------------------------------------------

  /** Plan i is the scan of server i, and gives the answer wanted of it. */
  ghost predicate PlanFor(hmac: Hmac, servers: seq<ProxyNode>, trapdoor: Digest, probe: Probe,
                          plans: seq<Plan>, answers: nat -> seq<Bytes>, i: nat)
    requires i < |servers| == |plans|
    reads servers[i]
  {
    && plans[i] == ScanPlan(hmac, servers[i].store, trapdoor, probe, plans[i].n)
    && ScanAnswer(plans[i]) == answers(i)
  }

  ghost predicate PlansFor(hmac: Hmac, servers: seq<ProxyNode>, trapdoor: Digest, probe: Probe,
                           plans: seq<Plan>, answers: nat -> seq<Bytes>)
    reads servers
  {
    |plans| == |servers| && forall i: nat :: i < |servers| ==>
        PlanFor(hmac, servers, trapdoor, probe, plans, answers, i)
  }

  /** Nodes that agree with a history have such plans for every query. */
  lemma QueryPlans(w: World, aes: Aes, route: Route, h: seq<Put>, nodes: seq<ProxyNode>, counters: seq<Tables>,
                   q: Query, probe: Probe) returns (plans: seq<Plan>)
    requires Sound(w) && AllFit(w, aes, route, h, nodes, counters)
    requires QueryNamed(w, q) && ProbeFor(w, q, probe) && RowsApart(w, q)
    ensures PlansFor(w.keys.hmac, nodes, Trapdoor(w, q), probe, plans, NodeHits(route, h, q))
  {
    forall i: nat | i < |nodes|
      ensures var plan := QueryPlan(w, q, probe, Share(route, h, i));
        Ends(plan) && plan.store == nodes[i].store && ScanAnswer(plan) == NodeHits(route, h, q)(i)
    {
      assert FitsAt(w, aes, route, h, nodes, counters, i);
      NodeAnswers(w, aes, nodes[i].store, TablesAt(counters, i), Share(route, h, i), q, probe);
    }
    plans := seq(|nodes|, i requires 0 <= i < |nodes| => QueryPlan(w, q, probe, Share(route, h, i)));
  }

  /** The loop of Search over the nodes. */
  method SearchAll(hmac: Hmac, servers: seq<ProxyNode>, indexTrapdoor: Digest, indexMask: Digest,
                   ghost plans: seq<Plan>, ghost answers: nat -> seq<Bytes>) returns (all: seq<Bytes>)
    requires PlansFor(hmac, servers, indexTrapdoor, Equal(indexMask), plans, answers)
    ensures all == Gather(answers, |servers|)
  {
    all := [];
    for cur := 0 to |servers|
      invariant all == Gather(answers, cur)
    {
      assert PlanFor(hmac, servers, indexTrapdoor, Equal(indexMask), plans, answers, cur);
      var ret, _ := servers[cur].EqualSearch(hmac, indexTrapdoor, indexMask, plans[cur]);
      all := all + ret;
    }
  }

  /** The node compares with these parameters. */
  ghost predicate UsesParams(node: ProxyNode, p: Params)
    reads node`blockSize
  {
    1 <= node.blockSize <= 16 && HelperParams(node.blockSize) == p
  }

  lemma FrontStep(answers: nat -> seq<Bytes>, n: nat, all: seq<Bytes>, ret: seq<Bytes>)
    requires all == GatherFront(answers, n) && ret == answers(n)
    ensures ret + all == GatherFront(answers, n + 1)
  {
  }

  /** The loop of RangeQuery over the nodes. */
  method RangeAll(o: Oracle, hmac: Hmac, servers: seq<ProxyNode>, indexTrapdoor: Digest, orderLeft: Bytes,
                  ghost p: Good, ghost plans: seq<Plan>, ghost answers: nat -> seq<Bytes>) returns (all: seq<Bytes>)
    requires forall i: nat :: i < |servers| ==> UsesParams(servers[i], p)
    requires PlansFor(hmac, servers, indexTrapdoor, Ordered(o, p, orderLeft), plans, answers)
    ensures all == GatherFront(answers, |servers|)
  {
    all := [];
    for cur := 0 to |servers|
      invariant all == GatherFront(answers, cur)
    {
      assert PlanFor(hmac, servers, indexTrapdoor, Ordered(o, p, orderLeft), plans, answers, cur);
      var ret, _ := servers[cur].OrderSearch(o, hmac, indexTrapdoor, orderLeft, p, plans[cur]);
      FrontStep(answers, cur, all, ret);
      all := ret + all;
    }
  }

  /** Server i holds whole column entries, and its column scan gives the answer wanted of it. */
  ghost predicate ColumnReady(hmac: Hmac, servers: seq<ProxyNode>, trapdoor: Digest, mask: Digest, limit: Word32,
                              answers: nat -> seq<Bytes>, i: nat)
    requires i < |servers|
    reads servers[i]
  {
    && ColumnEntriesWhole(hmac, servers[i].store, trapdoor)
    && ColumnScan(hmac, servers[i].store, trapdoor, mask, limit, 0) == answers(i)
  }

  lemma ColumnAnswers(w: World, aes: Aes, route: Route, h: seq<Put>, nodes: seq<ProxyNode>, counters: seq<Tables>,
                      name: Bytes, limit: Word32)
    requires Sound(w) && AllFit(w, aes, route, h, nodes, counters) && name in w.names
    ensures forall i: nat :: i < |nodes| ==>
      ColumnReady(w.keys.hmac, nodes, Master(w.keys, 3, name), Master(w.keys, 4, name), limit,
                  ColumnOf(route, h, name, limit), i)
  {
    forall i: nat | i < |nodes|
      ensures ColumnReady(w.keys.hmac, nodes, Master(w.keys, 3, name), Master(w.keys, 4, name), limit,
                          ColumnOf(route, h, name, limit), i)
    {
      assert FitsAt(w, aes, route, h, nodes, counters, i);
      ColumnScanIsPrefix(w, Share(route, h, i), name, limit);
    }
  }

  /** The loop of GetCol over the nodes. */
  method ColumnAll(hmac: Hmac, servers: seq<ProxyNode>, indexTrapdoor: Digest, indexMask: Digest, limit: Word32,
                   ghost answers: nat -> seq<Bytes>) returns (all: seq<Bytes>)
    requires forall i: nat :: i < |servers| ==> ColumnReady(hmac, servers, indexTrapdoor, indexMask, limit, answers, i)
    ensures all == GatherFront(answers, |servers|)
  {
    all := [];
    for cur := 0 to |servers|
      invariant all == GatherFront(answers, cur)
    {
      assert ColumnReady(hmac, servers, indexTrapdoor, indexMask, limit, answers, cur);
      var ret := servers[cur].ProxyGetColumn(hmac, indexTrapdoor, indexMask, limit);
      FrontStep(answers, cur, all, ret);
      all := ret + all;
    }
  }

  /** Asks every server for the first limit entries of a column and decrypts them. */
  method AskForColumn(keys: Keys, aes: Aes, servers: seq<ProxyNode>, name: Bytes, limit: Word32,
                      ghost w: World, ghost route: Route, ghost h: seq<Put>, ghost counters: seq<Tables>)
    returns (values: seq<Bytes>)
    requires w.keys == keys && Sound(w) && AllFit(w, aes, route, h, servers, counters) && name in w.names
    ensures values == Decrypted(aes, GatherFront(ColumnOf(route, h, name, limit), |servers|))
  {
    ghost var answers := ColumnOf(route, h, name, limit);
    ColumnAnswers(w, aes, route, h, servers, counters, name, limit);
    var all := ColumnAll(keys.hmac, servers, Master(keys, 3, name), Master(keys, 4, name), limit, answers);
    values := Decrypted(aes, all);
  }

  function EqualQuery(table: Bytes, col: Bytes, val: Bytes, indexV2: bool): Query {
    if indexV2 then Value2(table, col, val) else Value1(table, col, val)
  }

  /** Builds the trapdoor and the check value of an equality search and asks every server. */
  method AskEqual(keys: Keys, servers: seq<ProxyNode>, table: Bytes, col: Bytes, val: Bytes, indexV2: bool,
                  buf: array<Byte>, ghost w: World, ghost aes: Aes, ghost route: Route, ghost h: seq<Put>,
                  ghost counters: seq<Tables>) returns (all: seq<Bytes>)
    requires w.keys == keys && Sound(w) && AllFit(w, aes, route, h, servers, counters)
    requires table + col in w.names && table + col + val in w.names && |table| + |col| + |val| <= buf.Length
    modifies buf
    ensures all == Gather(NodeHits(route, h, EqualQuery(table, col, val, indexV2)), |servers|)
  {
    var name := NameWithValue(buf, table + col, val);
    var indexTrapdoor, indexMask;
    if !indexV2 {
      indexTrapdoor, indexMask := Master(keys, 6, table + col), Master(keys, 7, name);
    } else {
      indexTrapdoor, indexMask := Master(keys, 8, name), Master(keys, 9, name);
    }
    ghost var q := EqualQuery(table, col, val, indexV2);
    ghost var plans := QueryPlans(w, aes, route, h, servers, counters, q, Equal(indexMask));
    all := SearchAll(keys.hmac, servers, indexTrapdoor, indexMask, plans, NodeHits(route, h, q));
  }

  /** The left part of a range query, in the client's buffer. */
  method MakeLeft(o: Oracle, helper: OREHelper, buf: array<Byte>, table: Bytes, col: Bytes, iCmp: int, uiVal: Word32)
    returns (left: Bytes)
    requires helper.Valid() && helper.params.blockLen % 2 == 0 && Usable(helper.params)
    requires buf != helper.query.compLeft && buf.Length == DEF_ORELEFT_MAXSIZE
    modifies buf, helper.query.compLeft
    ensures |left| == LeftLen(helper.params) && IsQuery(o, helper.key, ColumnName(table, col), uiVal, Aim(iCmp), left)
  {
    ClientBuffersFit(helper.params.blockLen);
    ghost var mine: object, sk, p := helper, helper.key, helper.params;
    assert mine != buf && mine != helper.query.compLeft;
    var len := helper.CreateLeft(o, buf, buf.Length, iCmp, table, col, uiVal);
    assert helper.key == sk && helper.params == p;
    left := buf[..len];
  }

  /** Asks every server for a range. */
  method AskRange(keys: Keys, o: Oracle, servers: seq<ProxyNode>, table: Bytes, col: Bytes, iCmp: int, uiVal: Word32,
                  helper: OREHelper, buf: array<Byte>,
                  ghost w: World, ghost aes: Aes, ghost route: Route, ghost h: seq<Put>, ghost counters: seq<Tables>)
    returns (all: seq<Bytes>)
    requires w.keys == keys && w.o == o && Sound(w) && AllFit(w, aes, route, h, servers, counters)
    requires forall i: nat :: i < |servers| ==> UsesParams(servers[i], w.sk.params)
    requires table + col in w.names && RowsApart(w, Range(table, col, iCmp, uiVal))
    requires helper.Valid() && helper.key == w.sk && buf != helper.query.compLeft && buf.Length == DEF_ORELEFT_MAXSIZE
    modifies buf, helper.query.compLeft
    ensures all == GatherFront(NodeHits(route, h, Range(table, col, iCmp, uiVal)), |servers|)
  {
    ghost var q := Range(table, col, iCmp, uiVal);
    ghost var fits := AllFit(w, aes, route, h, servers, counters);
    var left := MakeLeft(o, helper, buf, table, col, iCmp, uiVal);
    assert AllFit(w, aes, route, h, servers, counters) == fits;
    ghost var probe := Ordered(o, w.sk.params, left);
    ghost var plans := QueryPlans(w, aes, route, h, servers, counters, q, probe);
    all := RangeAll(o, keys.hmac, servers, Master(keys, 10, table + col), left, w.sk.params, plans,
                    NodeHits(route, h, q));
  }

  /** A put before its right part is made. */
  function Request(table: Bytes, key: Bytes, col: Bytes, val: Bytes, columnIndex: bool, equalIndexV1: bool,
                   equalIndexV2: bool, oreIndex: bool, cipher: Bytes, nonce: Block): Put
  {
    Put(table, key, col, val, columnIndex, equalIndexV1, equalIndexV2, oreIndex, cipher, nonce, [])
  }

  // Putting -------------------------------------------------------------

  /** The put that is sent: what the caller gave, and its ciphertext. */
  ghost predicate Sendable(w: World, aes: Aes, r: Put) {
    && KeyName(r) in w.names && ColName(r) in w.names && ValName(r) in w.names
    && r.cipher != [] && Decrypts(aes, r) && (r.oreIndex ==> |r.val| >= 4)
  }

  lemma CountersReady(w: World, aes: Aes, store: Store, ts: Tables, h: seq<Put>, r: Put)
    requires NodeFits(w, aes, store, ts, h) && Sendable(w, aes, r)
    ensures forall f: Family :: CounterReady(w.keys, ts, f, r, h)
  {
    forall f: Family
      ensures CounterReady(w.keys, ts, f, r, h)
    {
      assert CountIs(w, Table(ts, f), f, h, Token(f, r));
    }
  }

  /** What a put on its own node makes of that node. */
  lemma NodeAfterPut(w: World, aes: Aes, store: Store, ts: Tables, h: seq<Put>, r: Put)
    requires Sound(w) && NodeFits(w, aes, store, ts, h) && Sendable(w, aes, r) && RightMade(w.o, w.sk, h, r) &&
             |h| < 0xFFFF_FFFF
    ensures NodeFits(w, aes, Apply(w.keys, store, WritesOf(w.keys, h, r, Steps(r))), TablesAfter(w.keys, ts, r),
                     h + [r])
  {
    NextPutOk(w, h, r);
    FitsAfter(w, aes, store, ts, h, r);
  }

  /** A put writes to the node of its key and to no other. */
  method PutShared(keys: Keys, o: Oracle, helper: OREHelper, ghost servers: seq<ProxyNode>, id: nat, node: ProxyNode,
                   counters: seq<Tables>, r0: Put, trapdoor: Digest, tdValue: array<Byte>, oreRight: array<Byte>,
                   ghost w: World, ghost aes: Aes, ghost route: Route, ghost h: seq<Put>)
    returns (counters': seq<Tables>, ghost r: Put)
    requires w.keys == keys && w.o == o && w.sk == helper.key && Sound(w) && helper.Valid()
    requires AllFit(w, aes, route, h, servers, counters) && |h| < 0xFFFF_FFFF
    requires forall i: nat, j: nat :: i < j < |servers| ==> servers[i] != servers[j]
    requires id == route(KeyName(r0)) < |servers| && node == servers[id] && trapdoor == DataLabel(keys, r0)
    requires Sendable(w, aes, r0) && (id < |counters| || Unindexed(r0))
    requires r0.equalIndexV1 || r0.equalIndexV2 ==> |ValName(r0)| <= tdValue.Length
    requires r0.oreIndex ==> helper.params.blockLen <= 10
    requires oreRight != helper.index.compRight && oreRight.Length == 32 + DEF_ORERIGHT_MAXSIZE
    requires tdValue != oreRight && tdValue != helper.index.compRight
    modifies node`store, tdValue, oreRight, helper.index.compRight
    ensures r == r0.(right := r.right)
    ensures |counters'| == |counters| && AllFit(w, aes, route, h + [r], servers, counters')
  {
    ghost var mine, before := Share(route, h, id), node.store;
    assert FitsAt(w, aes, route, h, servers, counters, id);
    ghost var ts0 := TablesAt(counters, id);
    CountersReady(w, aes, before, ts0, mine, r0);
    ClientBuffersFit(helper.params.blockLen);
    var ts;
    ts, r := PutOnNode(keys, o, helper, node, TablesAt(counters, id), r0, trapdoor, tdValue, oreRight, mine);
    NodeAfterPut(w, aes, before, ts0, mine, r);
    counters' := WithTables(counters, id, ts);
    ghost var h' := h + [r];
    forall i: nat | i < |servers|
      ensures FitsAt(w, aes, route, h', servers, counters', i)
    {
      ShareAfter(route, h, r, i);
      if i != id {
        assert servers[i].store == old(servers[i].store);
        assert old(FitsAt(w, aes, route, h, servers, counters, i));
      }
    }
  }

  // The client ----------------------------------------------------------

  class ClientCpp {
    const keys: Keys
    const aes: Aes
    const o: Oracle
    const ring: Ring<ProxyNode?>
    const helper: OREHelper
    const tdValue: array<Byte>
    const oreLeft: array<Byte>
    const oreRight: array<Byte>

    /** The four counter maps of every node. */
    var counters: seq<Tables>

    ghost const world: World
    ghost const nodes: seq<ProxyNode>
    ghost const thresholds: seq<Word32>

    /** Where Put sends a key name. */
    ghost const route: Route

    /** Every put so far, in order. */
    ghost var history: seq<Put>

    /** The nodes behind the ring; no operation touches what this reads. */
    ghost predicate Linked()
      reads ring, ring.nodes, ring.condition
    {
      && 1 <= |nodes| <= MAX_NODE_NUM
      && ring.Valid() && ring.nodeNum == |nodes| && ring.Nodes() == nodes && ring.Thresholds() == thresholds
      && Sound(world) && world.keys == keys
    }

    /** The order-revealing side; no operation touches what this reads either. */
    ghost predicate OrderReady()
      reads helper, helper.query, helper.index, nodes`blockSize
    {
      && world.o == o && helper.Valid() && helper.key == world.sk
      && (forall i: nat :: i < |nodes| ==> UsesParams(nodes[i], world.sk.params))
      && oreLeft.Length == DEF_ORELEFT_MAXSIZE && oreLeft != helper.query.compLeft
    }

    /** What a put needs on top. */
    ghost predicate PutReady()
      reads helper, helper.index
    {
      && (forall i: nat, j: nat :: i < j < |nodes| ==> nodes[i] != nodes[j])
      && (forall i: nat :: i < |nodes| ==> (nodes[i] as object) != this)
      && AesOk(aes)
      && tdValue.Length == DEF_MAX_TDVALUE_SIZE && oreRight.Length == 32 + DEF_ORERIGHT_MAXSIZE
      && oreRight != helper.index.compRight && tdValue != oreRight && tdValue != helper.index.compRight
    }

    ghost predicate RoutedAs(name: Bytes) {
      |thresholds| > 0 && route(name) == PutRoute(keys, thresholds)(name)
    }

    /** The node that Get asks for a name. */
    ghost function Asked(name: Bytes): nat {
      if |thresholds| > 0 then GetRoute(keys, thresholds)(name) else 0
    }

    /** Get asks the node that Put wrote to: the first word of the trapdoor and the exclusive or of its words, but for
        the one at byte 12, have the same owner. */
    ghost predicate RoutesMeet(name: Bytes) {
      |thresholds| > 0 && GetRoute(keys, thresholds)(name) == PutRoute(keys, thresholds)(name)
    }

    lemma AsksOwner(name: Bytes)
      requires Routed()
      ensures RoutesMeet(name) <==> Asked(name) == route(name)
    {
      assert RoutedAs(name);
    }

    /** What the operations write is none of what Linked and OrderReady read. */
    ghost predicate Separate()
      reads ring, helper, helper.query, helper.index
    {
      var written: set<object> := {this, tdValue, oreLeft, oreRight, helper.query.compLeft, helper.index.compRight};
      {ring, ring.nodes, ring.condition, helper, helper.query, helper.index} !! written
    }

    /** Puts go where the ring sends the exclusive or of the trapdoor's words. */
    ghost predicate Routed() {
      forall name: Bytes :: RoutedAs(name)
    }

    /** Every node and its counters agree with its share of the history. */
    ghost predicate Fits()
      reads `history, `counters, nodes
    {
      |counters| == DEMO_SERVER_NUM && AllFit(world, aes, route, history, nodes, counters)
    }

    /** All of it: the state from which every operation may go on. */
    ghost predicate Ready()
      reads `history, `counters, nodes, ring, ring.nodes, ring.condition, helper, helper.query, helper.index
    {
      Linked() && Routed() && OrderReady() && PutReady() && Fits() && Separate()
    }

    constructor (keys: Keys, aes: Aes, o: Oracle, helper: OREHelper, servers: seq<ProxyNode>, ghost names: set<Bytes>)
      requires 1 <= |servers| <= MAX_NODE_NUM && helper.Valid() && AesOk(aes)
      requires forall i: nat, j: nat :: i < j < |servers| ==> servers[i] != servers[j]
      requires forall i: nat :: i < |servers| ==> UsesParams(servers[i], helper.key.params)
      requires Sound(World(keys, names, o, helper.key))
      ensures this.keys == keys && this.aes == aes && this.o == o && this.helper == helper
      ensures nodes == servers && world == World(keys, names, o, helper.key)
      ensures IsEvenRing(thresholds, |nodes|) && Routed()
      ensures fresh(tdValue) && fresh(oreLeft) && fresh(oreRight)
      ensures fresh(this) && fresh(ring) && fresh(ring.nodes) && fresh(ring.condition)
      ensures history == [] && counters == NoCounters()
      ensures Linked() && OrderReady() && PutReady() && Separate()
    {
      this.keys, this.aes, this.o, this.helper := keys, aes, o, helper;
      this.tdValue := new Byte[DEF_MAX_TDVALUE_SIZE];
      this.oreLeft := new Byte[DEF_ORELEFT_MAXSIZE];
      this.oreRight := new Byte[32 + DEF_ORERIGHT_MAXSIZE];
      this.counters := NoCounters();
      var links := seq(|servers|, i requires 0 <= i < |servers| => servers[i] as ProxyNode?);
      var ring := BuildRing(links);
      this.ring := ring;
      this.world := World(keys, names, o, helper.key);
      this.nodes, this.thresholds, this.history := servers, ring.Thresholds(), [];
      this.route := PutRoute(keys, ring.Thresholds());
    }

    /** A new client agrees with empty nodes. */
    lemma StartsFitting()
      requires history == [] && counters == NoCounters()
      requires forall i: nat :: i < |nodes| ==> nodes[i].store == map[]
      ensures Fits()
    {
      forall i: nat | i < |nodes|
        ensures FitsAt(world, aes, route, history, nodes, counters, i)
      {
        NothingSeen(world, aes);
      }
    }

    /** The server that the ring gives for a key. */
    method PickServer(key: Word32) returns (id: nat, node: ProxyNode)
      requires Linked()
      ensures |thresholds| == |nodes| && id == OwnerOf(thresholds, key) && node == nodes[id]
    {
      var target := ring.Query(key);
      OwnerUnique(thresholds, key, target.id, OwnerOf(thresholds, key));
      assert ring.Nodes()[target.id] == nodes[target.id];
      return target.id, target.value;
    }

    /** The server that a put goes to. */
    method PickForPut(td: Digest, ghost name: Bytes) returns (id: nat, node: ProxyNode)
      requires Linked() && Routed() && td == Master(keys, 1, name)
      ensures id == route(name) < |nodes| && node == nodes[id] && node in nodes
    {
      assert RoutedAs(name);
      id, node := PickServer(PutKey(td));
    }

    /** What the caller of Put has to see to; an index on a node behind the ninth has no counter. */
    ghost predicate MayPut(r: Put)
    {
      && (route(KeyName(r)) < DEMO_SERVER_NUM || Unindexed(r))
      && Sendable(world, aes, r) && (r.oreIndex ==> world.sk.params.blockLen <= 10)
      && (r.equalIndexV1 || r.equalIndexV2 ==> |ValName(r)| <= DEF_MAX_TDVALUE_SIZE)
    }

    /** The rest of Put once request and server are known. */
    method Send(r0: Put, td: Digest, id: nat, node: ProxyNode) returns (ghost r: Put)
      requires Sound(world) && world.keys == keys
      requires OrderReady() && PutReady() && Fits() && |history| < 0xFFFF_FFFF && MayPut(r0)
      requires td == DataLabel(keys, r0) && id == route(KeyName(r0)) < |nodes| && node == nodes[id]
      modifies `counters, `history, node`store, tdValue, oreRight, helper.index.compRight
      ensures r == r0.(right := r.right)
      ensures history == old(history) + [r] && Fits()
    {
      ghost var past := history;
      var cs;
      cs, r := PutShared(keys, o, helper, nodes, id, node, counters, r0, td, tdValue, oreRight, world, aes, route,
                         past);
      ghost var h' := past + [r];
      label Stored:
      counters := cs;
      history := h';
      forall i: nat | i < |nodes|
        ensures FitsAt(world, aes, route, h', nodes, cs, i)
      {
        assert (nodes[i] as object) != this;
        assert old@Stored(FitsAt(world, aes, route, h', nodes, cs, i));
      }
    }

    /** Put: the new put is appended to the history, and every node still agrees with its share of it. */
    method Put(table: Bytes, key: Bytes, col: Bytes, val: Bytes, columnIndex: bool, equalIndexV1: bool,
               equalIndexV2: bool, oreIndex: bool, iv: Bytes, nonce: Block) returns (ghost r: Put)
      requires Linked() && Routed() && OrderReady() && PutReady() && Fits() && |history| < 0xFFFF_FFFF
      requires MayPut(Request(table, key, col, val, columnIndex, equalIndexV1, equalIndexV2, oreIndex, aes.enc(iv, val),
                              nonce))
      modifies `counters, `history, nodes`store, tdValue, oreRight, helper.index.compRight
      ensures r == Request(table, key, col, val, columnIndex, equalIndexV1, equalIndexV2, oreIndex, aes.enc(iv, val),
                           nonce).(right := r.right)
      ensures history == old(history) + [r] && Fits()
    {
      var r0 := Request(table, key, col, val, columnIndex, equalIndexV1, equalIndexV2, oreIndex, aes.enc(iv, val),
                        nonce);
      var td := Master(keys, 1, table + key + col);
      ghost var past, cs := history, counters;
      var id, node := PickForPut(td, KeyName(r0));
      assert history == past && counters == cs;
      r := Send(r0, td, id, node);
    }

    lemma RouteInRange(name: Bytes)
      requires Linked() && Routed()
      ensures route(name) < |nodes|
    {
      assert RoutedAs(name);
      RouteInside(keys, thresholds, name);
    }

    lemma RoutesInside()
      requires Linked() && Routed()
      ensures forall k :: 0 <= k < |history| ==> route(KeyName(history[k])) < |nodes|
    {
      forall k | 0 <= k < |history|
        ensures route(KeyName(history[k])) < |nodes|
      {
        RouteInRange(KeyName(history[k]));
      }
    }

    /** What the nodes answer together is what the whole history holds. */
    lemma AllAnswers(q: Query)
      requires Linked() && Routed()
      ensures multiset(Gather(NodeHits(route, history, q), |nodes|)) == multiset(Hits(history, history, q))
      ensures multiset(GatherFront(NodeHits(route, history, q), |nodes|)) == multiset(Hits(history, history, q))
      ensures DistinctKeys(history) ==> Hits(history, history, q) == Records(history, q)
    {
      RoutesInside();
      AllNodesRefineFilter(route, history, q, |nodes|);
    }

    /** Search returns only the number of hits; the hits are kept here for the specification. */
    method Search(table: Bytes, col: Bytes, val: Bytes, indexV2: bool) returns (size: Word32, all: seq<Bytes>)
      requires Linked() && Fits() && |table| + |col| + |val| <= DEF_MAX_TDVALUE_SIZE == tdValue.Length
      requires table + col in world.names && table + col + val in world.names
      modifies tdValue
      ensures all == Gather(NodeHits(route, history, EqualQuery(table, col, val, indexV2)), |nodes|)
      ensures Routed() ==> multiset(all) == multiset(Hits(history, history, EqualQuery(table, col, val, indexV2)))
      ensures Routed() && DistinctKeys(history) ==>
                multiset(all) == multiset(Records(history, EqualQuery(table, col, val, indexV2)))
      ensures size == |all| % 0x1_0000_0000
    {
      if Routed() {
        AllAnswers(EqualQuery(table, col, val, indexV2));
      }
      var servers: seq<ProxyNode> := ring.Nodes();
      assert servers == nodes;
      all := AskEqual(keys, servers, table, col, val, indexV2, tdValue, world, aes, route, history, counters);
      assert (this as object) != (tdValue as object);
      assert history == old(history);
      size := AsWord32(|all|);
    }

    /** RangeQuery; the tags of every row of the column have to be apart. */
    method RangeQuery(table: Bytes, col: Bytes, iCmp: int, uiVal: Word32) returns (size: Word32, all: seq<Bytes>)
      requires Linked() && OrderReady() && Fits() && table + col in world.names
      requires RowsApart(world, Range(table, col, iCmp, uiVal))
      modifies oreLeft, helper.query.compLeft
      ensures all == GatherFront(NodeHits(route, history, Range(table, col, iCmp, uiVal)), |nodes|)
      ensures Routed() ==> multiset(all) == multiset(Hits(history, history, Range(table, col, iCmp, uiVal)))
      ensures Routed() && DistinctKeys(history) ==>
                multiset(all) == multiset(Records(history, Range(table, col, iCmp, uiVal)))
      ensures size == |all| % 0x1_0000_0000
    {
      if Routed() {
        AllAnswers(Range(table, col, iCmp, uiVal));
      }
      var servers: seq<ProxyNode> := ring.Nodes();
      assert servers == nodes;
      ghost var mine: object, theirs: object, past := this, helper.query.compLeft, history;
      assert mine != theirs && mine != oreLeft;
      all := AskRange(keys, o, servers, table, col, iCmp, uiVal, helper, oreLeft, world, aes, route, history, counters);
      assert history == past;
      size := AsWord32(|all|);
    }

    /** The column as all nodes give it together, limit entries each: never more, exactly so many when every node holds
        them, and the whole column when no node holds more. */
    ghost predicate IsColumn(name: Bytes, limit: nat, values: seq<Bytes>)
      reads `history
    {
      && values == Decrypted(aes, GatherFront(ColumnOf(route, history, name, limit), |nodes|))
      && |values| <= limit * |nodes|
      && ((forall i: nat :: i < |nodes| ==> Fills(route, history, name, limit, i)) ==> |values| == limit * |nodes|)
      && (Routed() && CoversAll(route, history, name, limit, |nodes|) ==>
           multiset(values) == multiset(Decrypted(aes, DataOf(history, Chain(Column, name, history)))))
      && (Routed() && CoversAll(route, history, name, limit, |nodes|) && DistinctKeys(history) ==>
           multiset(values) == multiset(Values(Chain(Column, name, history))))
    }

    lemma ColumnTogether(name: Bytes, limit: nat)
      requires Linked() && Fits()
      ensures IsColumn(name, limit, Decrypted(aes, GatherFront(ColumnOf(route, history, name, limit), |nodes|)))
    {
      if Routed() && CoversAll(route, history, name, limit, |nodes|) {
        RoutesInside();
        WholeColumn(world, aes, route, history, nodes, counters, name, limit);
      }
      ColumnCount(route, history, name, limit, |nodes|);
    }

    /** GetCol: from every node the first entries, decrypted, so many of each as uiNum shared out among the nodes gives,
        rounded down. */
    method GetCol(table: Bytes, col: Bytes, uiNum: Word32) returns (values: seq<Bytes>, ghost limit: nat)
      requires Linked() && Fits() && table + col in world.names
      ensures EvenShare(uiNum, |nodes|, limit)
      ensures IsColumn(table + col, limit, values) && |values| <= uiNum
    {
      var servers: seq<ProxyNode> := ring.Nodes();
      assert servers == nodes;
      var each := PerNode(uiNum, |servers|);
      limit := each;
      PerNodeIs(uiNum, |nodes|);
      ColumnTogether(table + col, limit);
      values := AskForColumn(keys, aes, servers, table + col, each, world, route, history, counters);
    }

    /** Get: an empty reply means that the key does not exist on the node that was asked. */
    method Get(table: Bytes, key: Bytes, col: Bytes) returns (found: bool, val: Bytes)
      requires Linked() && Fits() && table + key + col in world.names
      ensures var stored := Latest(Share(route, history, Asked(table + key + col)), table + key + col);
        found == (stored != []) && (found ==> val == aes.dec(stored))
    {
      var td := Master(keys, 1, table + key + col);
      ghost var home, past := OwnerOf(thresholds, GetKey(td)), history;
      assert FitsAt(world, aes, route, history, nodes, counters, home);
      StoredData(world, Share(route, history, home), table + key + col);
      ghost var stored := nodes[home].store;
      var _, node := PickServer(GetKey(td));
      assert node.store == stored && history == past;
      var ret := node.ProxyGet(td);
      if |ret| != 0 {
        return true, aes.dec(ret);
      }
      return false, [];
    }
  }
}
