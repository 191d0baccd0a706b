/**
 The three indexes agree with a plain filter over the history of puts. The history is a ghost: what the proxy
 reads is only the store it leaves behind.
 */
module IndexTheorems {
  import opened Bits
  import opened Memory
  import opened OreSpec
  import opened OreBlk
  import opened OreHelper
  import opened Prf
  import opened IndexSpec
  import opened Proxy

  /** The keys of one client, the names it ever uses, and its order-revealing scheme. */
  datatype World = World(keys: Keys, names: set<Bytes>, o: Oracle, sk: OreKey)

  /** Labels apart, and an even accepted block size. */
  ghost predicate Sound(w: World) {
    && Apart(w.keys, w.names)
    && 1 <= w.sk.params.blockLen <= 16 && w.sk.params.blockLen % 2 == 0
    && w.sk.params == HelperParams(w.sk.params.blockLen)
    && Usable(w.sk.params)
  }

  /** *(uint32_t*)pVal */
  function Num(val: Bytes): Word32 {
    if |val| < 4 then 0
    else
      ReadLEBound(val, 0, 4);
      Pow2Half(32);
      ReadLE(val, 0, 4)
  }

  /** The number is that of the first four bytes, the least significant first. */
  lemma NumIs(val: Bytes, a: int, b: int, c: int, d: int)
    requires |val| >= 4 && a == val[0] && b == val[1] && c == val[2] && d == val[3]
    ensures Num(val) == a + 256 * b + 65536 * c + 16777216 * d
  {
    FourBytesRead(val, 0, 4, a, b, c, d);
  }

  /** So the bytes of every 32-bit number stand for it, whatever follows them. */
  lemma NumOf(v: Word32, rest: Bytes)
    ensures Num(ToLE(v, 4) + rest) == v
  {
    var val := ToLE(v, 4) + rest;
    Pow2Half(32);
    assert Holds(val, 0, ToLE(v, 4));
    ReadBackSmall(val, 0, v, 4);
  }

  /** Put i of a history: its names are in use, its ciphertext is not empty, and its order entry was made for the
      counter it is stored under. */
  ghost predicate PutOk(w: World, h: seq<Put>, i: nat)
    requires i < |h|
  {
    var r := h[i];
    && KeyName(r) in w.names && ColName(r) in w.names && ValName(r) in w.names
    && r.cipher != []
    && (r.oreIndex ==>
      && |r.val| >= 4 && Usable(w.sk.params) && |r.right| == RightLen(w.sk.params)
      && |Chain(Order, ColName(r), h[..i])| < 0x1_0000_0000
      && IsIndex(w.o, w.sk, ColumnName(r.table, r.col), |Chain(Order, ColName(r), h[..i])|, r.nonce, Num(r.val),
                 r.right))
  }

  /** A history of honest puts, fewer than 2 to the 32. */
  ghost predicate Honest(w: World, h: seq<Put>) {
    |h| < 0x1_0000_0000 && forall i: nat :: i < |h| ==> PutOk(w, h, i)
  }

  lemma HonestPrefix(w: World, h: seq<Put>, n: nat)
    requires Honest(w, h) && n <= |h|
    ensures Honest(w, h[..n])
  {
    forall i: nat | i < n
      ensures PutOk(w, h[..n], i)
    {
      assert PutOk(w, h, i) && h[..n][..i] == h[..i];
    }
  }

  /** What a node's store holds after the puts h. */
  function NodeStore(w: World, h: seq<Put>): Store {
    Apply(w.keys, map[], Log(w.keys, h))
  }

  // The store by label --------------------------------------------------

  lemma WritesInUse(w: World, h: seq<Put>, r: Put, steps: seq<Step>)
    requires |h| < 0x1_0000_0000 && KeyName(r) in w.names && ColName(r) in w.names && ValName(r) in w.names
    ensures LogInUse(w.names, WritesOf(w.keys, h, r, steps))
  {
  }

  lemma {:induction false} HonestLogInUse(w: World, h: seq<Put>)
    requires Honest(w, h)
    ensures LogInUse(w.names, Log(w.keys, h))
  {
    if h != [] {
      var n := |h| - 1;
      HonestPrefix(w, h, n);
      HonestLogInUse(w, h[..n]);
      assert PutOk(w, h, n);
      WritesInUse(w, h[..n], h[n], Steps(h[n]));
    }
  }

  /** Label c of a chain, read from the store. */
  lemma ChainGet(w: World, log: seq<Write>, f: Family, t: Bytes, h: seq<Put>, c: nat)
    requires Apart(w.keys, w.names) && LogInUse(w.names, log) && Shows(w.keys, log, f, h)
    requires t in w.names && c < 0x1_0000_0000
    ensures Get(Apply(w.keys, map[], log), Count(w.keys.hmac, c, Master(w.keys, FamilyKey(f), t)))
              == ChainRead(w.keys, f, t, h, c)
  {
    GetIsLookup(w.keys, w.names, log, Counted(FamilyKey(f), t, c));
  }

  lemma DataGet(w: World, log: seq<Write>, h: seq<Put>, name: Bytes)
    requires Apart(w.keys, w.names) && LogInUse(w.names, log) && ShowsData(log, h) && name in w.names
    ensures Get(Apply(w.keys, map[], log), Master(w.keys, 1, name)) == Latest(h, name)
  {
    GetIsLookup(w.keys, w.names, log, Plain(1, name));
  }

  /** After any history the labels 0 .. n-1 of a chain are present and every label from n on is absent,
      where n is the number of puts that the client has counted for it. */
  lemma ChainsAreDense(w: World, h: seq<Put>, f: Family, t: Bytes, c: nat)
    requires Apart(w.keys, w.names) && Honest(w, h) && t in w.names && c < 0x1_0000_0000
    ensures Get(NodeStore(w, h), Count(w.keys.hmac, c, Master(w.keys, FamilyKey(f), t)))
              == ChainRead(w.keys, f, t, h, c)
    ensures Get(NodeStore(w, h), Count(w.keys.hmac, c, Master(w.keys, FamilyKey(f), t))) != [] <==> c < |Chain(f, t, h)|
  {
    HonestLogInUse(w, h);
    LogShows(w.keys, h);
    ChainGet(w, Log(w.keys, h), f, t, h, c);
  }

  lemma StoredData(w: World, h: seq<Put>, name: Bytes)
    requires Apart(w.keys, w.names) && Honest(w, h) && name in w.names
    ensures Get(NodeStore(w, h), Master(w.keys, 1, name)) == Latest(h, name)
  {
    HonestLogInUse(w, h);
    LogShows(w.keys, h);
    DataGet(w, Log(w.keys, h), h, name);
  }

  // Chains --------------------------------------------------------------

  /** Entry c of a chain is the put that was counted as number c. */
  lemma {:induction false} ChainPosition(f: Family, t: Bytes, h: seq<Put>, c: nat) returns (i: nat)
    requires c < |Chain(f, t, h)|
    ensures i < |h| && Chain(f, t, h)[c] == h[i]
    ensures |Chain(f, t, h[..i])| == c && Selected(f, h[i]) && Token(f, h[i]) == t
  {
    var n := |h| - 1;
    if c < |Chain(f, t, h[..n])| {
      i := ChainPosition(f, t, h[..n], c);
      assert h[..n][..i] == h[..i];
    } else {
      i := n;
    }
  }

  /** Where a put stands in its chain. */
  lemma {:induction false} ChainIndex(f: Family, t: Bytes, h: seq<Put>, j: nat)
    requires j < |h| && Selected(f, h[j]) && Token(f, h[j]) == t
    ensures |Chain(f, t, h[..j])| < |Chain(f, t, h)| && Chain(f, t, h)[|Chain(f, t, h[..j])|] == h[j]
  {
    var n := |h| - 1;
    if j < n {
      ChainIndex(f, t, h[..n], j);
      assert h[..n][..j] == h[..j];
    }
  }

  lemma {:induction false} LatestPresent(w: World, h: seq<Put>, i: nat)
    requires Honest(w, h) && i < |h|
    ensures Latest(h, KeyName(h[i])) != []
  {
    var n := |h| - 1;
    assert PutOk(w, h, n);
    if i < n {
      HonestPrefix(w, h, n);
      LatestPresent(w, h[..n], i);
    }
  }

  /** Histories one behind the other have their chains one behind the other. */
  lemma {:induction false} ChainOfTwo(f: Family, t: Bytes, a: seq<Put>, b: seq<Put>)
    ensures Chain(f, t, a + b) == Chain(f, t, a) + Chain(f, t, b)
  {
    if b == [] {
      assert a + b == a;
    } else {
      var rest, last := LastOfTwo(a, b);
      ChainOfTwo(f, t, a, rest);
      ChainAfter(f, t, rest, last);
      ChainAfter(f, t, a + rest, last);
      JoinThree(Chain(f, t, a), Chain(f, t, rest), [last]);
    }
  }

  /** And the chain of one put is the put, if it asks for the index and has the name. */
  lemma ChainOfOne(f: Family, t: Bytes, r: Put)
    ensures Chain(f, t, [r]) == if Selected(f, r) && Token(f, r) == t then [r] else []
  {
    ChainAfter(f, t, [], r);
    assert [] + [r] == [r];
  }

  // What stands in the store, in bytes ----------------------------------

  /** Label and bytes of the index entry of put i, which is number c of its chain. */
  lemma EntryStored(w: World, h: seq<Put>, f: Family, i: nat) returns (c: nat)
    requires Apart(w.keys, w.names) && Honest(w, h) && i < |h| && Selected(f, h[i])
    ensures c == |Chain(f, Token(f, h[i]), h[..i])| < 0x1_0000_0000
    ensures Get(NodeStore(w, h), Count(w.keys.hmac, c, Master(w.keys, FamilyKey(f), Token(f, h[i]))))
              == Entry(w.keys, f, h[i], c)
  {
    c := |Chain(f, Token(f, h[i]), h[..i])|;
    assert PutOk(w, h, i);
    ChainIndex(f, Token(f, h[i]), h, i);
    ChainsAreDense(w, h, f, Token(f, h[i]), c);
  }

  /** The column entry: under the PRF of PK3, the flag and the data's label, hidden under the PRF of PK4 and four zero
      bytes. */
  lemma ColumnStored(w: World, h: seq<Put>, i: nat) returns (c: nat)
    requires Apart(w.keys, w.names) && Honest(w, h) && i < |h| && h[i].columnIndex
    ensures c == |Chain(Column, h[i].table + h[i].col, h[..i])|
    ensures var hmac, pk, r := w.keys.hmac, w.keys.pk, h[i];
      Get(NodeStore(w, h), hmac(ToLE(c, 4), hmac(pk(3), r.table + r.col)))
      == XorBytes(hmac(ToLE(c, 4), hmac(pk(4), r.table + r.col)) + [0, 0, 0, 0],
                  ToLE(1234567890, 4) + hmac(pk(1), r.table + r.key + r.col))
  {
    c := EntryStored(w, h, Column, i);
  }

  /** The entry of the linear equality index: the check value of column and value under PK7, then the data's label. */
  lemma Equal1Stored(w: World, h: seq<Put>, i: nat) returns (c: nat)
    requires Apart(w.keys, w.names) && Honest(w, h) && i < |h| && h[i].equalIndexV1
    ensures c == |Chain(Equal1, h[i].table + h[i].col, h[..i])|
    ensures var hmac, pk, r := w.keys.hmac, w.keys.pk, h[i];
      Get(NodeStore(w, h), hmac(ToLE(c, 4), hmac(pk(6), r.table + r.col)))
      == hmac(ToLE(c, 4), hmac(pk(7), r.table + r.col + r.val)) + hmac(pk(1), r.table + r.key + r.col)
  {
    c := EntryStored(w, h, Equal1, i);
  }

  /** The entry of the fast one: label under PK8 and check value under PK9 are both of column and value. */
  lemma Equal2Stored(w: World, h: seq<Put>, i: nat) returns (c: nat)
    requires Apart(w.keys, w.names) && Honest(w, h) && i < |h| && h[i].equalIndexV2
    ensures c == |Chain(Equal2, h[i].table + h[i].col + h[i].val, h[..i])|
    ensures var hmac, pk, r := w.keys.hmac, w.keys.pk, h[i];
      Get(NodeStore(w, h), hmac(ToLE(c, 4), hmac(pk(8), r.table + r.col + r.val)))
      == hmac(ToLE(c, 4), hmac(pk(9), r.table + r.col + r.val)) + hmac(pk(1), r.table + r.key + r.col)
  {
    c := EntryStored(w, h, Equal2, i);
  }

  /** The order entry: the data's label, then an index of the value's number for the row that the entry is stored
      under. */
  lemma OrderStored(w: World, h: seq<Put>, i: nat) returns (c: nat)
    requires Apart(w.keys, w.names) && Honest(w, h) && i < |h| && h[i].oreIndex
    ensures c == |Chain(Order, h[i].table + h[i].col, h[..i])| < 0x1_0000_0000 && Usable(w.sk.params)
    ensures var hmac, pk, r := w.keys.hmac, w.keys.pk, h[i];
      && Get(NodeStore(w, h), hmac(ToLE(c, 4), hmac(pk(10), r.table + r.col)))
         == hmac(pk(1), r.table + r.key + r.col) + r.right
      && IsIndex(w.o, w.sk, CString(r.table + r.col), c, r.nonce, Num(r.val), r.right)
  {
    c := EntryStored(w, h, Order, i);
    assert PutOk(w, h, i);
  }

  /** The data: under the PRF of PK1, the ciphertext of the last put of the key. */
  lemma DataStored(w: World, h: seq<Put>, table: Bytes, key: Bytes, col: Bytes)
    requires Apart(w.keys, w.names) && Honest(w, h) && table + key + col in w.names
    ensures Get(NodeStore(w, h), w.keys.hmac(w.keys.pk(1), table + key + col)) == Latest(h, table + key + col)
  {
    StoredData(w, h, table + key + col);
  }

  // Queries -------------------------------------------------------------

  datatype Query =
    | Value1(table: Bytes, col: Bytes, val: Bytes)
    | Value2(table: Bytes, col: Bytes, val: Bytes)
    | Range(table: Bytes, col: Bytes, iCmp: int, bound: Word32)

  function FamilyOf(q: Query): Family {
    match q case Value1(_, _, _) => Equal1 case Value2(_, _, _) => Equal2 case Range(_, _, _, _) => Order
  }

  function TokenOf(q: Query): Bytes {
    if q.Value2? then q.table + q.col + q.val else q.table + q.col
  }

  function Trapdoor(w: World, q: Query): Digest {
    Master(w.keys, FamilyKey(FamilyOf(q)), TokenOf(q))
  }

  /** The names a query uses. */
  predicate QueryNamed(w: World, q: Query) {
    TokenOf(q) in w.names && (!q.Range? ==> q.table + q.col + q.val in w.names)
  }

  /** The condition on a put in the query's chain. */
  predicate Wanted(q: Query, r: Put) {
    match q
    case Value1(_, _, val) => r.val == val
    case Value2(_, _, _) => true
    case Range(_, _, iCmp, bound) => if iCmp > 0 then Num(r.val) < bound else Num(r.val) > bound
  }

  /** What the query means, over plain puts. */
  predicate Matches(q: Query, r: Put) {
    Selected(FamilyOf(q), r) && Token(FamilyOf(q), r) == TokenOf(q) && Wanted(q, r)
  }

  /** What the linear equality search looks for. */
  lemma Value1Means(table: Bytes, col: Bytes, val: Bytes, r: Put)
    ensures Matches(Value1(table, col, val), r) <==> r.equalIndexV1 && r.table + r.col == table + col && r.val == val
  {
  }

  /** What the fast one looks for. */
  lemma Value2Means(table: Bytes, col: Bytes, val: Bytes, r: Put)
    ensures Matches(Value2(table, col, val), r)
      <==> r.equalIndexV2 && r.table + r.col + r.val == table + col + val
  {
  }

  /** What a range query looks for: a number below the bound for a positive iCmp, and above it otherwise. */
  lemma RangeMeans(table: Bytes, col: Bytes, iCmp: int, bound: Word32, r: Put, v: Word32, rest: Bytes)
    requires r.val == ToLE(v, 4) + rest
    ensures Matches(Range(table, col, iCmp, bound), r)
      <==> r.oreIndex && r.table + r.col == table + col && if iCmp > 0 then v < bound else v > bound
  {
    NumOf(v, rest);
  }

  /** The stored data of every put of g that the query matches, in order. */
  function Hits(h: seq<Put>, g: seq<Put>, q: Query): seq<Bytes> {
    if g == [] then []
    else
      var rest, last := Hits(h, g[..|g| - 1], q), g[|g| - 1];
      if Matches(q, last) then rest + [Latest(h, KeyName(last))] else rest
  }

  /** Only the query's own chain matters. */
  lemma {:induction false} HitsOfChain(h: seq<Put>, g: seq<Put>, q: Query)
    ensures Hits(h, Chain(FamilyOf(q), TokenOf(q), g), q) == Hits(h, g, q)
  {
    if g != [] {
      var rest, last := g[..|g| - 1], g[|g| - 1];
      HitsOfChain(h, rest, q);
      HitsAfter(h, Chain(FamilyOf(q), TokenOf(q), rest), last, q);
    }
  }

  /** Hits of histories one behind the other stand one behind the other. */
  lemma {:induction false} HitsOfTwo(h: seq<Put>, a: seq<Put>, b: seq<Put>, q: Query)
    ensures Hits(h, a + b, q) == Hits(h, a, q) + Hits(h, b, q)
  {
    if b == [] {
      assert a + b == a;
    } else {
      var rest, last := LastOfTwo(a, b);
      HitsOfTwo(h, a, rest, q);
      HitsAfter(h, rest, last, q);
      HitsAfter(h, a + rest, last, q);
      JoinThree(Hits(h, a, q), Hits(h, rest, q), [Latest(h, KeyName(last))]);
    }
  }

  lemma HitsAfter(h: seq<Put>, g: seq<Put>, r: Put, q: Query)
    ensures Hits(h, g + [r], q) == if Matches(q, r) then Hits(h, g, q) + [Latest(h, KeyName(r))] else Hits(h, g, q)
  {
    assert (g + [r])[..|g|] == g;
  }

  // Scans ---------------------------------------------------------------

  /** The probe that goes with a query: a check value, or the left part of the order scheme. */
  ghost predicate ProbeFor(w: World, q: Query, probe: Probe) {
    match q
    case Value1(table, col, val) => probe == Equal(Master(w.keys, 7, table + col + val))
    case Value2(table, col, val) => probe == Equal(Master(w.keys, 9, table + col + val))
    case Range(table, col, iCmp, bound) =>
      && probe.Ordered? && probe.o == w.o && probe.p == w.sk.params
      && |probe.left| == LeftLen(w.sk.params)
      && IsQuery(w.o, w.sk, CString(table + col), bound, Aim(iCmp), probe.left)
  }

  /** For a range query: the tags of every row of the column are apart. */
  ghost predicate RowsApart(w: World, q: Query)
    requires Usable(w.sk.params)
  {
    q.Range? ==> forall c: Word32 :: RowApart(w.o, w.sk.params, CString(q.table + q.col), c, Aim(q.iCmp))
  }

  /** A check value tells values of one column apart. */
  lemma CheckValueDecides(w: World, pk: nat, name: Bytes, other: Bytes, c: Word32)
    requires Apart(w.keys, w.names) && 1 <= pk <= 10 && name in w.names && other in w.names
    ensures Label(w.keys, Counted(pk, name, c)) == Count(w.keys.hmac, c, Master(w.keys, pk, other)) <==> name == other
  {
    var a, b := Counted(pk, name, c), Counted(pk, other, c);
    assert TellApart(w.keys, w.names, a, b);
  }

  /** An equality probe on an honest entry. */
  lemma EqualEntry(w: World, q: Query, probe: Probe, r: Put, c: Word32)
    requires Sound(w) && !q.Range? && QueryNamed(w, q) && ProbeFor(w, q, probe)
    requires Token(FamilyOf(q), r) == TokenOf(q) && ValName(r) in w.names
    ensures Testable(probe, Entry(w.keys, FamilyOf(q), r, c))
    ensures Test(w.keys.hmac, probe, c, Entry(w.keys, FamilyOf(q), r, c))
         == if Wanted(q, r) then Fetch(DataLabel(w.keys, r)) else Skip
  {
    var entry := Entry(w.keys, FamilyOf(q), r, c);
    var pk := if q.Value1? then 7 else 9;
    CheckValueDecides(w, pk, ValName(r), q.table + q.col + q.val, c);
    assert entry[..32] == Label(w.keys, Counted(pk, ValName(r), c)) && entry[32..64] == DataLabel(w.keys, r);
    if q.Value1? {
      SameSuffixes(ColName(r), r.val, q.val);
    }
  }

  lemma SameSuffixes(a: Bytes, x: Bytes, y: Bytes)
    ensures a + x == a + y <==> x == y
  {
    assert (a + x)[|a|..] == x && (a + y)[|a|..] == y;
  }

  /** An order probe on the honest entry of put i. */
  lemma OrderEntry(w: World, q: Query, probe: Probe, h: seq<Put>, i: nat, c: Word32)
    requires Sound(w) && q.Range? && ProbeFor(w, q, probe) && RowsApart(w, q)
    requires i < |h| && PutOk(w, h, i) && h[i].oreIndex && ColName(h[i]) == TokenOf(q)
    requires c == |Chain(Order, TokenOf(q), h[..i])|
    ensures Testable(probe, Entry(w.keys, Order, h[i], c))
    ensures Test(w.keys.hmac, probe, c, Entry(w.keys, Order, h[i], c))
         == if Wanted(q, h[i]) then Fetch(DataLabel(w.keys, h[i])) else Skip
  {
    var r, entry := h[i], Entry(w.keys, Order, h[i], c);
    assert entry[..32] == DataLabel(w.keys, r) && entry[32..] == r.right;
    assert entry[32..][..RightLen(w.sk.params)] == r.right && probe.left[..LeftLen(w.sk.params)] == probe.left;
    HelperCompares(w.o, w.sk, w.sk.params.blockLen, CString(TokenOf(q)), c, r.nonce, q.bound, Num(r.val), q.iCmp,
                   probe.left, r.right);
  }

  /** Entry c of the query's chain under the probe. */
  lemma ChainTest(w: World, q: Query, probe: Probe, h: seq<Put>, c: nat)
    requires Sound(w) && QueryNamed(w, q) && ProbeFor(w, q, probe) && RowsApart(w, q)
    requires Honest(w, h) && c < |Chain(FamilyOf(q), TokenOf(q), h)|
    ensures c < 0x1_0000_0000
    ensures var r := Chain(FamilyOf(q), TokenOf(q), h)[c];
      && Selected(FamilyOf(q), r) && Token(FamilyOf(q), r) == TokenOf(q) && KeyName(r) in w.names
      && Testable(probe, Entry(w.keys, FamilyOf(q), r, c))
      && Test(w.keys.hmac, probe, c, Entry(w.keys, FamilyOf(q), r, c))
           == if Wanted(q, r) then Fetch(DataLabel(w.keys, r)) else Skip
  {
    var f, t := FamilyOf(q), TokenOf(q);
    var i := ChainPosition(f, t, h, c);
    assert PutOk(w, h, i);
    if q.Range? {
      OrderEntry(w, q, probe, h, i, c);
    } else {
      EqualEntry(w, q, probe, h[i], c);
    }
  }

  /** Entry c of the query's chain, as the scan sees it. */
  lemma ChainEntry(w: World, q: Query, probe: Probe, h: seq<Put>, c: nat)
    requires Sound(w) && QueryNamed(w, q) && ProbeFor(w, q, probe) && RowsApart(w, q)
    requires Honest(w, h) && c < |Chain(FamilyOf(q), TokenOf(q), h)|
    ensures Present(ScanPlan(w.keys.hmac, NodeStore(w, h), Trapdoor(w, q), probe, 0), c)
    ensures c < 0x1_0000_0000
    ensures var r := Chain(FamilyOf(q), TokenOf(q), h)[c];
      && Selected(FamilyOf(q), r) && Token(FamilyOf(q), r) == TokenOf(q)
      && ScanItem(w.keys.hmac, NodeStore(w, h), Trapdoor(w, q), probe, c)
         == if Wanted(q, r) then [Latest(h, KeyName(r))] else []
  {
    var f, t := FamilyOf(q), TokenOf(q);
    var i := ChainPosition(f, t, h, c);
    ChainTest(w, q, probe, h, c);
    ChainsAreDense(w, h, f, t, c);
    StoredData(w, h, KeyName(h[i]));
    LatestPresent(w, h, i);
  }

  /** Label k of a scan gives what put k of the chain is worth to the query. */
  ghost predicate ItemIsHit(plan: ScanPlan, h: seq<Put>, chain: seq<Put>, q: Query, k: nat)
    requires k < |chain|
  {
    && k < 0x1_0000_0000
    && ScanItem(plan.hmac, plan.store, plan.trapdoor, plan.probe, k)
         == if Matches(q, chain[k]) then [Latest(h, KeyName(chain[k]))] else []
  }

  lemma CollectOne(plan: ScanPlan, h: seq<Put>, chain: seq<Put>, q: Query, c: nat)
    requires c < |chain| <= 0x1_0000_0000 && ItemIsHit(plan, h, chain, q, c)
    requires Scan(plan.hmac, plan.store, plan.trapdoor, plan.probe, c) == Hits(h, chain[..c], q)
    ensures Scan(plan.hmac, plan.store, plan.trapdoor, plan.probe, c + 1) == Hits(h, chain[..c + 1], q)
  {
    assert chain[..c + 1] == chain[..c] + [chain[c]];
    HitsAfter(h, chain[..c], chain[c], q);
  }

  /** Label by label, a scan collects the hits of the chain. */
  lemma {:induction false} ScanCollects(plan: ScanPlan, h: seq<Put>, chain: seq<Put>, q: Query, c: nat)
    requires c <= |chain| <= 0x1_0000_0000
    requires forall k: nat :: k < |chain| ==> ItemIsHit(plan, h, chain, q, k)
    ensures Scan(plan.hmac, plan.store, plan.trapdoor, plan.probe, c) == Hits(h, chain[..c], q)
  {
    if c > 0 {
      ScanCollects(plan, h, chain, q, c - 1);
      CollectOne(plan, h, chain, q, c - 1);
    }
  }

  /** The scan that answers a query on a node. */
  function QueryPlan(w: World, q: Query, probe: Probe, h: seq<Put>): (s: ScanPlan)
    ensures s.n <= |h|
  {
    ScanPlan(w.keys.hmac, NodeStore(w, h), Trapdoor(w, q), probe, |Chain(FamilyOf(q), TokenOf(q), h)|)
  }

  /** On every reachable store every scan ends, at the number of puts counted for its token, and gives exactly the
      stored data of the matching puts, in put order. */
  lemma ScanRefinesFilter(w: World, q: Query, probe: Probe, h: seq<Put>)
    requires Sound(w) && QueryNamed(w, q) && ProbeFor(w, q, probe) && RowsApart(w, q) && Honest(w, h)
    ensures Ends(QueryPlan(w, q, probe, h))
    ensures ScanAnswer(QueryPlan(w, q, probe, h)) == Hits(h, h, q)
  {
    var f, t := FamilyOf(q), TokenOf(q);
    var plan, chain := QueryPlan(w, q, probe, h), Chain(f, t, h);
    ChainsAreDense(w, h, f, t, plan.n);
    forall c: nat | c < plan.n
      ensures Present(plan, c) && ItemIsHit(plan, h, chain, q, c)
    {
      ChainEntry(w, q, probe, h, c);
      assert Present(ScanPlan(w.keys.hmac, NodeStore(w, h), Trapdoor(w, q), probe, 0), c);
    }
    ScanCollects(plan, h, chain, q, plan.n);
    assert chain[..plan.n] == chain;
    HitsOfChain(h, h, q);
  }

  // Columns -------------------------------------------------------------

  /** The stored data of a list of puts. */
  function DataOf(h: seq<Put>, g: seq<Put>): (r: seq<Bytes>)
    ensures |r| == |g|
    ensures forall k :: 0 <= k < |g| ==> r[k] == Latest(h, KeyName(g[k]))
  {
    seq(|g|, k requires 0 <= k < |g| => Latest(h, KeyName(g[k])))
  }

  datatype ColumnAsk = ColumnAsk(hmac: Hmac, store: Store, trapdoor: Digest, mask: Digest)

  /** The column scan of a node for a column name. */
  function AskColumn(w: World, h: seq<Put>, name: Bytes): ColumnAsk {
    ColumnAsk(w.keys.hmac, NodeStore(w, h), Master(w.keys, FamilyKey(Column), name), Master(w.keys, 4, name))
  }

  /** Label c yields the data of put c of the chain, and nothing behind its end. */
  ghost predicate RoundIsData(a: ColumnAsk, h: seq<Put>, chain: seq<Put>, c: nat) {
    && c < 0x1_0000_0000
    && ColumnRound(a.hmac, a.store, a.trapdoor, a.mask, c)
         == Go(if c < |chain| then [Latest(h, KeyName(chain[c]))] else [])
  }

  lemma ColumnLabel(w: World, h: seq<Put>, name: Bytes, c: nat)
    requires Apart(w.keys, w.names) && Honest(w, h) && name in w.names && c < 0x1_0000_0000
    ensures RoundIsData(AskColumn(w, h, name), h, Chain(Column, name, h), c)
    ensures var e := Get(NodeStore(w, h), Count(w.keys.hmac, c, Master(w.keys, FamilyKey(Column), name)));
            e == [] || |e| == 36
  {
    ChainsAreDense(w, h, Column, name, c);
    if c < |Chain(Column, name, h)| {
      var i := ChainPosition(Column, name, h, c);
      assert PutOk(w, h, i);
      var mask := Label(w.keys, Counted(4, name, c));
      HonestEntryPasses(mask, DataLabel(w.keys, h[i]));
      UnmaskRecovers(mask, DataLabel(w.keys, h[i]));
      StoredData(w, h, KeyName(h[i]));
      LatestPresent(w, h, i);
    }
  }

  function Min(a: nat, b: nat): nat { if a < b then a else b }

  lemma DataOfTail(h: seq<Put>, chain: seq<Put>, c: nat, m: nat)
    requires c < m <= |chain|
    ensures DataOf(h, chain[c..m]) == [Latest(h, KeyName(chain[c]))] + DataOf(h, chain[c + 1..m])
  {
  }

  lemma {:induction false} ColumnCollects(a: ColumnAsk, h: seq<Put>, chain: seq<Put>, n: Word32, c: nat)
    requires forall k: nat :: k < n ==> RoundIsData(a, h, chain, k)
    requires c <= n
    ensures ColumnScan(a.hmac, a.store, a.trapdoor, a.mask, n, c)
         == if c < |chain| then DataOf(h, chain[c..Min(n, |chain|)]) else []
    decreases n - c
  {
    if c < n {
      assert RoundIsData(a, h, chain, c);
      ColumnCollects(a, h, chain, n, c + 1);
      if c < |chain| {
        DataOfTail(h, chain, c, Min(n, |chain|));
      }
    }
  }

  /** On every reachable store a column scan gives the data of the first n puts of the column, for every mask:
      each honest entry passes the flag test as parsed, and unmasks to the label of its data. */
  lemma ColumnScanIsPrefix(w: World, h: seq<Put>, name: Bytes, n: Word32)
    requires Apart(w.keys, w.names) && Honest(w, h) && name in w.names
    ensures var a, chain := AskColumn(w, h, name), Chain(Column, name, h);
      && ColumnEntriesWhole(a.hmac, a.store, a.trapdoor)
      && ColumnScan(a.hmac, a.store, a.trapdoor, a.mask, n, 0) == DataOf(h, chain[..Min(n, |chain|)])
  {
    var a, chain := AskColumn(w, h, name), Chain(Column, name, h);
    forall c: Word32
      ensures EntryWhole(a.hmac, a.store, a.trapdoor, c)
    {
      ColumnLabel(w, h, name, c);
    }
    forall c: nat | c < n
      ensures RoundIsData(a, h, chain, c)
    {
      ColumnLabel(w, h, name, c);
    }
    ColumnCollects(a, h, chain, n, 0);
  }

  // Equality on both indexes --------------------------------------------

  predicate BothFlags(h: seq<Put>) {
    forall k :: 0 <= k < |h| ==> h[k].equalIndexV1 && h[k].equalIndexV2
  }

  /** Another column of another table that runs together with the value to the same name. */
  predicate Ambiguous(r: Put, table: Bytes, col: Bytes, val: Bytes) {
    ValName(r) == table + col + val && ColName(r) != table + col
  }

  lemma ValueMatches(r: Put, table: Bytes, col: Bytes, val: Bytes)
    requires r.equalIndexV1 && r.equalIndexV2
    ensures Matches(Value2(table, col, val), r) <==>
            Matches(Value1(table, col, val), r) || Ambiguous(r, table, col, val)
    ensures !(Matches(Value1(table, col, val), r) && Ambiguous(r, table, col, val))
  {
    if ColName(r) == table + col {
      SameSuffixes(table + col, r.val, val);
    }
  }

  /** The fast index never finds less than the linear one, and finds more exactly at an ambiguous put. */
  lemma {:induction false} FastFindsMore(h: seq<Put>, g: seq<Put>, table: Bytes, col: Bytes, val: Bytes)
    requires BothFlags(g)
    ensures |Hits(h, g, Value1(table, col, val))| <= |Hits(h, g, Value2(table, col, val))|
    ensures |Hits(h, g, Value1(table, col, val))| == |Hits(h, g, Value2(table, col, val))|
      <==> forall k :: 0 <= k < |g| ==> !Ambiguous(g[k], table, col, val)
    ensures (forall k :: 0 <= k < |g| ==> !Ambiguous(g[k], table, col, val))
      ==> Hits(h, g, Value1(table, col, val)) == Hits(h, g, Value2(table, col, val))
  {
    if g != [] {
      FastFindsMore(h, g[..|g| - 1], table, col, val);
      ValueMatches(g[|g| - 1], table, col, val);
    }
  }

  /** Both indexes give the same sequence exactly when no put of the node is ambiguous with the query. */
  lemma EqualIndexesAgreeIff(w: World, h: seq<Put>, table: Bytes, col: Bytes, val: Bytes, probe1: Probe, probe2: Probe)
    requires Sound(w) && Honest(w, h) && BothFlags(h)
    requires table + col in w.names && table + col + val in w.names
    requires ProbeFor(w, Value1(table, col, val), probe1) && ProbeFor(w, Value2(table, col, val), probe2)
    ensures ScanAnswer(QueryPlan(w, Value1(table, col, val), probe1, h))
              == ScanAnswer(QueryPlan(w, Value2(table, col, val), probe2, h))
      <==> forall k :: 0 <= k < |h| ==> !Ambiguous(h[k], table, col, val)
  {
    ScanRefinesFilter(w, Value1(table, col, val), probe1, h);
    ScanRefinesFilter(w, Value2(table, col, val), probe2, h);
    FastFindsMore(h, h, table, col, val);
  }

  /** A put on column "ab" of value "c" answers a fast search for value "bc" in column "a". */
  lemma AmbiguousExample()
    ensures var r := Put([1], [9], [2, 3], [4], false, true, true, false, [7], Block(0, 0), []);
      Ambiguous(r, [1], [2], [3, 4])
  {
  }

  // Distinct keys -------------------------------------------------------

  predicate DistinctKeys(h: seq<Put>) {
    forall i, j :: 0 <= i < j < |h| ==> KeyName(h[i]) != KeyName(h[j])
  }

  /** The ciphertexts of the matching records. */
  function Records(g: seq<Put>, q: Query): seq<Bytes> {
    if g == [] then []
    else
      var rest, last := Records(g[..|g| - 1], q), g[|g| - 1];
      if Matches(q, last) then rest + [last.cipher] else rest
  }

  lemma {:induction false} LatestOfDistinct(h: seq<Put>, i: nat)
    requires DistinctKeys(h) && i < |h|
    ensures Latest(h, KeyName(h[i])) == h[i].cipher
  {
    var n := |h| - 1;
    if i < n {
      LatestOfDistinct(h[..n], i);
      assert KeyName(h[i]) != KeyName(h[n]);
    }
  }

  /** With distinct keys the stored data of the matching puts is the matching records. */
  lemma {:induction false} HitsOfDistinct(h: seq<Put>, n: nat, q: Query)
    requires DistinctKeys(h) && n <= |h|
    ensures Hits(h, h[..n], q) == Records(h[..n], q)
  {
    if n > 0 {
      HitsOfDistinct(h, n - 1, q);
      LatestOfDistinct(h, n - 1);
      assert h[..n][..n - 1] == h[..n - 1];
    }
  }
}
