/**
 The pieces of ClientCpp::Put: for each index take the next counter, build the entry in scratch memory and store it.
 */
module PutSteps {
  import opened Bits
  import opened Memory
  import opened OreSpec
  import opened OreBlk
  import opened OreHelper
  import opened Prf
  import opened IndexSpec
  import opened Proxy
  import opened IndexTheorems
  import opened ClientSpec

  method TakeCounter(m: Counters, t: Bytes) returns (c: Word32, m': Counters)
    ensures c == CounterOf(m, t) && m' == Bumped(m, t)
  {
    c := if t in m then m[t] else 0;
    m' := m[t := (c + 1) % 0x1_0000_0000];
  }

  /** The first word ^= the flag. */
  method XorFlag(td: array<Byte>)
    requires td.Length == 36
    modifies td
    ensures td[..4] == ToLE(Xor(ReadLE(old(td[..]), 0, 4), INDEX_STOP_FLAG), 4)
    ensures td[4..] == old(td[4..])
  {
    MemCpy(td, 0, ToLE(Xor(ReadLE(td[..], 0, 4), INDEX_STOP_FLAG), 4));
  }

  /** The 32 bytes behind it ^= the trapdoor. */
  method XorTrapdoor(td: array<Byte>, trapdoor: Digest)
    requires td.Length == 36
    modifies td
    ensures td[..4] == old(td[..4])
    ensures td[4..] == XorBytes(old(td[4..]), trapdoor)
  {
    for cur := 4 to 36
      invariant forall k :: 0 <= k < 4 ==> td[k] == old(td[k])
      invariant forall k :: 4 <= k < cur ==> td[k] == XorByte(old(td[k]), trapdoor[k - 4])
      invariant forall k :: cur <= k < 36 ==> td[k] == old(td[k])
    {
      td[cur] := XorByte(td[cur], trapdoor[cur - 4]);
    }
  }

  /** Hides flag and trapdoor under the mask, in place. */
  method MaskInPlace(mask: Digest, trapdoor: Digest) returns (entry: Bytes)
    ensures entry == ColumnEntry(mask, trapdoor)
  {
    var td := new Byte[36](_ => 0);
    MemCpy(td, 0, mask);
    MemCpy(td, 32, ZERO4);
    assert td[..] == mask + ZERO4;
    ReadLESame(td[..], mask, 0, 4);
    assert td[4..] == (mask + ZERO4)[4..];
    XorFlag(td);
    XorTrapdoor(td, trapdoor);
    EntryInTwo(mask, trapdoor);
    entry := td[..];
    assert entry == td[..4] + td[4..];
  }

  lemma EntryInTwo(mask: Digest, trapdoor: Digest)
    ensures ColumnEntry(mask, trapdoor)
         == ToLE(Xor(ReadLE(mask, 0, 4), INDEX_STOP_FLAG), 4) + XorBytes((mask + ZERO4)[4..], trapdoor)
  {
    MaskedFlag(mask, trapdoor);
    MaskedTail(mask, trapdoor, ToLE(INDEX_STOP_FLAG, 4));
    var entry := ColumnEntry(mask, trapdoor);
    assert entry == entry[..4] + entry[4..];
  }

  lemma MaskedTail(mask: Digest, trapdoor: Digest, flag: Bytes)
    requires |flag| == 4
    ensures XorBytes(mask + ZERO4, flag + trapdoor)[4..] == XorBytes((mask + ZERO4)[4..], trapdoor)
  {
    var padded, whole := mask + ZERO4, flag + trapdoor;
    forall k | 0 <= k < 32
      ensures XorBytes(padded, whole)[4..][k] == XorBytes(padded[4..], trapdoor)[k]
    {
      assert padded[4..][k] == padded[k + 4] && whole[k + 4] == trapdoor[k];
    }
  }

  lemma MaskedFlag(mask: Digest, trapdoor: Digest)
    ensures ColumnEntry(mask, trapdoor)[..4] == ToLE(Xor(ReadLE(mask, 0, 4), INDEX_STOP_FLAG), 4)
  {
    ToLERead(mask, 0, 4);
    XorInMemory(ReadLE(mask, 0, 4), INDEX_STOP_FLAG, 4);
    var entry := ColumnEntry(mask, trapdoor);
    assert forall k :: 0 <= k < 4 ==> entry[k] == XorByte(mask[0..4][k], ToLE(INDEX_STOP_FLAG, 4)[k]);
  }

  /** Table, column and value in the client's buffer. */
  method NameWithValue(buf: array<Byte>, name: Bytes, val: Bytes) returns (whole: Bytes)
    requires |name| + |val| <= buf.Length
    modifies buf
    ensures whole == name + val
  {
    MemCpy(buf, 0, name);
    ghost var s := buf[..];
    MemCpy(buf, |name|, val);
    whole := buf[..|name| + |val|];
    assert forall k :: 0 <= k < |name| ==> whole[k] == buf[..][k] == s[k] == name[k];
    assert forall k :: 0 <= k < |val| ==> whole[|name| + k] == buf[..][|name| + k] == val[k];
  }

  method PutColumn(keys: Keys, node: ProxyNode, m: Counters, r: Put, trapdoor: Digest, ghost h: seq<Put>)
    returns (m': Counters)
    requires trapdoor == DataLabel(keys, r) && CounterOf(m, ColName(r)) == |Chain(Column, ColName(r), h)|
    modifies node`store
    ensures m' == Bumped(m, CounterKey(keys, Column, ColName(r)))
    ensures node.store == Written(keys, old(node.store), WriteOf(keys, h, r, Index(Column)))
  {
    var counter: Word32;
    counter, m' := TakeCounter(m, r.table + r.col);
    var at := Count(keys.hmac, counter, Master(keys, 3, r.table + r.col));
    var mask := Count(keys.hmac, counter, Master(keys, 4, r.table + r.col));
    var entry := MaskInPlace(mask, trapdoor);
    node.ProxyPut(at, entry, [], []);
  }

  method PutEqual1(keys: Keys, node: ProxyNode, m: Counters, r: Put, trapdoor: Digest, buf: array<Byte>,
                   ghost h: seq<Put>) returns (m': Counters)
    requires trapdoor == DataLabel(keys, r) && CounterOf(m, ColName(r)) == |Chain(Equal1, ColName(r), h)|
    requires |ValName(r)| <= buf.Length
    modifies node`store, buf
    ensures m' == Bumped(m, CounterKey(keys, Equal1, ColName(r)))
    ensures node.store == Written(keys, old(node.store), WriteOf(keys, h, r, Index(Equal1)))
  {
    var counter: Word32;
    counter, m' := TakeCounter(m, r.table + r.col);
    var at := Count(keys.hmac, counter, Master(keys, 6, r.table + r.col));
    var name := NameWithValue(buf, r.table + r.col, r.val);
    var check := Count(keys.hmac, counter, Master(keys, 7, name));
    node.ProxyPut(at, check + trapdoor, [], []);
  }

  method PutEqual2(keys: Keys, node: ProxyNode, m: Counters, r: Put, trapdoor: Digest, buf: array<Byte>,
                   ghost h: seq<Put>) returns (m': Counters)
    requires trapdoor == DataLabel(keys, r)
    requires CounterOf(m, CounterKey(keys, Equal2, ValName(r))) == |Chain(Equal2, ValName(r), h)|
    requires |ValName(r)| <= buf.Length
    modifies node`store, buf
    ensures m' == Bumped(m, CounterKey(keys, Equal2, ValName(r)))
    ensures node.store == Written(keys, old(node.store), WriteOf(keys, h, r, Index(Equal2)))
  {
    var name := NameWithValue(buf, r.table + r.col, r.val);
    var indexTrapdoor := Master(keys, 8, name);
    var counter: Word32;
    counter, m' := TakeCounter(m, indexTrapdoor);
    var at := Count(keys.hmac, counter, indexTrapdoor);
    var check := Count(keys.hmac, counter, Master(keys, 9, name));
    node.ProxyPut(at, check + trapdoor, [], []);
  }

  /** Trapdoor and right part side by side in the client's buffer. */
  method MakeRight(o: Oracle, helper: OREHelper, r: Put, counter: Word32, trapdoor: Digest, buf: array<Byte>)
    returns (right: Bytes)
    requires helper.Valid() && helper.params.blockLen % 2 == 0 && Usable(helper.params) && buf != helper.index.compRight
    requires RightLen(helper.params) <= DEF_ORERIGHT_MAXSIZE && buf.Length == 32 + DEF_ORERIGHT_MAXSIZE
    modifies buf, helper.index.compRight
    ensures |right| == RightLen(helper.params) && 32 + |right| <= buf.Length && buf[..32 + |right|] == trapdoor + right
    ensures IsIndex(o, helper.key, ColumnName(r.table, r.col), counter, r.nonce, Num(r.val), right)
  {
    MemCpy(buf, 0, trapdoor);
    assert buf[..32] == trapdoor;
    var len := helper.CreateRight(o, buf, 32, DEF_ORERIGHT_MAXSIZE, r.table, r.col, counter, Num(r.val), r.nonce);
    right := buf[32..32 + len];
    SideBySide(buf[..], trapdoor, 32 + len);
  }

  lemma SideBySide(s: Bytes, front: Bytes, end: nat)
    requires |front| <= end <= |s| && s[..|front|] == front
    ensures s[..end] == front + s[|front|..end]
  {
  }

  /** The right part that the helper makes for r becomes part of the put. */
  method PutOrder(keys: Keys, o: Oracle, helper: OREHelper, node: ProxyNode, m: Counters, r: Put, trapdoor: Digest,
                  buf: array<Byte>, ghost h: seq<Put>) returns (m': Counters, right: Bytes)
    requires helper.Valid() && helper.params.blockLen % 2 == 0 && Usable(helper.params) && buf != helper.index.compRight
    requires RightLen(helper.params) <= DEF_ORERIGHT_MAXSIZE && buf.Length == 32 + DEF_ORERIGHT_MAXSIZE
    requires trapdoor == DataLabel(keys, r) && CounterOf(m, ColName(r)) == |Chain(Order, ColName(r), h)|
    modifies node`store, buf, helper.index.compRight
    ensures m' == Bumped(m, CounterKey(keys, Order, ColName(r)))
    ensures |right| == RightLen(helper.params)
    ensures IsIndex(o, helper.key, ColumnName(r.table, r.col), CounterOf(m, ColName(r)), r.nonce, Num(r.val), right)
    ensures node.store == Written(keys, old(node.store), WriteOf(keys, h, r.(right := right), Index(Order)))
  {
    var counter: Word32;
    counter, m' := TakeCounter(m, r.table + r.col);
    var at := Count(keys.hmac, counter, Master(keys, 10, r.table + r.col));
    right := MakeRight(o, helper, r, counter, trapdoor, buf);
    node.ProxyPut(at, buf[..32 + |right|], [], []);
  }

  /** One more write on top of those done. */
  lemma StepWritten(keys: Keys, s: Store, h: seq<Put>, r: Put, done: seq<Step>, step: Step)
    ensures Apply(keys, s, WritesOf(keys, h, r, done + [step]))
              == Written(keys, Apply(keys, s, WritesOf(keys, h, r, done)), WriteOf(keys, h, r, step))
  {
    WritesAfter(keys, [], h, r, done, step);
    assert WritesOf(keys, h, r, done + [step]) == WritesOf(keys, h, r, done) + [WriteOf(keys, h, r, step)];
    ApplyAfter(keys, s, WritesOf(keys, h, r, done), WriteOf(keys, h, r, step));
  }

  /** Only the order entry depends on the right part. */
  lemma RightOnlyInOrder(keys: Keys, h: seq<Put>, r: Put, right: Bytes, steps: seq<Step>)
    requires Index(Order) !in steps
    ensures WritesOf(keys, h, r, steps) == WritesOf(keys, h, r.(right := right), steps)
  {
  }

  /** The right part changes no name, so it changes no counter. */
  lemma RightKeepsTables(keys: Keys, m: Counters, f: Family, r: Put, right: Bytes)
    ensures TableAfter(keys, m, f, r.(right := right)) == TableAfter(keys, m, f, r)
  {
  }

  /** Every counter that r takes stands at the length of its chain. */
  ghost predicate CounterReady(keys: Keys, ts: Tables, f: Family, r: Put, h: seq<Put>) {
    CounterOf(Table(ts, f), CounterKey(keys, f, Token(f, r))) == |Chain(f, Token(f, r), h)|
  }

  function ThreeSteps(r: Put): seq<Step> {
    IndexStep(Column, r) + IndexStep(Equal1, r) + IndexStep(Equal2, r)
  }

  /** The first three indexes of a put. */
  method PutThree(keys: Keys, node: ProxyNode, ts: Tables, r: Put, trapdoor: Digest, buf: array<Byte>,
                  ghost h: seq<Put>) returns (ts': Tables)
    requires trapdoor == DataLabel(keys, r)
    requires r.equalIndexV1 || r.equalIndexV2 ==> |ValName(r)| <= buf.Length
    requires forall f: Family :: CounterReady(keys, ts, f, r, h)
    modifies node`store, buf
    ensures ts' == TablesAfter(keys, ts, r).(order := ts.order)
    ensures node.store == Apply(keys, old(node.store), WritesOf(keys, h, r, ThreeSteps(r)))
  {
    ts' := ts;
    ghost var s, done := node.store, IndexStep(Column, r);
    if r.columnIndex {
      assert CounterReady(keys, ts, Column, r, h);
      var m := PutColumn(keys, node, ts.column, r, trapdoor, h);
      ts' := ts'.(column := m);
      StepWritten(keys, s, h, r, [], Index(Column));
    }
    assert node.store == Apply(keys, s, WritesOf(keys, h, r, done));
    if r.equalIndexV1 {
      assert CounterReady(keys, ts, Equal1, r, h);
      var m := PutEqual1(keys, node, ts.equalV1, r, trapdoor, buf, h);
      ts' := ts'.(equalV1 := m);
      StepWritten(keys, s, h, r, done, Index(Equal1));
    }
    done := done + IndexStep(Equal1, r);
    assert node.store == Apply(keys, s, WritesOf(keys, h, r, done));
    if r.equalIndexV2 {
      assert CounterReady(keys, ts, Equal2, r, h);
      var m := PutEqual2(keys, node, ts.equalV2, r, trapdoor, buf, h);
      ts' := ts'.(equalV2 := m);
      StepWritten(keys, s, h, r, done, Index(Equal2));
    }
  }

  /** The right part of r was made for the counter it is stored under. */
  ghost predicate RightMade(o: Oracle, sk: OreKey, h: seq<Put>, r: Put)
    requires Usable(sk.params)
  {
    r.oreIndex ==>
      && |r.right| == RightLen(sk.params) && |Chain(Order, ColName(r), h)| < 0x1_0000_0000
      && IsIndex(o, sk, ColumnName(r.table, r.col), |Chain(Order, ColName(r), h)|, r.nonce, Num(r.val), r.right)
  }

  /** The order index of a put, on top of the writes done. */
  method PutFourth(keys: Keys, o: Oracle, helper: OREHelper, node: ProxyNode, m: Counters, r0: Put, trapdoor: Digest,
                   oreRight: array<Byte>, ghost h: seq<Put>, ghost s: Store, ghost done: seq<Step>)
    returns (m': Counters, ghost r: Put)
    requires helper.Valid() && helper.params.blockLen % 2 == 0 && Usable(helper.params)
    requires oreRight != helper.index.compRight && oreRight.Length == 32 + DEF_ORERIGHT_MAXSIZE
    requires trapdoor == DataLabel(keys, r0)
    requires r0.oreIndex ==> RightLen(helper.params) <= DEF_ORERIGHT_MAXSIZE
    requires CounterOf(m, ColName(r0)) == |Chain(Order, ColName(r0), h)|
    requires Index(Order) !in done && node.store == Apply(keys, s, WritesOf(keys, h, r0, done))
    modifies node`store, oreRight, helper.index.compRight
    ensures r == r0.(right := r.right) && m' == TableAfter(keys, m, Order, r)
    ensures RightMade(o, helper.key, h, r)
    ensures node.store == Apply(keys, s, WritesOf(keys, h, r, done + IndexStep(Order, r)))
  {
    m', r := m, r0;
    if r0.oreIndex {
      var right;
      m', right := PutOrder(keys, o, helper, node, m, r0, trapdoor, oreRight, h);
      r := r0.(right := right);
      RightOnlyInOrder(keys, h, r0, right, done);
      StepWritten(keys, s, h, r, done, Index(Order));
    } else {
      assert done + IndexStep(Order, r) == done;
    }
  }

  /** All indexes that a put asks for. */
  method PutIndexes(keys: Keys, o: Oracle, helper: OREHelper, node: ProxyNode, ts: Tables, r0: Put, trapdoor: Digest,
                    tdValue: array<Byte>, oreRight: array<Byte>, ghost h: seq<Put>) returns (ts': Tables, ghost r: Put)
    requires helper.Valid() && helper.params.blockLen % 2 == 0 && Usable(helper.params)
    requires oreRight != helper.index.compRight && oreRight.Length == 32 + DEF_ORERIGHT_MAXSIZE
    requires tdValue != oreRight && tdValue != helper.index.compRight
    requires trapdoor == DataLabel(keys, r0)
    requires r0.equalIndexV1 || r0.equalIndexV2 ==> |ValName(r0)| <= tdValue.Length
    requires r0.oreIndex ==> RightLen(helper.params) <= DEF_ORERIGHT_MAXSIZE
    requires forall f: Family :: CounterReady(keys, ts, f, r0, h)
    modifies node`store, tdValue, oreRight, helper.index.compRight
    ensures r == r0.(right := r.right)
    ensures ts' == TablesAfter(keys, ts, r0).(order := TableAfter(keys, ts.order, Order, r))
    ensures RightMade(o, helper.key, h, r)
    ensures node.store == Apply(keys, old(node.store), WritesOf(keys, h, r, ThreeSteps(r0) + IndexStep(Order, r)))
  {
    ghost var s := node.store;
    assert CounterReady(keys, ts, Order, r0, h);
    ts' := PutThree(keys, node, ts, r0, trapdoor, tdValue, h);
    var m;
    m, r := PutFourth(keys, o, helper, node, ts.order, r0, trapdoor, oreRight, h, s, ThreeSteps(r0));
    ts' := ts'.(order := m);
  }

  /** All writes of a put on its node: the indexes it asks for, then the data. */
  method PutOnNode(keys: Keys, o: Oracle, helper: OREHelper, node: ProxyNode, ts: Tables, r0: Put, trapdoor: Digest,
                   tdValue: array<Byte>, oreRight: array<Byte>, ghost h: seq<Put>) returns (ts': Tables, ghost r: Put)
    requires helper.Valid() && helper.params.blockLen % 2 == 0 && Usable(helper.params)
    requires oreRight != helper.index.compRight && oreRight.Length == 32 + DEF_ORERIGHT_MAXSIZE
    requires tdValue != oreRight && tdValue != helper.index.compRight
    requires trapdoor == DataLabel(keys, r0)
    requires r0.equalIndexV1 || r0.equalIndexV2 ==> |ValName(r0)| <= tdValue.Length
    requires r0.oreIndex ==> RightLen(helper.params) <= DEF_ORERIGHT_MAXSIZE
    requires forall f: Family :: CounterReady(keys, ts, f, r0, h)
    modifies node`store, tdValue, oreRight, helper.index.compRight
    ensures r == r0.(right := r.right) && ts' == TablesAfter(keys, ts, r)
    ensures RightMade(o, helper.key, h, r)
    ensures node.store == Apply(keys, old(node.store), WritesOf(keys, h, r, Steps(r)))
  {
    ghost var s := node.store;
    ts', r := PutIndexes(keys, o, helper, node, ts, r0, trapdoor, tdValue, oreRight, h);
    RightKeepsTables(keys, ts.column, Column, r0, r.right);
    RightKeepsTables(keys, ts.equalV1, Equal1, r0, r.right);
    RightKeepsTables(keys, ts.equalV2, Equal2, r0, r.right);
    node.ProxyPut(trapdoor, r0.cipher, [], []);
    DataLast(keys, s, h, r0, r);
  }

  lemma DataLast(keys: Keys, s: Store, h: seq<Put>, r0: Put, r: Put)
    requires r == r0.(right := r.right)
    ensures Apply(keys, s, WritesOf(keys, h, r, Steps(r)))
         == Apply(keys, s, WritesOf(keys, h, r, ThreeSteps(r0) + IndexStep(Order, r)))[DataLabel(keys, r0) := r0.cipher]
  {
    StepWritten(keys, s, h, r, ThreeSteps(r0) + IndexStep(Order, r), Data);
  }
}
