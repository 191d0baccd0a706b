/**
 Proxy/TProxy.cpp: the operations of one node. The scans count up from 0 until a label is missing and read the
 store without any master key.
 */
module Proxy {
  import opened Bits
  import opened Memory
  import opened OreSpec
  import opened OreBlk
  import opened OreHelper
  import opened Prf
  import opened IndexSpec

  // Column entries ------------------------------------------------------

  /** The flag test as C++ parses it: (FLAG == word) ^ mask, since == binds tighter than ^. */
  predicate FlagTest(word: nat, mask: nat) {
    Xor(if word == INDEX_STOP_FLAG then 1 else 0, mask) != 0
  }

  /** It turns an entry away only when the mask word is the truth value of the comparison. */
  lemma FlagTestMeaning(word: nat, mask: nat)
    ensures FlagTest(word, mask) <==> mask != if word == INDEX_STOP_FLAG then 1 else 0
  {
    XorZero(if word == INDEX_STOP_FLAG then 1 else 0, mask);
  }

  /** The test as parsed agrees with the one intended exactly on entries that do carry the flag under the mask, and on
      those whose mask word happens to be the truth value of the comparison. */
  lemma FlagTestAgreesIff(word: nat, mask: nat)
    ensures (FlagTest(word, mask) <==> Xor(word, mask) == INDEX_STOP_FLAG)
      <==> Xor(word, mask) == INDEX_STOP_FLAG || mask == if word == INDEX_STOP_FLAG then 1 else 0
  {
    FlagTestMeaning(word, mask);
    XorZeroRight(word);
    if Xor(word, mask) == INDEX_STOP_FLAG == word {
      XorComm(word, mask);
      XorCancel(mask, word);
      XorSelf(word);
    }
  }

  /** Word 0 under mask 5 carries no flag and passes. */
  lemma FlagTestExample()
    ensures FlagTest(0, 5) && Xor(0, 5) != INDEX_STOP_FLAG
  {
    FlagTestMeaning(0, 5);
  }

  /** The 32 bytes behind the flag, unmasked. */
  function Unmask(mask: Digest, entry: Bytes): Digest
    requires |entry| >= 36
  {
    XorBytes((mask + ZERO4)[4..36], entry[4..36])
  }

  /** Every entry that was honestly hidden under its mask passes the test. */
  lemma HonestEntryPasses(mask: Digest, trapdoor: Digest)
    ensures FlagTest(ReadLE(ColumnEntry(mask, trapdoor), 0, 4), ReadLE(mask, 0, 4))
  {
    var entry, m := ColumnEntry(mask, trapdoor), ReadLE(mask, 0, 4);
    FlagWord(mask, trapdoor);
    FlagTestMeaning(ReadLE(entry, 0, 4), m);
    XorCancel(m, INDEX_STOP_FLAG);
    XorSelf(INDEX_STOP_FLAG);
  }

  lemma FlagWord(mask: Digest, trapdoor: Digest)
    ensures ReadLE(ColumnEntry(mask, trapdoor), 0, 4) == Xor(ReadLE(mask, 0, 4), INDEX_STOP_FLAG)
  {
    var entry, m, flag := ColumnEntry(mask, trapdoor), ReadLE(mask, 0, 4), INDEX_STOP_FLAG;
    Pow2Half(32);
    ToLERead(mask, 0, 4);
    XorInMemory(m, flag, 4);
    assert forall k :: 0 <= k < 4 ==> entry[k] == XorByte(mask[0..4][k], ToLE(flag, 4)[k]) == ToLE(Xor(m, flag), 4)[k];
    ReadLEBound(mask, 0, 4);
    XorBound(m, flag, 32);
    ReadBackSmall(entry, 0, Xor(m, flag), 4);
  }

  /** And the exclusive or gives back the trapdoor that was hidden, for every mask. */
  lemma UnmaskRecovers(mask: Digest, trapdoor: Digest)
    ensures Unmask(mask, ColumnEntry(mask, trapdoor)) == trapdoor
  {
    var a, b := (mask + ZERO4)[4..36], trapdoor;
    assert ColumnEntry(mask, trapdoor)[4..36] == XorBytes(a, b);
    XorBytesCancel(a, b);
  }

  // What a scan answers -------------------------------------------------

  /** What a scan asks of an entry: the right check value, or the right order. */
  datatype Probe =
    | Equal(mask: Digest)
    | Ordered(o: Oracle, p: Good, left: Bytes)

  datatype Pick = Skip | Fetch(at: Digest)

  /** The reads of one test stay inside the entry. */
  predicate Testable(probe: Probe, entry: Bytes) {
    match probe
    case Equal(_) => |entry| >= 64
    case Ordered(_, p, left) =>
      && |left| >= LeftLen(p) && |entry| >= 32 + RightLen(p)
      && Readable(p, left[..LeftLen(p)], entry[32..][..RightLen(p)])
  }

  /** Entry c of the scan: passed over, or the label of its data. */
  function Test(hmac: Hmac, probe: Probe, c: Word32, entry: Bytes): Pick {
    if !Testable(probe, entry) then Skip
    else
      match probe
      case Equal(mask) => if entry[..32] == Count(hmac, c, mask) then Fetch(entry[32..64]) else Skip
      case Ordered(o, p, left) =>
        if AsWord32(Compare(o, p, left[..LeftLen(p)], entry[32..][..RightLen(p)], c)) == 1
        then Fetch(entry[..32]) else Skip
  }

  /** A fetched item counts only when it is there. */
  function Found(store: Store, pick: Pick): seq<Bytes> {
    if pick.Fetch? && Get(store, pick.at) != [] then [Get(store, pick.at)] else []
  }

  /** A scan of a store whose first missing label is n. */
  datatype ScanPlan = ScanPlan(hmac: Hmac, store: Store, trapdoor: Digest, probe: Probe, n: nat)

  /** Label c is there and its entry can be tested. */
  predicate Present(s: ScanPlan, c: nat) {
    var entry := Get(s.store, Count(s.hmac, c, s.trapdoor));
    entry != [] && Testable(s.probe, entry)
  }

  /** Label n is missing, every label before it is there, and every entry before it can be tested. */
  predicate Ends(s: ScanPlan) {
    && s.n < 0x1_0000_0000
    && Get(s.store, Count(s.hmac, s.n, s.trapdoor)) == []
    && forall c: nat :: c < s.n ==> Present(s, c)
  }

  const EMPTY_PLAN: ScanPlan :=
    ScanPlan((_, _) => seq(32, _ => 0), map[], seq(32, _ => 0), Equal(seq(32, _ => 0)), 0)

  type Plan = s: ScanPlan | Ends(s) witness EMPTY_PLAN

  /** A label of a scan is missing exactly at the end, and its entry can be tested before it. */
  lemma EndsAt(plan: Plan, c: Word32)
    requires c <= plan.n
    ensures var e := Get(plan.store, Count(plan.hmac, c, plan.trapdoor));
      (e == [] <==> c == plan.n) && (e == [] || Testable(plan.probe, e))
  {
    assert c < plan.n ==> Present(plan, c);
  }

  /** What entry c adds to the answer. */
  function ScanItem(hmac: Hmac, store: Store, trapdoor: Digest, probe: Probe, c: Word32): seq<Bytes> {
    Found(store, Test(hmac, probe, c, Get(store, Count(hmac, c, trapdoor))))
  }

  /** The answer of a scan of the labels below c. */
  function Scan(hmac: Hmac, store: Store, trapdoor: Digest, probe: Probe, c: nat): seq<Bytes>
    requires c <= 0x1_0000_0000
  {
    if c == 0 then []
    else Scan(hmac, store, trapdoor, probe, c - 1) + ScanItem(hmac, store, trapdoor, probe, c - 1)
  }

  /** The answer of a whole scan. */
  function ScanAnswer(plan: ScanPlan): seq<Bytes>
    requires plan.n <= 0x1_0000_0000
  {
    Scan(plan.hmac, plan.store, plan.trapdoor, plan.probe, plan.n)
  }

  /** Entries that are present are long enough to be unmasked. */
  predicate ColumnEntriesWhole(hmac: Hmac, store: Store, trapdoor: Digest) {
    forall c: Word32 :: EntryWhole(hmac, store, trapdoor, c)
  }

  predicate EntryWhole(hmac: Hmac, store: Store, trapdoor: Digest, c: Word32) {
    Get(store, Count(hmac, c, trapdoor)) != [] ==> |Get(store, Count(hmac, c, trapdoor))| >= 36
  }

  /** What one label of a column scan leads to: the end, or on with what it adds. */
  datatype Round = Stop | Go(items: seq<Bytes>)

  function ColumnRound(hmac: Hmac, store: Store, trapdoor: Digest, mask: Digest, c: Word32): Round {
    var entry, m := Get(store, Count(hmac, c, trapdoor)), Count(hmac, c, mask);
    if |entry| < 36 then Go([])
    else if !FlagTest(ReadLE(entry, 0, 4), ReadLE(m, 0, 4)) then Stop
    else Go(Found(store, Fetch(Unmask(m, entry))))
  }

  /** The answer of a column scan of the labels c .. n-1. */
  function ColumnScan(hmac: Hmac, store: Store, trapdoor: Digest, mask: Digest, n: Word32, c: nat): seq<Bytes>
    decreases n - c
  {
    if c >= n then []
    else
      match ColumnRound(hmac, store, trapdoor, mask, c)
      case Stop => []
      case Go(items) => items + ColumnScan(hmac, store, trapdoor, mask, n, c + 1)
  }

  /** What is already collected, and one label more. */
  lemma ScanOn(ret: seq<Bytes>, hmac: Hmac, store: Store, trapdoor: Digest, mask: Digest, n: Word32, c: Word32)
    requires c < n
    ensures ret + ColumnScan(hmac, store, trapdoor, mask, n, c)
         == match ColumnRound(hmac, store, trapdoor, mask, c)
            case Stop => ret
            case Go(items) => ret + items + ColumnScan(hmac, store, trapdoor, mask, n, c + 1)
  {
  }

  // The node ------------------------------------------------------------

  class ProxyNode {
    var store: Store
    var blockSize: nat

    constructor (blockSize: nat)
      ensures store == map[] && this.blockSize == blockSize
    {
      store, this.blockSize := map[], blockSize;
    }

    method ProxyGet(trapdoor: Bytes) returns (ret: Bytes)
      ensures ret == Get(store, trapdoor)
    {
      ret := if trapdoor in store then store[trapdoor] else [];
    }

    /** The second pair is stored only when its key is not empty. */
    method ProxyPut(trapdoor: Bytes, val: Bytes, indexTrapdoor: Bytes, indexVal: Bytes)
      modifies `store
      ensures indexTrapdoor == [] ==> store == old(store)[trapdoor := val]
      ensures indexTrapdoor != [] ==> store == old(store)[trapdoor := val][indexTrapdoor := indexVal]
    {
      store := store[trapdoor := val];
      if |indexTrapdoor| != 0 {
        store := store[indexTrapdoor := indexVal];
      }
    }

    /** Fetches data that is there. */
    static method Collect(db: Store, trapdoor: Digest) returns (items: seq<Bytes>)
      ensures items == Found(db, Fetch(trapdoor))
    {
      var data := Get(db, trapdoor);
      items := if |data| != 0 then [data] else [];
    }

    /** One label of EqualSearch: whether it was there, and what it adds. */
    method EqualRound(hmac: Hmac, indexTrapdoor: Digest, indexMask: Digest, counter: Word32, ghost plan: Plan)
      returns (more: bool, items: seq<Bytes>)
      requires plan == ScanPlan(hmac, store, indexTrapdoor, Equal(indexMask), plan.n) && counter <= plan.n
      ensures more == (counter < plan.n)
      ensures more ==> items == ScanItem(plan.hmac, plan.store, plan.trapdoor, plan.probe, counter)
    {
      EndsAt(plan, counter);
      var indexVal := Get(store, Count(hmac, counter, indexTrapdoor));
      if |indexVal| == 0 {
        return false, [];
      }
      items := [];
      if indexVal[..32] == Count(hmac, counter, indexMask) {
        items := Collect(store, indexVal[32..64]);
      }
      more := true;
    }

    /** EqualSearch1 and EqualSearch2, whose code is the same; n + 1 labels are looked up. */
    method EqualSearch(hmac: Hmac, indexTrapdoor: Digest, indexMask: Digest, ghost plan: Plan)
      returns (ret: seq<Bytes>, ghost lookups: nat)
      requires plan == ScanPlan(hmac, store, indexTrapdoor, Equal(indexMask), plan.n)
      ensures ret == ScanAnswer(plan) && lookups == plan.n + 1
    {
      ret, lookups := [], 0;
      var counter: Word32 := 0;
      while true
        invariant lookups == counter <= plan.n
        invariant ret == Scan(hmac, store, indexTrapdoor, Equal(indexMask), counter)
        decreases plan.n - counter
      {
        var more, items := EqualRound(hmac, indexTrapdoor, indexMask, counter, plan);
        lookups := lookups + 1;
        if !more {
          break;
        }
        ret := ret + items;
        counter := counter + 1;
      }
    }

    /** One label of OrderSearch. */
    static method OrderRound(o: Oracle, hmac: Hmac, db: Store, helper: OREHelper, indexTrapdoor: Digest,
                             orderLeft: Bytes, counter: Word32, ghost p: Good, ghost plan: Plan)
      returns (more: bool, items: seq<Bytes>)
      requires helper.Ready(p) && counter <= plan.n
      requires plan == ScanPlan(hmac, db, indexTrapdoor, Ordered(o, p, orderLeft), plan.n)
      modifies helper.query.compLeft, helper.index.compRight
      ensures more == (counter < plan.n)
      ensures more ==> items == ScanItem(plan.hmac, plan.store, plan.trapdoor, plan.probe, counter)
    {
      EndsAt(plan, counter);
      var indexVal := Get(db, Count(hmac, counter, indexTrapdoor));
      if |indexVal| == 0 {
        return false, [];
      }
      var res := helper.CompareORE(o, orderLeft, indexVal[32..], counter, p);
      items := [];
      if res == 1 {
        items := Collect(db, indexVal[..32]);
      }
      more := true;
    }

    /** The loop of OrderSearch. */
    static method OrderLoop(o: Oracle, hmac: Hmac, db: Store, helper: OREHelper, indexTrapdoor: Digest,
                            orderLeft: Bytes, ghost p: Good, ghost plan: Plan)
      returns (ret: seq<Bytes>, ghost lookups: nat)
      requires helper.Ready(p)
      requires plan == ScanPlan(hmac, db, indexTrapdoor, Ordered(o, p, orderLeft), plan.n)
      modifies helper.query.compLeft, helper.index.compRight
      ensures ret == ScanAnswer(plan) && lookups == plan.n + 1
    {
      ret, lookups := [], 0;
      var counter: Word32 := 0;
      while true
        invariant lookups == counter <= plan.n
        invariant ret == Scan(plan.hmac, plan.store, plan.trapdoor, plan.probe, counter)
        decreases plan.n - counter
      {
        var more, items := OrderRound(o, hmac, db, helper, indexTrapdoor, orderLeft, counter, p, plan);
        lookups := lookups + 1;
        if !more {
          break;
        }
        ret := ret + items;
        counter := counter + 1;
      }
    }

    /** The proxy compares with a helper of its own, which holds no key it needs; n + 1 labels are looked up. */
    method OrderSearch(o: Oracle, hmac: Hmac, indexTrapdoor: Digest, orderLeft: Bytes, ghost p: Good, ghost plan: Plan)
      returns (ret: seq<Bytes>, ghost lookups: nat)
      requires 1 <= blockSize <= 16 && p == HelperParams(blockSize)
      requires plan == ScanPlan(hmac, store, indexTrapdoor, Ordered(o, p, orderLeft), plan.n)
      ensures ret == ScanAnswer(plan) && lookups == plan.n + 1
    {
      var helper := new OREHelper();
      helper.Init(Block(0, 0), Block(0, 0), blockSize);
      ret, lookups := OrderLoop(o, hmac, store, helper, indexTrapdoor, orderLeft, p, plan);
    }

    /** Unmasks the 32 bytes behind the flag in a scratch buffer. */
    method UnmaskInPlace(mask: Digest, indexVal: Bytes) returns (trapdoor: Digest)
      requires |indexVal| >= 36
      ensures trapdoor == Unmask(mask, indexVal)
    {
      var tmp := new Byte[36](_ => 0);
      MemCpy(tmp, 0, mask);
      MemCpy(tmp, 32, ZERO4);
      ghost var was := mask + ZERO4;
      assert tmp[..] == was;
      for cur := 4 to 36
        invariant forall k :: 4 <= k < cur ==> tmp[k] == XorByte(was[k], indexVal[k])
        invariant forall k :: cur <= k < 36 ==> tmp[k] == was[k]
      {
        tmp[cur] := XorByte(tmp[cur], indexVal[cur]);
      }
      trapdoor := tmp[4..36];
      assert forall k :: 0 <= k < 32 ==>
               trapdoor[k] == tmp[k + 4] && was[4..36][k] == was[k + 4] && indexVal[4..36][k] == indexVal[k + 4];
    }

    /** One label of ProxyGetColumn. */
    method ColumnStep(hmac: Hmac, indexTrapdoor: Digest, indexMask: Digest, counter: Word32) returns (round: Round)
      requires var e := Get(store, Count(hmac, counter, indexTrapdoor)); e == [] || |e| >= 36
      ensures round == ColumnRound(hmac, store, indexTrapdoor, indexMask, counter)
    {
      var mask := Count(hmac, counter, indexMask);
      var indexVal := Get(store, Count(hmac, counter, indexTrapdoor));
      if |indexVal| == 0 {
        return Go([]);
      }
      if Xor(if ReadLE(indexVal, 0, 4) == INDEX_STOP_FLAG then 1 else 0, ReadLE(mask, 0, 4)) == 0 {
        return Stop;
      }
      var trapdoor := UnmaskInPlace(mask, indexVal);
      var items := Collect(store, trapdoor);
      return Go(items);
    }

    /** Looks at the first getNum labels; an int32_t count is compared as unsigned. */
    method ProxyGetColumn(hmac: Hmac, indexTrapdoor: Digest, indexMask: Digest, getNum: int) returns (ret: seq<Bytes>)
      requires ColumnEntriesWhole(hmac, store, indexTrapdoor)
      ensures ret == ColumnScan(hmac, store, indexTrapdoor, indexMask, AsWord32(getNum), 0)
    {
      ret := [];
      var limit := AsWord32(getNum);
      for counter := 0 to limit
        invariant ret + ColumnScan(hmac, store, indexTrapdoor, indexMask, limit, counter)
               == ColumnScan(hmac, store, indexTrapdoor, indexMask, limit, 0)
      {
        ScanOn(ret, hmac, store, indexTrapdoor, indexMask, limit, counter);
        assert EntryWhole(hmac, store, indexTrapdoor, counter);
        var round := ColumnStep(hmac, indexTrapdoor, indexMask, counter);
        if round.Stop? {
          return ret;
        }
        ret := ret + round.items;
      }
    }
  }
}
