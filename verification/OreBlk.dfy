/**
 The order-revealing scheme of fastore/ore_blk.cpp on byte buffers: writing a query's left part,
 writing an index's right part, and comparing the two without a key.
 */
module OreBlk {
  import opened Bits
  import opened Memory
  import opened Crypto
  import opened OreSpec

  // What the buffers hold -----------------------------------------------

  /** One block of a query: a slot key, a name tag and a slot number. */
  datatype LeftPart = LeftPart(key: Block, tag: Block, pix: nat)

  /** g_mask and outmask: cmp_len ones. */
  function CmpMask(cmpLen: nat): Word
    requires cmpLen <= 64
  {
    Pow2Fits(cmpLen);
    Ones(cmpLen)
  }

  /** _eval_keyed_hash_aes_ro: AES under val of the key, cut to outlen bits. */
  function KeyedHash(o: Oracle, outlen: nat, key: Block, val: Block): (r: Word)
    requires outlen <= 64
    ensures r < Pow2(outlen)
  {
    AndMask(o.aes(val, key).lo, outlen);
    Pow2Fits(outlen);
    And(o.aes(val, key).lo, CmpMask(outlen))
  }

  /** The PRF input of slot j in block i under the prefix above it. */
  function SlotInput(p: Good, msg: Word, i: nat, j: Word): Block
    requires i < NBlocks(p)
  {
    FewBlocks(p);
    Block(i, OrWord(Shl(PrefixAt(p, msg, i), p.blockLen), j))
  }

  function SlotKey(o: Oracle, sk: GoodKey, msg: Word, i: nat, j: Word): Block
    requires i < NBlocks(sk.params)
  {
    o.aes(sk.prfKey, SlotInput(sk.params, msg, i, j))
  }

  /** The Feistel keys of block i, derived from its prefix. */
  function BlockPrpKey(o: Oracle, sk: GoodKey, msg: Word, i: nat): Block
    requires i < NBlocks(sk.params)
  {
    FewBlocks(sk.params);
    o.aes(sk.prpKey, Block(i, PrefixAt(sk.params, msg, i)))
  }

  function BlockKeys(o: Oracle, sk: GoodKey, msg: Word, i: nat): seq<Block>
    requires i < NBlocks(sk.params)
  {
    RoundKeys(o.aes, BlockPrpKey(o, sk, msg, i))
  }

  /** The tag of (column name, slot, flag): this is what a query carries for its aim. */
  function NameTag(o: Oracle, cname: Bytes, j: Word, flag: Byte): Block {
    o.aes(o.sha(cname), Block(o.sha(cname).lo, OrWord(Shl(j, 8), flag)))
  }

  /** The same tag bound to a row and cut to cmp_len bits. */
  function RowTag(o: Oracle, cmpLen: nat, cname: Bytes, rnum: Word, j: Word, flag: Byte): (r: Word)
    requires cmpLen <= 64
    ensures r < Pow2(cmpLen)
  {
    AndMask(o.aes(Block(rnum, 0), NameTag(o, cname, j, flag)).lo, cmpLen);
    Pow2Fits(cmpLen);
    And(o.aes(Block(rnum, 0), NameTag(o, cname, j, flag)).lo, CmpMask(cmpLen))
  }

  /** The flag that an index block holding cur stores at a slot whose value is val. */
  function SlotFlag(val: nat, cur: nat): Byte {
    if val == cur then ORE_EQUAL else if val < cur then ORE_SMALL else ORE_LARGE
  }

  /** Left block i of a query for msg. */
  function QueryPart(o: Oracle, sk: GoodKey, cname: Bytes, msg: Word, aim: Byte, i: nat): LeftPart
    requires i < NBlocks(sk.params)
  {
    var p := sk.params;
    var pix := Prp(o.aes, BlockKeys(o, sk, msg, i), p.blockLen, false, BlockAt(p, msg, i));
    Pow2Fits(p.blockLen);
    LeftPart(SlotKey(o, sk, msg, i, pix), NameTag(o, cname, pix, aim), pix)
  }

  /** The stored word of a slot: its hash, tagged unless the slot's value is the block itself. */
  function TaggedSlot(o: Oracle, cmpLen: nat, cname: Bytes, rnum: Word, j: Word, hash: Word, val: nat,
                      cur: nat): (r: Word)
    requires cmpLen <= 64 && hash < Pow2(cmpLen)
    ensures r < Pow2(cmpLen)
  {
    var flag := SlotFlag(val, cur);
    XorBound(hash, RowTag(o, cmpLen, cname, rnum, j, flag), cmpLen);
    if flag == ORE_EQUAL then hash else XorWord(hash, RowTag(o, cmpLen, cname, rnum, j, flag))
  }

  /** Slot j in block i of an index for msg. */
  function IndexSlot(o: Oracle, sk: GoodKey, cname: Bytes, rnum: Word, nonce: Block, msg: Word, i: nat, j: nat): Word
    requires i < NBlocks(sk.params) && j < NSlots(sk.params)
  {
    var p := sk.params;
    Pow2Fits(p.blockLen);
    TaggedSlot(o, p.cmpLen, cname, rnum, j, KeyedHash(o, p.cmpLen, SlotKey(o, sk, msg, i, j), nonce),
               Prp(o.aes, BlockKeys(o, sk, msg, i), p.blockLen, true, j), BlockAt(p, msg, i))
  }

  // Reading the buffers -------------------------------------------------

  function LeftOffset(p: Params, i: nat): nat { Times(i, LeftBlockLen(p)) }

  function RightOffset(p: Params, i: nat, j: nat): nat {
    16 + Times(i, RightBlockLen(p)) + Times(j, CmpBytes(p))
  }

  function ReadLeft(p: Params, s: Bytes, i: nat): LeftPart
    requires LeftOffset(p, i) + 32 + PixBytes(p) <= |s|
  {
    var off := LeftOffset(p, i);
    LeftPart(ReadBlock(s, off), ReadBlock(s, off + 16), ReadLE(s, off + 32, PixBytes(p)))
  }

  function ReadSlot(p: Params, s: Bytes, i: nat, j: nat): nat
    requires RightOffset(p, i, j) + CmpBytes(p) <= |s|
  {
    ReadLE(s, RightOffset(p, i, j), CmpBytes(p))
  }

  lemma LeftInside(p: Good, i: nat)
    requires i < NBlocks(p)
    ensures LeftOffset(p, i) + 32 + PixBytes(p) <= LeftOffset(p, i + 1) <= LeftLen(p)
  {
    TimesMono(i + 1, NBlocks(p), LeftBlockLen(p));
  }

  lemma RightInside(p: Good, i: nat, j: nat)
    requires i < NBlocks(p) && j < NSlots(p)
    ensures RightOffset(p, i, j) + CmpBytes(p) == RightOffset(p, i, j + 1) <= RightOffset(p, i + 1, 0) <= RightLen(p)
  {
    TimesMono(j + 1, NSlots(p), CmpBytes(p));
    TimesMono(i + 1, NBlocks(p), RightBlockLen(p));
  }

  /** Left block i of the buffer is that of (msg, aim). */
  predicate PartIs(o: Oracle, sk: GoodKey, cname: Bytes, msg: Word, aim: Byte, left: Bytes, i: nat)
    requires i < NBlocks(sk.params)
  {
    && LeftOffset(sk.params, i) + 32 + PixBytes(sk.params) <= |left|
    && ReadLeft(sk.params, left, i) == QueryPart(o, sk, cname, msg, aim, i)
  }

  /** A query buffer that holds the parts of (msg, aim). */
  predicate IsQuery(o: Oracle, sk: GoodKey, cname: Bytes, msg: Word, aim: Byte, left: Bytes)
  {
    && LeftLen(sk.params) <= |left|
    && forall i: nat :: i < NBlocks(sk.params) ==> PartIs(o, sk, cname, msg, aim, left, i)
  }

  /** Slot j of right block i of the buffer is that of (msg, rnum). */
  predicate SlotIs(o: Oracle, sk: GoodKey, cname: Bytes, rnum: Word, nonce: Block, msg: Word, right: Bytes, i: nat,
                   j: nat)
    requires i < NBlocks(sk.params) && j < NSlots(sk.params)
  {
    && RightOffset(sk.params, i, j) + CmpBytes(sk.params) <= |right|
    && ReadSlot(sk.params, right, i, j) == IndexSlot(o, sk, cname, rnum, nonce, msg, i, j)
  }

  /** An index buffer that holds the nonce and the slots of (msg, rnum). */
  predicate IsIndex(o: Oracle, sk: GoodKey, cname: Bytes, rnum: Word, nonce: Block, msg: Word, right: Bytes)
  {
    && RightLen(sk.params) <= |right|
    && ReadBlock(right, 0) == nonce
    && forall i: nat, j: nat :: i < NBlocks(sk.params) && j < NSlots(sk.params) ==>
      SlotIs(o, sk, cname, rnum, nonce, msg, right, i, j)
  }

  // Comparing -----------------------------------------------------------

  /** The slot that block i of a comparison looks up lies inside the index buffer. */
  predicate BlockReadable(p: Good, left: Bytes, right: Bytes, i: nat)
  {
    && LeftOffset(p, i) + 32 + PixBytes(p) <= |left|
    && RightOffset(p, i, ReadLeft(p, left, i).pix) + CmpBytes(p) <= |right|
  }

  /** Every slot that a comparison may look up lies inside the index buffer. */
  predicate Readable(p: Good, left: Bytes, right: Bytes)
  {
    && LeftLen(p) <= |left| && 16 <= |right|
    && forall i: nat :: i < NBlocks(p) ==> BlockReadable(p, left, right, i)
  }

  /** What block i of the comparison says: 0 to go on, else the answer. */
  function CompareBlock(o: Oracle, p: Good, left: Bytes, right: Bytes, rnum: Word, i: nat): int
    requires 16 <= |right| && BlockReadable(p, left, right, i)
  {
    var part := ReadLeft(p, left, i);
    var slot := And(ReadSlot(p, right, i, part.pix), CmpMask(p.cmpLen));
    var r := Xor(KeyedHash(o, p.cmpLen, part.key, ReadBlock(right, 0)), slot);
    if r == 0 then 0
    else if And(o.aes(Block(rnum, 0), part.tag).lo, CmpMask(p.cmpLen)) == r then 1
    else -1
  }

  function CompareSteps(o: Oracle, p: Good, left: Bytes, right: Bytes, rnum: Word): (steps: seq<int>)
    requires Readable(p, left, right)
    ensures |steps| == NBlocks(p)
    ensures forall i: nat :: i < NBlocks(p) ==>
              BlockReadable(p, left, right, i) && steps[i] == CompareBlock(o, p, left, right, rnum, i)
  {
    seq(NBlocks(p), i requires 0 <= i < NBlocks(p) =>
          assert BlockReadable(p, left, right, i); CompareBlock(o, p, left, right, rnum, i))
  }

  /** What ore_compare answers. */
  function Compare(o: Oracle, p: Good, left: Bytes, right: Bytes, rnum: Word): int
    requires Readable(p, left, right)
  {
    FirstDecision(CompareSteps(o, p, left, right, rnum), 0)
  }

  lemma ThreeAnswers(o: Oracle, p: Good, left: Bytes, right: Bytes, rnum: Word)
    requires Readable(p, left, right)
    ensures -1 <= Compare(o, p, left, right, rnum) <= 1
  {
    var steps := CompareSteps(o, p, left, right, rnum);
    forall i: nat | i < |steps|
      ensures -1 <= steps[i] <= 1
    {
    }
    DecisionAmong(steps, 0);
  }

  // Slots of a block ----------------------------------------------------

  lemma QuerySlot(o: Oracle, sk: GoodKey, cname: Bytes, msg: Word, aim: Byte, i: nat)
    requires sk.params.blockLen % 2 == 0 && i < NBlocks(sk.params)
    ensures QueryPart(o, sk, cname, msg, aim, i).pix < NSlots(sk.params)
    ensures Prp(o.aes, BlockKeys(o, sk, msg, i), sk.params.blockLen, true, QueryPart(o, sk, cname, msg, aim, i).pix)
         == BlockAt(sk.params, msg, i)
  {
    BlockIs(sk.params, msg, i);
    PrpRoundTrip(o.aes, BlockKeys(o, sk, msg, i), sk.params.blockLen, false, BlockAt(sk.params, msg, i));
  }

  /** What the comparison sees in one block under equal prefixes: 0 for equal blocks, else the tag of the difference. */
  lemma BlockResidue(o: Oracle, sk: GoodKey, cname: Bytes, rnum: Word, nonce: Block, q: Word, x: Word, aim: Byte,
                     i: nat)
    requires sk.params.blockLen % 2 == 0 && i < NBlocks(sk.params)
    requires PrefixAt(sk.params, q, i) == PrefixAt(sk.params, x, i)
    ensures var p, part := sk.params, QueryPart(o, sk, cname, q, aim, i);
      && part.pix < NSlots(p) <= 0x1_0000_0000_0000_0000
      && Xor(KeyedHash(o, p.cmpLen, part.key, nonce),
             And(IndexSlot(o, sk, cname, rnum, nonce, x, i, part.pix), CmpMask(p.cmpLen)))
         == if BlockAt(p, q, i) == BlockAt(p, x, i) then 0
            else RowTag(o, p.cmpLen, cname, rnum, part.pix, DifferenceFlag(BlockAt(p, q, i), BlockAt(p, x, i)))
  {
    var p, part := sk.params, QueryPart(o, sk, cname, q, aim, i);
    Pow2Fits(p.blockLen);
    QuerySlot(o, sk, cname, q, aim, i);
    var h := KeyedHash(o, p.cmpLen, part.key, nonce);
    assert SlotKey(o, sk, x, i, part.pix) == part.key;
    assert BlockKeys(o, sk, x, i) == BlockKeys(o, sk, q, i);
    var qb, xb := BlockAt(p, q, i), BlockAt(p, x, i);
    var slot := IndexSlot(o, sk, cname, rnum, nonce, x, i, part.pix);
    AndMask(slot, p.cmpLen);
    if qb == xb {
      LowSmall(slot, p.cmpLen);
      XorSelf(h);
    } else {
      var tag := RowTag(o, p.cmpLen, cname, rnum, part.pix, DifferenceFlag(qb, xb));
      assert slot == Xor(h, tag);
      XorBound(h, tag, p.cmpLen);
      LowSmall(slot, p.cmpLen);
      XorComm(h, tag);
      XorCancel(tag, h);
      XorComm(h, Xor(tag, h));
    }
  }

  /** A tag of the deciding slot is usable when it is not zero and no other aim shares it. */
  predicate TagsApart(o: Oracle, cmpLen: nat, cname: Bytes, rnum: Word, j: Word, aim: Byte)
    requires cmpLen <= 64
  {
    forall flag: Byte :: flag == ORE_SMALL || flag == ORE_LARGE ==>
      && RowTag(o, cmpLen, cname, rnum, j, flag) != 0
      && (flag != aim ==> RowTag(o, cmpLen, cname, rnum, j, flag) != RowTag(o, cmpLen, cname, rnum, j, aim))
  }

  /** An honest query stays inside any honest index of the same parameters. */
  lemma HonestReadable(o: Oracle, sk: GoodKey, cname: Bytes, q: Word, aim: Byte, left: Bytes, right: Bytes)
    requires sk.params.blockLen % 2 == 0 && IsQuery(o, sk, cname, q, aim, left) && RightLen(sk.params) <= |right|
    ensures Readable(sk.params, left, right)
  {
    forall i: nat | i < NBlocks(sk.params)
      ensures BlockReadable(sk.params, left, right, i)
    {
      assert PartIs(o, sk, cname, q, aim, left, i);
      QuerySlot(o, sk, cname, q, aim, i);
      RightInside(sk.params, i, ReadLeft(sk.params, left, i).pix);
    }
  }

  /** One block of the comparison under equal prefixes, with no hypothesis on the tags: equal blocks move on, and so
      does a difference whose tag happens to be zero; any other difference is settled by two tags of one slot. */
  lemma CompareBlockIs(o: Oracle, sk: GoodKey, cname: Bytes, rnum: Word, nonce: Block, q: Word, x: Word, aim: Byte,
                       left: Bytes, right: Bytes, i: nat)
    requires sk.params.blockLen % 2 == 0 && IsQuery(o, sk, cname, q, aim, left) &&
             IsIndex(o, sk, cname, rnum, nonce, x, right)
    requires i < NBlocks(sk.params) && PrefixAt(sk.params, q, i) == PrefixAt(sk.params, x, i)
    ensures Readable(sk.params, left, right) && BlockReadable(sk.params, left, right, i)
    ensures QueryPart(o, sk, cname, q, aim, i).pix < NSlots(sk.params) <= 0x1_0000_0000_0000_0000
    ensures var p, pix := sk.params, QueryPart(o, sk, cname, q, aim, i).pix;
      var diff := RowTag(o, p.cmpLen, cname, rnum, pix, DifferenceFlag(BlockAt(p, q, i), BlockAt(p, x, i)));
      CompareBlock(o, p, left, right, rnum, i)
      == if BlockAt(p, q, i) == BlockAt(p, x, i) || diff == 0 then 0
         else if RowTag(o, p.cmpLen, cname, rnum, pix, aim) == diff then 1 else -1
  {
    HonestReadable(o, sk, cname, q, aim, left, right);
    BlockResidue(o, sk, cname, rnum, nonce, q, x, aim, i);
    var pix := QueryPart(o, sk, cname, q, aim, i).pix;
    assert PartIs(o, sk, cname, q, aim, left, i) && BlockReadable(sk.params, left, right, i);
    assert SlotIs(o, sk, cname, rnum, nonce, x, right, i, pix);
  }

  /** Tags of all slots of a row, apart for this aim. */
  predicate RowApart(o: Oracle, p: Good, cname: Bytes, rnum: Word, aim: Byte)
  {
    forall j: Word :: j < NSlots(p) ==> TagsApart(o, p.cmpLen, cname, rnum, j, aim)
  }

  /** With tags apart, one block of the comparison says exactly what the two plain blocks say. */
  lemma CompareBlockApart(o: Oracle, sk: GoodKey, cname: Bytes, rnum: Word, nonce: Block, q: Word, x: Word, aim: Byte,
                          left: Bytes, right: Bytes, i: nat)
    requires sk.params.blockLen % 2 == 0 && IsQuery(o, sk, cname, q, aim, left) &&
             IsIndex(o, sk, cname, rnum, nonce, x, right)
    requires i < NBlocks(sk.params) && PrefixAt(sk.params, q, i) == PrefixAt(sk.params, x, i)
    requires RowApart(o, sk.params, cname, rnum, aim)
    ensures Readable(sk.params, left, right) && BlockReadable(sk.params, left, right, i)
    ensures CompareBlock(o, sk.params, left, right, rnum, i) == BlockVerdict(sk.params, q, x, aim, i)
  {
    CompareBlockIs(o, sk, cname, rnum, nonce, q, x, aim, left, right, i);
    assert TagsApart(o, sk.params.cmpLen, cname, rnum, QueryPart(o, sk, cname, q, aim, i).pix, aim);
  }

  /** Two walks that agree while the prefixes do end alike. */
  lemma {:induction false} SameDecision(p: Good, q: Word, x: Word, aim: Byte, steps: seq<int>, i: nat)
    requires |steps| == NBlocks(p) && i <= NBlocks(p) && PrefixAt(p, q, i) == PrefixAt(p, x, i)
    requires forall k :: 0 <= k < NBlocks(p) && PrefixAt(p, q, k) == PrefixAt(p, x, k) ==>
               steps[k] == BlockVerdict(p, q, x, aim, k)
    ensures FirstDecision(steps, i) == FirstDecision(Verdicts(p, q, x, aim), i)
    decreases NBlocks(p) - i
  {
    if i < NBlocks(p) && BlockVerdict(p, q, x, aim, i) == 0 {
      SamePrefixNext(p, q, x, i);
      SameDecision(p, q, x, aim, steps, i + 1);
    }
  }

  /** For any parameters: comparing honest buffers of one row walks the plain blocks, most significant first. */
  lemma CompareWalksBlocks(o: Oracle, sk: GoodKey, cname: Bytes, rnum: Word, nonce: Block, q: Word, x: Word, aim: Byte,
                           left: Bytes, right: Bytes)
    requires sk.params.blockLen % 2 == 0
    requires IsQuery(o, sk, cname, q, aim, left) && IsIndex(o, sk, cname, rnum, nonce, x, right)
    requires RowApart(o, sk.params, cname, rnum, aim)
    ensures Readable(sk.params, left, right)
    ensures Compare(o, sk.params, left, right, rnum) == FirstDecision(Verdicts(sk.params, q, x, aim), 0)
  {
    HonestReadable(o, sk, cname, q, aim, left, right);
    forall k: nat | k < NBlocks(sk.params) && PrefixAt(sk.params, q, k) == PrefixAt(sk.params, x, k)
      ensures BlockReadable(sk.params, left, right, k)
      ensures CompareBlock(o, sk.params, left, right, rnum, k) == BlockVerdict(sk.params, q, x, aim, k)
    {
      CompareBlockApart(o, sk, cname, rnum, nonce, q, x, aim, left, right, k);
    }
    SameDecision(sk.params, q, x, aim, CompareSteps(o, sk.params, left, right, rnum), 0);
  }

  /** End to end: for all messages, keys, nonces, column names, rows and aims, comparing an honest query with an honest
      index of the same row gives exactly the promised answer about the low bits. */
  lemma CompareCorrect(o: Oracle, sk: GoodKey, cname: Bytes, rnum: Word, nonce: Block, q: Word, x: Word, aim: Byte,
                       left: Bytes, right: Bytes)
    requires sk.params.blockLen % 2 == 0 && FitsWord(sk.params)
    requires IsQuery(o, sk, cname, q, aim, left) && IsIndex(o, sk, cname, rnum, nonce, x, right)
    requires RowApart(o, sk.params, cname, rnum, aim)
    ensures Readable(sk.params, left, right)
    ensures Compare(o, sk.params, left, right, rnum)
         == Answer(q % Pow2(Width(sk.params)), x % Pow2(Width(sk.params)), aim)
  {
    CompareWalksBlocks(o, sk, cname, rnum, nonce, q, x, aim, left, right);
    VerdictIsAnswer(sk.params, q, x, aim, 0);
    LowIsMod(q, Width(sk.params));
    LowIsMod(x, Width(sk.params));
  }
}
