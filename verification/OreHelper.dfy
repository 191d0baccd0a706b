/**
 fastore/OREHelper.cpp: the object through which client and proxy use the order-revealing scheme.
 Every call fills or overwrites the helper's own query and index buffers and copies from or to the caller's.
 */
module OreHelper {
  import opened Bits
  import opened Memory
  import opened OreSpec
  import opened OreBlk
  import opened OreMethods
  import opened OreTheorems

  const DEF_ORELEFT_MAXSIZE: nat := (32 + 32 + 32 / 8) * 32 / 2
  const DEF_ORERIGHT_MAXSIZE: nat := 32 + 64 / 8 * 256 * 32 / 2

  /** The parameters Init sets up. */
  function HelperParams(blockSize: nat): Params { Params(true, 32, blockSize, 64) }

  /** The bytes of a C string: what stands before the first zero. */
  function CString(s: Bytes): Bytes {
    if s == [] || s[0] == 0 then [] else [s[0]] + CString(s[1..])
  }

  /** It is the longest part of the bytes from the left that has no zero in it. */
  lemma {:induction false} CStringIs(s: Bytes)
    ensures |CString(s)| <= |s| && CString(s) == s[..|CString(s)|] && 0 !in CString(s)
    ensures |CString(s)| < |s| ==> s[|CString(s)|] == 0
  {
    if s != [] && s[0] != 0 {
      CStringIs(s[1..]);
    }
  }

  /** Columns are named by table and column run together. */
  function ColumnName(table: Bytes, col: Bytes): Bytes { CString(table + col) }

  function Aim(iCmp: int): Byte { if iCmp > 0 then ORE_LARGE else ORE_SMALL }

  /** An int returned as uint32_t. */
  function AsWord32(x: int): Word32 { x % 0x1_0000_0000 }

  /** Every accepted block size gives usable parameters, wide enough for the 32-bit values. */
  lemma HelperUsable(blockSize: nat)
    requires 1 <= blockSize <= 16
    ensures Usable(HelperParams(blockSize)) && FitsWord(HelperParams(blockSize)) && 32 <= Width(HelperParams(blockSize))
    ensures LeftLen(HelperParams(blockSize)) > 0
  {
    SmallUsable(HelperParams(blockSize));
  }

  lemma SmallUsable(p: Params)
    requires ValidParams(p) && 16 <= p.nbits <= 32
    ensures Usable(p) && FitsWord(p) && p.nbits <= Width(p) && LeftLen(p) > 0
  {
    CeilNeedsAll(p.nbits, p.blockLen);
    CeilTimesCovers(p.nbits, p.blockLen);
    CeilIsDiv(p.nbits, 8);
    CeilIsDiv(p.blockLen, 8);
    TimesAtLeast(NBlocks(p), LeftBlockLen(p));
  }

  /** What copying a query out gives when its own buffer held was: the query, or for an odd width just that. */
  ghost predicate QueryOut(o: Oracle, sk: GoodKey, cname: Bytes, msg: Word, aim: Byte, was: Bytes, out: Bytes) {
    if sk.params.blockLen % 2 == 0 then IsQuery(o, sk, cname, msg, aim, out) else out == was
  }

  /** The same for an index; for an odd width the nonce is already new. */
  ghost predicate IndexOut(o: Oracle, sk: GoodKey, cname: Bytes, rnum: Word, nonce: Block, msg: Word, was: Bytes,
                           out: Bytes)
  {
    if sk.params.blockLen % 2 == 0 then IsIndex(o, sk, cname, rnum, nonce, msg, out)
    else |was| >= 16 && out == BlockBytes(nonce) + was[16..]
  }

  /** Sets up a query in its own buffer and copies it out; for an odd width it copies out what the buffer held. */
  method QueryInto(o: Oracle, cque: OreQuery, sk: GoodKey, p: array<Byte>, msg: Word, cname: Bytes, aim: Byte)
    requires sk.initialized && cque.initialized && cque.compLeft.Length == LeftLen(sk.params) <= p.Length &&
             p != cque.compLeft
    modifies cque.compLeft, p
    ensures QueryOut(o, sk, cname, msg, aim, old(cque.compLeft[..]), p[..LeftLen(sk.params)])
    ensures p[LeftLen(sk.params)..] == old(p[LeftLen(sk.params)..])
  {
    var len := LeftLen(sk.params);
    var _ := SetupHelper(o, null, cque, sk, msg, cname, 0, aim, Block(0, 0));
    ghost var filled := cque.compLeft[..];
    MemCpy(p, 0, cque.compLeft[..len]);
    assert p[..len] == filled;
  }

  /** Sets up an index in its own buffer and copies it out behind the first off bytes of p; for an odd width it copies
      out a nonce and what the buffer held behind it. */
  method IndexInto(o: Oracle, ctxt: OreIndex, sk: GoodKey, p: array<Byte>, off: nat, msg: Word, cname: Bytes,
                   rnum: Word, nonce: Block)
    requires sk.initialized && ctxt.initialized && ctxt.compRight.Length == RightLen(sk.params) && p != ctxt.compRight
    requires off + RightLen(sk.params) <= p.Length
    modifies ctxt.compRight, p
    ensures var end := off + RightLen(sk.params);
      && IndexOut(o, sk, cname, rnum, nonce, msg, old(ctxt.compRight[..]), p[off..end])
      && p[..off] == old(p[..off]) && p[end..] == old(p[end..])
  {
    var len := RightLen(sk.params);
    ghost var was, before := ctxt.compRight[..], p[..];
    var _ := SetupHelper(o, ctxt, null, sk, msg, cname, rnum, ORE_EQUAL, nonce);
    ghost var filled := ctxt.compRight[..];
    assert IndexOut(o, sk, cname, rnum, nonce, msg, was, filled);
    assert ctxt.compRight[..len] == filled;
    MemCpy(p, off, ctxt.compRight[..len]);
    CopiedIn(before, p[..], off, filled);
  }

  lemma CopiedIn(s: Bytes, t: Bytes, off: nat, part: Bytes)
    requires Holds(t, off, part) && SameOutside(s, t, off, off + |part|)
    ensures var end := off + |part|;
      end <= |s| && t[off..end] == part && t[..off] == s[..off] && t[end..] == s[end..]
  {
  }

  class OREHelper {
    var params: Params
    var key: OreKey
    var query: OreQuery
    var index: OreIndex

    /** Set up for the parameters p. */
    ghost predicate Ready(p: Params)
      reads this, query, index
    {
      && params == p && key.initialized && key.params == p
      && query.initialized && query.compLeft.Length == LeftLen(p)
      && index.initialized && index.compRight.Length == RightLen(p)
      && query.compLeft != index.compRight
    }

    ghost predicate Valid()
      reads this, query, index
    {
      1 <= params.blockLen <= 16 && Ready(HelperParams(params.blockLen))
    }

    constructor ()
      ensures fresh(query) && fresh(index)
    {
      params := Params(false, 0, 0, 0);
      key := OreKey(false, Block(0, 0), Block(0, 0), Params(false, 0, 0, 0));
      query := new OreQuery();
      index := new OreIndex();
    }

    /** The keys that ore_key_setup derives are parameters; a refused block size leaves the key unset. */
    method Init(prfKey: Block, prpKey: Block, blockSize: nat)
      modifies this, query, index
      ensures 1 <= blockSize <= 16 ==> Valid() && key == OreKey(true, prfKey, prpKey, HelperParams(blockSize))
      ensures 1 <= blockSize <= 16 ==> fresh(query.compLeft) && fresh(index.compRight)
      ensures params == Params(true, 32, blockSize, 64)
      ensures !(1 <= blockSize <= 16) ==> key == old(key) && params == HelperParams(blockSize)
      ensures query == old(query) && index == old(index)
    {
      params := HelperParams(blockSize);
      if ValidParams(params) {
        key := OreKey(true, prfKey, prpKey, params);
      }
      var _ := query.Init(params);
      var _ := index.Init(params);
    }

    /** Fills p with the query for (uiVal, iCmp) on a column; for an odd block size the failed setup goes unnoticed, and
        p gets the bytes that the helper's own buffer held, whatever the value. */
    method CreateLeft(o: Oracle, p: array<Byte>, uiLen: nat, iCmp: int, table: Bytes, col: Bytes, uiVal: Word32)
      returns (len: nat)
      requires Valid() && p != query.compLeft && uiLen <= p.Length
      requires uiLen >= LeftLen(params)
      modifies query.compLeft, p
      ensures Valid() && len == LeftLen(params) <= p.Length
      ensures Usable(params)
      ensures QueryOut(o, key, ColumnName(table, col), uiVal, Aim(iCmp), old(query.compLeft[..]), p[..len])
      ensures p[len..] == old(p[len..])
    {
      HelperUsable(params.blockLen);
      len := LeftLen(params);
      QueryInto(o, query, key, p, uiVal, ColumnName(table, col), Aim(iCmp));
    }

    /** Fills p, from byte off on, with the index for (uiVal, uiCounter) on a column; for an odd block size with a nonce
        and what the helper's own buffer held behind it. */
    method CreateRight(o: Oracle, p: array<Byte>, off: nat, uiLen: nat, table: Bytes, col: Bytes, uiCounter: Word32,
                       uiVal: Word32, nonce: Block) returns (len: nat)
      requires Valid() && p != index.compRight && off + uiLen <= p.Length
      requires uiLen >= RightLen(params)
      modifies index.compRight, p
      ensures Valid() && len == RightLen(params) && off + len <= p.Length
      ensures Usable(params)
      ensures IndexOut(o, key, ColumnName(table, col), uiCounter, nonce, uiVal, old(index.compRight[..]),
                       p[off..off + len])
      ensures p[..off] == old(p[..off]) && p[off + len..] == old(p[off + len..])
    {
      HelperUsable(params.blockLen);
      len := RightLen(params);
      ghost var mine: object, buffer: object, sk := this, index.compRight, key;
      assert mine != p && mine != buffer && (index as object) != p;
      IndexInto(o, index, key, p, off, uiVal, ColumnName(table, col), uiCounter, nonce);
      assert key == sk;
    }

    /** Compares a query with an index without any key; 0 means equal, 1 yes, anything else no. */
    method CompareORE(o: Oracle, left: Bytes, right: Bytes, uiCounter: Word32, ghost p: Good) returns (res: Word32)
      requires Ready(p)
      requires |left| >= LeftLen(p) && |right| >= RightLen(p)
      requires Readable(p, left[..LeftLen(p)], right[..RightLen(p)])
      modifies query.compLeft, index.compRight
      ensures res == AsWord32(Compare(o, p, left[..LeftLen(p)], right[..RightLen(p)], uiCounter))
    {
      var lenLeft, lenRight := LeftLen(params), RightLen(params);
      MemCpy(query.compLeft, 0, left[..lenLeft]);
      MemCpy(index.compRight, 0, right[..lenRight]);
      assert query.compLeft[..] == left[..lenLeft];
      assert index.compRight[..] == right[..lenRight];
      var _, r := OreCompare(o, View(query.initialized, query.compLeft[..]),
                             View(index.initialized, index.compRight[..]), params, uiCounter);
      res := AsWord32(r);
    }
  }

  /** As a word the answer is 0, 1, or the largest word for -1, whatever the buffers hold. */
  lemma CompareAsWord(o: Oracle, p: Good, left: Bytes, right: Bytes, rnum: Word)
    requires Readable(p, left, right)
    ensures var r := Compare(o, p, left, right, rnum);
      -1 <= r <= 1 && AsWord32(r) == if r < 0 then 0xFFFF_FFFF else r
  {
    ThreeAnswers(o, p, left, right, rnum);
  }

  /** Values of n bits are compared as they are when the blocks cover n bits. */
  lemma SmallValuesCompare(o: Oracle, sk: GoodKey, cname: Bytes, rnum: Word, nonce: Block, v: Word, x: Word,
                           aim: Byte, left: Bytes, right: Bytes, n: nat)
    requires sk.params.blockLen % 2 == 0 && FitsWord(sk.params) && n <= Width(sk.params) && v < Pow2(n) && x < Pow2(n)
    requires IsQuery(o, sk, cname, v, aim, left) && IsIndex(o, sk, cname, rnum, nonce, x, right)
    requires RowApart(o, sk.params, cname, rnum, aim)
    ensures Readable(sk.params, left, right)
    ensures Compare(o, sk.params, left, right, rnum) == Answer(v, x, aim)
  {
    CompareCorrect(o, sk, cname, rnum, nonce, v, x, aim, left, right);
    Pow2Mono(n, Width(sk.params));
    SmallMod(v, Pow2(Width(sk.params)));
    SmallMod(x, Pow2(Width(sk.params)));
  }

  /** On the helper's parameters the comparison answers for the 32-bit values themselves. */
  lemma HelperCompares(o: Oracle, sk: GoodKey, blockSize: nat, cname: Bytes, rnum: Word, nonce: Block, v: Word32,
                       x: Word32, iCmp: int, left: Bytes, right: Bytes)
    requires 1 <= blockSize <= 16 && blockSize % 2 == 0 && sk.params == HelperParams(blockSize)
    requires IsQuery(o, sk, cname, v, Aim(iCmp), left) && IsIndex(o, sk, cname, rnum, nonce, x, right)
    requires RowApart(o, sk.params, cname, rnum, Aim(iCmp))
    ensures Readable(sk.params, left, right)
    ensures AsWord32(Compare(o, sk.params, left, right, rnum)) == 1 <==> if iCmp > 0 then x < v else x > v
    ensures AsWord32(Compare(o, sk.params, left, right, rnum)) == 0 <==> x == v
  {
    HelperUsable(blockSize);
    Pow2Half(sk.params.nbits);
    SmallValuesCompare(o, sk, cname, rnum, nonce, v, x, Aim(iCmp), left, right, sk.params.nbits);
    AnswerAsWord(v, x, iCmp);
  }

  /** An int answer of -1, 0 or 1 seen as uint32_t. */
  lemma AnswerAsWord(v: nat, x: nat, iCmp: int)
    ensures AsWord32(Answer(v, x, Aim(iCmp))) == 1 <==> if iCmp > 0 then x < v else x > v
    ensures AsWord32(Answer(v, x, Aim(iCmp))) == 0 <==> x == v
  {
  }

  lemma SmallMod(x: nat, m: nat)
    requires x < m
    ensures x % m == x
  {
    DivModUnique(x, m, 0, x);
  }

  lemma Pow2Half(n: nat)
    requires n == 32
    ensures Pow2(n) == 0x1_0000_0000
  {
    Pow2Byte(n - 8);
    Pow2Byte(n - 16);
    Pow2Byte(n - 24);
    Pow2Byte(n - 32);
  }

  /** The client's fixed buffers hold the query exactly for block sizes from 2 on, and the index exactly up to 10. */
  lemma ClientBuffersFit(blockSize: nat)
    requires 1 <= blockSize <= 16
    ensures DEF_ORELEFT_MAXSIZE == 1088 && DEF_ORERIGHT_MAXSIZE == 32800
    ensures LeftLen(HelperParams(blockSize)) <= DEF_ORELEFT_MAXSIZE <==> blockSize >= 2
    ensures RightLen(HelperParams(blockSize)) <= DEF_ORERIGHT_MAXSIZE <==> blockSize <= 10
  {
    LengthsAre(blockSize);
    BlockTable(blockSize);
    SlotTable(blockSize);
  }

  function BlockCount(blockSize: nat): nat
    requires 1 <= blockSize <= 16
  {
    match blockSize
    case 1 => 32 case 2 => 16 case 3 => 11 case 4 => 8 case 5 => 7 case 6 => 6 case 7 => 5 case 8 => 4 case 9 => 4
    case 10 => 4 case 11 => 3 case 12 => 3 case 13 => 3 case 14 => 3 case 15 => 3 case _ => 2
  }

  lemma BlockTable(blockSize: nat)
    requires 1 <= blockSize <= 16
    ensures NBlocks(HelperParams(blockSize)) == BlockCount(blockSize)
  {
    var n := BlockCount(blockSize);
    CeilIsDiv(HelperParams(blockSize).nbits, blockSize);
    assert 0 <= 31 + blockSize - n * blockSize < blockSize;
    DivModUnique(31 + blockSize, blockSize, n, 31 + blockSize - n * blockSize);
  }

  lemma SlotTable(blockSize: nat)
    requires 1 <= blockSize <= 16
    ensures NSlots(HelperParams(blockSize)) == match blockSize
      case 1 => 2 case 2 => 4 case 3 => 8 case 4 => 16 case 5 => 32 case 6 => 64 case 7 => 128 case 8 => 256
      case 9 => 512 case 10 => 1024 case 11 => 2048 case 12 => 4096 case 13 => 8192 case 14 => 16384
      case 15 => 32768 case _ => 65536
  {
    if blockSize >= 8 {
      Pow2Byte(blockSize - 8);
    }
  }

  lemma LengthsAre(blockSize: nat)
    requires 1 <= blockSize <= 16
    ensures LeftLen(HelperParams(blockSize)) == NBlocks(HelperParams(blockSize)) * 36
    ensures RightLen(HelperParams(blockSize))
              == 16 + NBlocks(HelperParams(blockSize)) * (NSlots(HelperParams(blockSize)) * 8)
  {
    var p := HelperParams(blockSize);
    HelperUsable(blockSize);
    BufferLengths(p);
    assert (p.nbits + 7) / 8 == 4 && (p.cmpLen + 7) / 8 == 8;
  }
}
