/**
 ore_setup_helper and ore_compare as they run: loops over blocks that update prefix and block_mask,
 advance the buffer offsets and fill byte buffers.
 */
module OreMethods {
  import opened Bits
  import opened Memory
  import opened Crypto
  import opened OreSpec
  import opened OreBlk

  class OreQuery {
    var initialized: bool
    var compLeft: array<Byte>

    constructor ()
      ensures !initialized && compLeft.Length == 0
    {
      initialized, compLeft := false, new Byte[0];
    }

    /** ore_query_init: malloc leaves the bytes arbitrary. */
    method Init(p: Params) returns (err: Error)
      modifies this
      ensures err == if ValidParams(p) then NoError else ParamsInvalid
      ensures err.NoError? <==> p.initialized && 1 <= p.blockLen <= 16 && p.cmpLen <= 64
      ensures err.NoError? ==> initialized && fresh(compLeft) && compLeft.Length == LeftLen(p)
      ensures !err.NoError? ==> initialized == old(initialized) && compLeft == old(compLeft)
    {
      if !ValidParams(p) {
        return ParamsInvalid;
      }
      compLeft := new Byte[LeftLen(p)];
      initialized := true;
      return NoError;
    }
  }

  class OreIndex {
    var initialized: bool
    var compRight: array<Byte>

    constructor ()
      ensures !initialized && compRight.Length == 0
    {
      initialized, compRight := false, new Byte[0];
    }

    /** ore_index_init */
    method Init(p: Params) returns (err: Error)
      modifies this
      ensures err == if ValidParams(p) then NoError else ParamsInvalid
      ensures err.NoError? <==> p.initialized && 1 <= p.blockLen <= 16 && p.cmpLen <= 64
      ensures err.NoError? ==> initialized && fresh(compRight) && compRight.Length == RightLen(p)
      ensures !err.NoError? ==> initialized == old(initialized) && compRight == old(compRight)
    {
      if !ValidParams(p) {
        return ParamsInvalid;
      }
      compRight := new Byte[RightLen(p)];
      initialized := true;
      return NoError;
    }
  }

  // One left block ------------------------------------------------------

  method WriteLeft(buf: array<Byte>, p: Params, i: nat, off: nat, part: LeftPart)
    requires off == LeftOffset(p, i) && off + 32 + PixBytes(p) <= buf.Length
    requires part.pix < NSlots(p)
    modifies buf
    ensures SameOutside(old(buf[..]), buf[..], off, off + 32 + PixBytes(p))
    ensures ReadLeft(p, buf[..], i) == part
  {
    MemCpy(buf, off, BlockBytes(part.key));
    BlockBack(buf[..], off, part.key);
    ghost var s := buf[..];
    MemCpy(buf, off + 16, BlockBytes(part.tag));
    BlockBack(buf[..], off + 16, part.tag);
    ReadBlockSame(s, buf[..], off);
    s := buf[..];
    MemCpy(buf, off + 32, ToLE(part.pix, PixBytes(p)));
    ReadBlockSame(s, buf[..], off);
    ReadBlockSame(s, buf[..], off + 16);
    SlotNumberFits(p);
    ReadBackSmall(buf[..], off + 32, part.pix, PixBytes(p));
  }

  /** CEIL(block_len, 8) bytes hold a slot number, and CEIL(cmp_len, 8) bytes a tag. */
  lemma {:induction false} CeilCovers(x: nat)
    ensures x <= 8 * Ceil(x, 8)
  {
    if x > 8 {
      CeilCovers(x - 8);
    }
  }

  lemma SlotNumberFits(p: Params)
    ensures NSlots(p) <= Pow2(8 * PixBytes(p))
  {
    CeilCovers(p.blockLen);
    Pow2Mono(p.blockLen, 8 * PixBytes(p));
  }

  lemma TagFits(p: Params)
    ensures Pow2(p.cmpLen) <= Pow2(8 * CmpBytes(p))
  {
    CeilCovers(p.cmpLen);
    Pow2Mono(p.cmpLen, 8 * CmpBytes(p));
  }

  /** The query branch of one round. */
  method QueryBlock(o: Oracle, sk: GoodKey, hashName: Block, buf: array<Byte>, off: nat, i: nat,
                    prefix: Word, curBlock: Word, aim: Byte, ghost cname: Bytes, ghost msg: Word) returns (err: Error)
    requires i < NBlocks(sk.params)
    requires prefix == PrefixAt(sk.params, msg, i) && curBlock == BlockAt(sk.params, msg, i) && hashName == o.sha(cname)
    requires off == LeftOffset(sk.params, i) && off + 32 + PixBytes(sk.params) <= buf.Length
    modifies buf
    ensures err == if sk.params.blockLen % 2 != 0 then PrpBitlenInvalid else NoError
    ensures !err.NoError? ==> buf[..] == old(buf[..])
    ensures err.NoError? ==> ReadLeft(sk.params, buf[..], i) == QueryPart(o, sk, cname, msg, aim, i)
    ensures SameOutside(old(buf[..]), buf[..], off, off + 32 + PixBytes(sk.params))
  {
    var p := sk.params;
    FewBlocks(p);
    var prpKey := o.aes(sk.prpKey, Block(i, prefix));
    var e, pix := PrpEval(o.aes, prpKey, curBlock, p.blockLen, false);
    if !e.NoError? {
      return e;
    }
    var prefixShifted := Shl(prefix, p.blockLen);
    var key := o.aes(sk.prfKey, Block(i, OrWord(prefixShifted, pix)));
    var fcmp := o.aes(hashName, Block(hashName.lo, OrWord(Shl(pix, 8), aim)));
    WriteLeft(buf, p, i, off, LeftPart(key, fcmp, pix));
    return NoError;
  }

  // One right block -----------------------------------------------------

  /** aes_eval_blocks: the cipher on every block of a vector. */
  method AesEvalBlocks(o: Oracle, key: Block, src: array<Block>) returns (dst: array<Block>)
    ensures fresh(dst) && dst.Length == src.Length
    ensures forall j :: 0 <= j < src.Length ==> dst[j] == o.aes(key, src[j])
  {
    dst := new Block[src.Length](_ => Block(0, 0));
    for j := 0 to src.Length
      invariant forall k :: 0 <= k < j ==> dst[k] == o.aes(key, src[k])
    {
      dst[j] := o.aes(key, src[j]);
    }
  }

  /** _eval_keyed_hash_batch_aes_ro: the key is the plaintext of all encryptions under val, masked in a second pass. */
  method EvalKeyedHashBatch(o: Oracle, outlen: nat, keys: array<Block>, val: Block) returns (out: array<Word>)
    requires outlen <= 64
    ensures fresh(out) && out.Length == keys.Length
    ensures forall j :: 0 <= j < keys.Length ==> out[j] == KeyedHash(o, outlen, keys[j], val)
  {
    var outputs := AesEvalBlocks(o, val, keys);
    var outmask := CmpMask(outlen);
    out := new Word[keys.Length](_ => 0);
    for j := 0 to keys.Length
      invariant forall k :: 0 <= k < keys.Length ==> outputs[k] == o.aes(val, keys[k])
      invariant forall k :: 0 <= k < j ==> out[k] == KeyedHash(o, outlen, keys[k], val)
    {
      out[j] := AndWord(outputs[j].lo, outmask);
    }
  }

  ghost predicate SlotRead(p: Params, s: Bytes, i: nat, want: seq<Word>, k: nat)
    requires k < |want|
  {
    RightOffset(p, i, k) + CmpBytes(p) <= |s| && ReadSlot(p, s, i, k) == want[k]
  }

  /** Slots 0 .. n-1 of block i read back as want. */
  ghost predicate SlotsRead(p: Params, s: Bytes, i: nat, want: seq<Word>, n: nat) {
    n <= |want| && forall k: nat :: k < n ==> SlotRead(p, s, i, want, k)
  }

  /** Storing slot n leaves the slots before it as they were. */
  lemma SlotStored(p: Params, s: Bytes, t: Bytes, i: nat, want: seq<Word>, n: nat)
    requires SlotsRead(p, s, i, want, n) && n < |want| && want[n] < Pow2(p.cmpLen)
    requires var off := RightOffset(p, i, n);
      Holds(t, off, ToLE(want[n], CmpBytes(p))) && SameOutside(s, t, off, off + CmpBytes(p))
    ensures SlotsRead(p, t, i, want, n + 1)
  {
    TagFits(p);
    ReadBackSmall(t, RightOffset(p, i, n), want[n], CmpBytes(p));
    SlotsKept(p, s, t, i, want, n, RightOffset(p, i, n), RightOffset(p, i, n + 1));
  }

  method TagSlot(o: Oracle, cmpLen: nat, hashName: Block, blockRnum: Block, j: Word, hash: Word, val: Word, cur: Word,
                 ghost cname: Bytes, ghost rnum: Word) returns (r: Word)
    requires cmpLen <= 64 && hash < Pow2(cmpLen) && hashName == o.sha(cname) && blockRnum == Block(rnum, 0)
    ensures r == TaggedSlot(o, cmpLen, cname, rnum, j, hash, val, cur)
  {
    var gMask := CmpMask(cmpLen);
    var v := if val == cur then ORE_EQUAL else if val < cur then ORE_SMALL else ORE_LARGE;
    r := hash;
    if v != ORE_EQUAL {
      var fcmp := o.aes(hashName, Block(hashName.lo, OrWord(Shl(j, 8), v)));
      var gcmp := o.aes(blockRnum, fcmp);
      r := XorWord(r, AndWord(gcmp.lo, gMask));
    }
  }

  /** The words that the slots of block i have to hold. */
  ghost function IndexSlots(o: Oracle, sk: GoodKey, cname: Bytes, rnum: Word, nonce: Block, msg: Word,
                            i: nat): (want: seq<Word>)
    requires i < NBlocks(sk.params)
    ensures |want| == NSlots(sk.params)
  {
    seq(NSlots(sk.params), j requires 0 <= j < NSlots(sk.params) => IndexSlot(o, sk, cname, rnum, nonce, msg, i, j))
  }

  /** The loop over the slots of one block: tags every slot and stores it. */
  method StoreSlots(o: Oracle, p: Params, hashName: Block, blockRnum: Block, buf: array<Byte>, off: nat, i: nat,
                    curBlock: Word, piInv: array<Word>, r: array<Word>, ghost cname: Bytes, ghost rnum: Word,
                    ghost want: seq<Word>)
    requires ValidParams(p) && hashName == o.sha(cname) && blockRnum == Block(rnum, 0)
    requires off == RightOffset(p, i, 0) && off + RightBlockLen(p) <= buf.Length
    requires piInv.Length == r.Length == NSlots(p) == |want| <= 0x1_0000 && piInv != r
    requires forall j :: 0 <= j < NSlots(p) ==>
      r[j] < Pow2(p.cmpLen) && want[j] == TaggedSlot(o, p.cmpLen, cname, rnum, j, r[j], piInv[j], curBlock)
    modifies buf, r
    ensures SlotsRead(p, buf[..], i, want, NSlots(p))
    ensures SameOutside(old(buf[..]), buf[..], off, off + RightBlockLen(p))
  {
    var at := off;
    for j := 0 to r.Length
      invariant at == RightOffset(p, i, j)
      invariant forall k :: j <= k < NSlots(p) ==> r[k] == old(r[k])
      invariant SlotsRead(p, buf[..], i, want, j)
      invariant SameOutside(old(buf[..]), buf[..], off, off + RightBlockLen(p))
    {
      r[j] := TagSlot(o, p.cmpLen, hashName, blockRnum, j, r[j], piInv[j], curBlock, cname, rnum);
      TimesMono(j + 1, NSlots(p), CmpBytes(p));
      ghost var s := buf[..];
      MemCpy(buf, at, ToLE(r[j], CmpBytes(p)));
      SlotStored(p, s, buf[..], i, want, j);
      at := at + CmpBytes(p);
    }
  }

  /** The inputs of all slots, then the cipher on all of them. */
  method SlotKeys(o: Oracle, sk: GoodKey, i: nat, prefix: Word, ghost msg: Word) returns (keys: array<Block>)
    requires i < NBlocks(sk.params) && prefix == PrefixAt(sk.params, msg, i) && NSlots(sk.params) <= 0x1_0000
    ensures fresh(keys) && keys.Length == NSlots(sk.params)
    ensures forall j :: 0 <= j < keys.Length ==> keys[j] == SlotKey(o, sk, msg, i, j)
  {
    FewBlocks(sk.params);
    var inputs := new Block[NSlots(sk.params)](_ => Block(0, 0));
    var prefixShifted := Shl(prefix, sk.params.blockLen);
    for j := 0 to inputs.Length
      invariant forall k :: 0 <= k < j ==> inputs[k] == SlotInput(sk.params, msg, i, k)
    {
      inputs[j] := Block(i, OrWord(prefixShifted, j));
    }
    keys := AesEvalBlocks(o, sk.prfKey, inputs);
  }

  /** The index branch of one round. */
  method IndexBlock(o: Oracle, sk: GoodKey, hashName: Block, blockRnum: Block, buf: array<Byte>, off: nat, i: nat,
                    prefix: Word, curBlock: Word, nonce: Block, ghost cname: Bytes, ghost rnum: Word, ghost msg: Word)
    returns (err: Error)
    requires i < NBlocks(sk.params)
    requires prefix == PrefixAt(sk.params, msg, i) && curBlock == BlockAt(sk.params, msg, i)
    requires hashName == o.sha(cname) && blockRnum == Block(rnum, 0)
    requires off == RightOffset(sk.params, i, 0) && off + RightBlockLen(sk.params) <= buf.Length
    modifies buf
    ensures err == if sk.params.blockLen % 2 != 0 then PrpBitlenInvalid else NoError
    ensures !err.NoError? ==> buf[..] == old(buf[..])
    ensures err.NoError? ==>
              SlotsRead(sk.params, buf[..], i, IndexSlots(o, sk, cname, rnum, nonce, msg, i), NSlots(sk.params))
    ensures SameOutside(old(buf[..]), buf[..], off, off + RightBlockLen(sk.params))
  {
    var p := sk.params;
    FewBlocks(p);
    Pow2Mono(p.blockLen, 16);
    Pow2Byte(0);
    Pow2Byte(8);
    var prpKey := o.aes(sk.prpKey, Block(i, prefix));
    var keys := SlotKeys(o, sk, i, prefix, msg);
    var piInv := new Word[NSlots(p)](_ => 0);
    var e := PrpEvalAll(o.aes, piInv, prpKey, p.blockLen, true);
    if !e.NoError? {
      return e;
    }
    var r := EvalKeyedHashBatch(o, p.cmpLen, keys, nonce);
    ghost var want := IndexSlots(o, sk, cname, rnum, nonce, msg, i);
    StoreSlots(o, p, hashName, blockRnum, buf, off, i, curBlock, piInv, r, cname, rnum, want);
    return NoError;
  }

  // Setup ---------------------------------------------------------------

  ghost predicate PartRead(p: Params, s: Bytes, want: seq<LeftPart>, i: nat)
    requires i < |want|
  {
    LeftOffset(p, i) + 32 + PixBytes(p) <= |s| && ReadLeft(p, s, i) == want[i]
  }

  /** The left blocks before n read back as want. */
  ghost predicate PartsRead(p: Params, s: Bytes, want: seq<LeftPart>, n: nat) {
    n <= |want| && forall i: nat :: i < n ==> PartRead(p, s, want, i)
  }

  ghost predicate TableRead(p: Params, s: Bytes, want: seq<seq<Word>>, i: nat)
    requires i < |want|
  {
    |want[i]| == NSlots(p) && SlotsRead(p, s, i, want[i], NSlots(p))
  }

  /** The right blocks before n read back as want. */
  ghost predicate TablesRead(p: Params, s: Bytes, want: seq<seq<Word>>, n: nat) {
    n <= |want| && forall i: nat :: i < n ==> TableRead(p, s, want, i)
  }

  lemma SameSuffix(s: Bytes, t: Bytes, lo: nat, hi: nat, from: nat)
    requires SameOutside(s, t, lo, hi) && hi <= from <= |s|
    ensures s[from..] == t[from..]
  {
  }

  lemma PartsKept(p: Params, s: Bytes, t: Bytes, want: seq<LeftPart>, n: nat, hi: nat)
    requires PixBytes(p) <= Ceil(p.nbits, 8)
    requires PartsRead(p, s, want, n) && SameOutside(s, t, LeftOffset(p, n), hi)
    ensures PartsRead(p, t, want, n)
  {
    forall i: nat | i < n
      ensures PartRead(p, t, want, i)
    {
      assert PartRead(p, s, want, i);
      TimesMono(i + 1, n, LeftBlockLen(p));
      var off := LeftOffset(p, i);
      ReadBlockSame(s, t, off);
      ReadBlockSame(s, t, off + 16);
      ReadLESame(s, t, off + 32, PixBytes(p));
    }
  }

  lemma SlotsKept(p: Params, s: Bytes, t: Bytes, i: nat, want: seq<Word>, n: nat, lo: nat, hi: nat)
    requires SlotsRead(p, s, i, want, n) && SameOutside(s, t, lo, hi) && RightOffset(p, i, n) <= lo
    ensures SlotsRead(p, t, i, want, n)
  {
    forall j: nat | j < n
      ensures SlotRead(p, t, i, want, j)
    {
      assert SlotRead(p, s, i, want, j);
      TimesMono(j + 1, n, CmpBytes(p));
      ReadLESame(s, t, RightOffset(p, i, j), CmpBytes(p));
    }
  }

  /** Writing table n keeps the tables before it. */
  lemma TablesGrow(p: Params, s: Bytes, t: Bytes, want: seq<seq<Word>>, n: nat, hi: nat)
    requires TablesRead(p, s, want, n) && SameOutside(s, t, RightOffset(p, n, 0), hi)
    requires n < |want| && |want[n]| == NSlots(p) && SlotsRead(p, t, n, want[n], NSlots(p))
    ensures TablesRead(p, t, want, n + 1)
  {
    forall i: nat | i < n
      ensures TableRead(p, t, want, i)
    {
      assert TableRead(p, s, want, i);
      TimesMono(i + 1, n, RightBlockLen(p));
      SlotsKept(p, s, t, i, want[i], NSlots(p), RightOffset(p, n, 0), hi);
    }
  }

  ghost function QueryParts(o: Oracle, sk: GoodKey, cname: Bytes, msg: Word, aim: Byte): (want: seq<LeftPart>)
    ensures |want| == NBlocks(sk.params)
    ensures forall i :: 0 <= i < |want| ==> want[i] == QueryPart(o, sk, cname, msg, aim, i)
  {
    seq(NBlocks(sk.params), i requires 0 <= i < NBlocks(sk.params) =>
      QueryPart(o, sk, cname, msg, aim, i))
  }

  ghost function IndexTables(o: Oracle, sk: GoodKey, cname: Bytes, rnum: Word, nonce: Block,
                             msg: Word): (want: seq<seq<Word>>)
    ensures |want| == NBlocks(sk.params)
    ensures forall i :: 0 <= i < |want| ==> want[i] == IndexSlots(o, sk, cname, rnum, nonce, msg, i)
  {
    seq(NBlocks(sk.params), i requires 0 <= i < NBlocks(sk.params) =>
      IndexSlots(o, sk, cname, rnum, nonce, msg, i))
  }

  lemma PartsMakeQuery(o: Oracle, sk: GoodKey, cname: Bytes, msg: Word, aim: Byte, s: Bytes)
    requires LeftLen(sk.params) <= |s|
    requires PartsRead(sk.params, s, QueryParts(o, sk, cname, msg, aim), NBlocks(sk.params))
    ensures IsQuery(o, sk, cname, msg, aim, s)
  {
    forall i: nat | i < NBlocks(sk.params)
      ensures PartIs(o, sk, cname, msg, aim, s, i)
    {
      assert PartRead(sk.params, s, QueryParts(o, sk, cname, msg, aim), i);
    }
  }

  lemma TablesMakeIndex(o: Oracle, sk: GoodKey, cname: Bytes, rnum: Word, nonce: Block, msg: Word, s: Bytes)
    requires RightLen(sk.params) <= |s| && ReadBlock(s, 0) == nonce
    requires TablesRead(sk.params, s, IndexTables(o, sk, cname, rnum, nonce, msg), NBlocks(sk.params))
    ensures IsIndex(o, sk, cname, rnum, nonce, msg, s)
  {
    forall i: nat, j: nat | i < NBlocks(sk.params) && j < NSlots(sk.params)
      ensures SlotIs(o, sk, cname, rnum, nonce, msg, s, i, j)
    {
      var want := IndexTables(o, sk, cname, rnum, nonce, msg);
      assert TableRead(sk.params, s, want, i);
      assert SlotRead(sk.params, s, i, want[i], j);
    }
  }

  /** ore_setup_helper. With an index it fills the index for (msg, rnum); with only a query it fills the query for
      (msg, aim). The nonce stands for the next block of the generator. An error leaves the buffer as it was, but for
      an odd width, where the nonce is already in the index. */
  method SetupHelper(o: Oracle, ctxt: OreIndex?, cque: OreQuery?, sk: OreKey, msg: Word, cname: Bytes, rnum: Word,
                     aim: Byte, nonce: Block) returns (err: Error)
    requires ValidParams(sk.params) ==> Usable(sk.params)
    requires ValidParams(sk.params) && ctxt != null ==> RightLen(sk.params) <= ctxt.compRight.Length
    requires ValidParams(sk.params) && ctxt == null && cque != null ==> LeftLen(sk.params) <= cque.compLeft.Length
    modifies if ctxt != null then {ctxt.compRight} else if cque != null then {cque.compLeft} else {}
    ensures err == SetupError(ctxt, cque, sk)
    ensures err.NoError? && ctxt != null ==> IsIndex(o, sk, cname, rnum, nonce, msg, ctxt.compRight[..])
    ensures err.NoError? && ctxt == null ==> IsQuery(o, sk, cname, msg, aim, cque.compLeft[..])
    ensures !err.NoError? && cque != null && ctxt == null ==> cque.compLeft[..] == old(cque.compLeft[..])
    ensures !err.NoError? && ctxt != null ==>
              ctxt.compRight[..] == if err.PrpBitlenInvalid? then BlockBytes(nonce) + old(ctxt.compRight[16..])
                                    else old(ctxt.compRight[..])
    ensures err.NoError? && ctxt == null ==>
              cque.compLeft[LeftLen(sk.params)..] == old(cque.compLeft[LeftLen(sk.params)..])
    ensures err.NoError? && ctxt != null ==>
              ctxt.compRight[RightLen(sk.params)..] == old(ctxt.compRight[RightLen(sk.params)..])
  {
    var isQuery := ctxt == null;
    if !sk.initialized {
      return SkNotInitialized;
    }
    if isQuery {
      if cque == null {
        return NullPointer;
      }
      if !cque.initialized {
        return CtxtNotInitialized;
      }
    } else if !ctxt.initialized {
      return CtxtNotInitialized;
    }
    if !ValidParams(sk.params) {
      return ParamsInvalid;
    }
    if isQuery {
      err := SetupQuery(o, cque.compLeft, sk, msg, cname, aim);
    } else {
      err := SetupIndex(o, ctxt.compRight, sk, msg, cname, rnum, nonce);
    }
  }

  /** ore_query_ui: a query in a buffer of its own. */
  method OreQueryUi(o: Oracle, src: Word, sk: OreKey, cname: Bytes, aim: Byte)
    returns (err: Error, dst: array<Byte>)
    requires ValidParams(sk.params) ==> Usable(sk.params)
    ensures err == UiError(sk)
    ensures err.NoError? ==> fresh(dst) && dst.Length == LeftLen(sk.params) && IsQuery(o, sk, cname, src, aim, dst[..])
  {
    var queryTmp := new OreQuery();
    dst := queryTmp.compLeft;
    err := queryTmp.Init(sk.params);
    if !err.NoError? {
      return;
    }
    err := SetupHelper(o, null, queryTmp, sk, src, cname, 0, aim, Block(0, 0));
    if !err.NoError? {
      return;
    }
    dst := queryTmp.compLeft;
  }

  /** ore_index_ui: an index in a buffer of its own. */
  method OreIndexUi(o: Oracle, src: Word, sk: OreKey, cname: Bytes, rnum: Word, nonce: Block)
    returns (err: Error, dst: array<Byte>)
    requires ValidParams(sk.params) ==> Usable(sk.params)
    ensures err == UiError(sk)
    ensures err.NoError? ==>
              fresh(dst) && dst.Length == RightLen(sk.params) && IsIndex(o, sk, cname, rnum, nonce, src, dst[..])
  {
    var indexTmp := new OreIndex();
    dst := indexTmp.compRight;
    err := indexTmp.Init(sk.params);
    if !err.NoError? {
      return;
    }
    err := SetupHelper(o, indexTmp, null, sk, src, cname, rnum, 0, nonce);
    if !err.NoError? {
      return;
    }
    dst := indexTmp.compRight;
  }

  /** The buffer comes first, so refused parameters are found before a missing key. */
  function UiError(sk: OreKey): (err: Error)
    ensures err.NoError? <==> sk.initialized && ValidParams(sk.params) && sk.params.blockLen % 2 == 0
    ensures err.ParamsInvalid? <==> !ValidParams(sk.params)
    ensures err.SkNotInitialized? <==> ValidParams(sk.params) && !sk.initialized
  {
    if !ValidParams(sk.params) then ParamsInvalid
    else if !sk.initialized then SkNotInitialized
    else if sk.params.blockLen % 2 != 0 then PrpBitlenInvalid
    else NoError
  }

  function SetupError(ctxt: OreIndex?, cque: OreQuery?, sk: OreKey): (err: Error)
    reads ctxt, cque
    ensures err.SkNotInitialized? <==> !sk.initialized
    ensures err.NullPointer? <==> sk.initialized && ctxt == null && cque == null
    ensures err.CtxtNotInitialized? <==>
              sk.initialized && if ctxt != null then !ctxt.initialized else cque != null && !cque.initialized
    ensures err.NoError? ==> ValidParams(sk.params) && sk.params.blockLen % 2 == 0
    ensures err.ParamsInvalid? ==> !ValidParams(sk.params)
    ensures err.PrpBitlenInvalid? ==> ValidParams(sk.params) && sk.params.blockLen % 2 != 0
  {
    if !sk.initialized then SkNotInitialized
    else if ctxt == null && cque == null then NullPointer
    else if ctxt == null && !cque.initialized then CtxtNotInitialized
    else if ctxt != null && !ctxt.initialized then CtxtNotInitialized
    else if !ValidParams(sk.params) then ParamsInvalid
    else if sk.params.blockLen % 2 != 0 then PrpBitlenInvalid
    else NoError
  }

  /** The next round's prefix and mask. */
  method NextRound(p: Good, i: nat, prefix: Word, curBlock: Word, blockMask: Word, ghost msg: Word)
    returns (prefix': Word, blockMask': Word)
    requires i < NBlocks(p)
    requires prefix == PrefixAt(p, msg, i) && blockMask == MaskAt(p, i) && curBlock == BlockAt(p, msg, i)
    ensures prefix' == PrefixAt(p, msg, i + 1) && blockMask' == MaskAt(p, i + 1)
  {
    ShiftedWord(blockMask, p.blockLen);
    blockMask' := High(blockMask, p.blockLen);
    prefix' := OrWord(Shl(prefix, p.blockLen), curBlock);
  }

  method CurBlock(p: Good, i: nat, blockMask: Word, msg: Word) returns (curBlock: Word)
    requires i < NBlocks(p) && blockMask == MaskAt(p, i)
    ensures curBlock == BlockAt(p, msg, i)
  {
    ShiftedWord(AndWord(msg, blockMask), ShiftAt(p, i));
    curBlock := High(AndWord(msg, blockMask), ShiftAt(p, i));
  }

  /** One round of the loop for a query. */
  method QueryRound(o: Oracle, buf: array<Byte>, sk: GoodKey, hashName: Block, i: nat, prefix: Word, curBlock: Word,
                    off: nat, aim: Byte, ghost cname: Bytes, ghost msg: Word, ghost want: seq<LeftPart>)
    returns (err: Error)
    requires i < NBlocks(sk.params) && LeftLen(sk.params) <= buf.Length
    requires prefix == PrefixAt(sk.params, msg, i) && curBlock == BlockAt(sk.params, msg, i)
    requires off == LeftOffset(sk.params, i) && hashName == o.sha(cname)
    requires want == QueryParts(o, sk, cname, msg, aim) && PartsRead(sk.params, buf[..], want, i)
    modifies buf
    ensures err == if sk.params.blockLen % 2 != 0 then PrpBitlenInvalid else NoError
    ensures err.NoError? ==> PartsRead(sk.params, buf[..], want, i + 1)
    ensures !err.NoError? ==> buf[..] == old(buf[..])
    ensures buf[LeftLen(sk.params)..] == old(buf[LeftLen(sk.params)..])
  {
    ghost var s := buf[..];
    LeftInside(sk.params, i);
    err := QueryBlock(o, sk, hashName, buf, off, i, prefix, curBlock, aim, cname, msg);
    SameSuffix(s, buf[..], off, off + 32 + PixBytes(sk.params), LeftLen(sk.params));
    PartsKept(sk.params, s, buf[..], want, i, off + 32 + PixBytes(sk.params));
  }

  /** The loop of ore_setup_helper over the blocks of a query. */
  method SetupQuery(o: Oracle, buf: array<Byte>, sk: GoodKey, msg: Word, cname: Bytes, aim: Byte) returns (err: Error)
    requires LeftLen(sk.params) <= buf.Length
    modifies buf
    ensures err == if sk.params.blockLen % 2 != 0 then PrpBitlenInvalid else NoError
    ensures err.NoError? ==> IsQuery(o, sk, cname, msg, aim, buf[..])
    ensures !err.NoError? ==> buf[..] == old(buf[..])
    ensures buf[LeftLen(sk.params)..] == old(buf[LeftLen(sk.params)..])
  {
    var p := sk.params;
    var hashName := o.sha(cname);
    ghost var want := QueryParts(o, sk, cname, msg, aim);
    var prefix: Word, blockMask: Word, off := 0, MaskAt(p, 0), 0;
    FewBlocks(p);
    for i := 0 to NBlocks(p)
      invariant prefix == PrefixAt(p, msg, i) && blockMask == MaskAt(p, i) && off == LeftOffset(p, i)
      invariant i > 0 ==> p.blockLen % 2 == 0
      invariant PartsRead(p, buf[..], want, i)
      invariant i == 0 ==> buf[..] == old(buf[..])
      invariant buf[LeftLen(p)..] == old(buf[LeftLen(p)..])
    {
      var curBlock := CurBlock(p, i, blockMask, msg);
      var e := QueryRound(o, buf, sk, hashName, i, prefix, curBlock, off, aim, cname, msg, want);
      if !e.NoError? {
        return e;
      }
      prefix, blockMask := NextRound(p, i, prefix, curBlock, blockMask, msg);
      off := off + LeftBlockLen(p);
    }
    PartsMakeQuery(o, sk, cname, msg, aim, buf[..]);
    return NoError;
  }

  /** Before round i: the nonce and the blocks so far are in place, nothing else of what was there has changed. */
  ghost predicate IndexDone(p: Params, s: Bytes, was: Bytes, nonce: Block, want: seq<seq<Word>>, i: nat) {
    && RightLen(p) <= |s| == |was| && s[RightLen(p)..] == was[RightLen(p)..]
    && ReadBlock(s, 0) == nonce && TablesRead(p, s, want, i)
    && (i == 0 ==> s == was)
  }

  /** One round of the loop for an index. */
  method IndexRound(o: Oracle, buf: array<Byte>, sk: GoodKey, hashName: Block, blockRnum: Block, i: nat, prefix: Word,
                    curBlock: Word, off: nat, nonce: Block, ghost cname: Bytes, ghost rnum: Word, ghost msg: Word,
                    ghost want: seq<seq<Word>>, ghost was: Bytes) returns (err: Error)
    requires i < NBlocks(sk.params) && IndexDone(sk.params, buf[..], was, nonce, want, i)
    requires prefix == PrefixAt(sk.params, msg, i) && curBlock == BlockAt(sk.params, msg, i)
    requires off == RightOffset(sk.params, i, 0) && hashName == o.sha(cname) && blockRnum == Block(rnum, 0)
    requires want == IndexTables(o, sk, cname, rnum, nonce, msg)
    modifies buf
    ensures err == if sk.params.blockLen % 2 != 0 then PrpBitlenInvalid else NoError
    ensures err.NoError? ==> IndexDone(sk.params, buf[..], was, nonce, want, i + 1)
    ensures !err.NoError? ==> buf[..] == old(buf[..])
  {
    ghost var s, hi := buf[..], off + RightBlockLen(sk.params);
    TimesMono(i + 1, NBlocks(sk.params), RightBlockLen(sk.params));
    err := IndexBlock(o, sk, hashName, blockRnum, buf, off, i, prefix, curBlock, nonce, cname, rnum, msg);
    SameSuffix(s, buf[..], off, hi, RightLen(sk.params));
    ReadBlockSame(s, buf[..], 0);
    if err.NoError? {
      TablesGrow(sk.params, s, buf[..], want, i, hi);
    }
  }

  /** The whole body of that loop: cut the block out, write its table, move prefix and mask on. */
  method IndexTurn(o: Oracle, buf: array<Byte>, sk: GoodKey, msg: Word, hashName: Block, blockRnum: Block, i: nat,
                   prefix: Word, blockMask: Word, off: nat, nonce: Block, ghost cname: Bytes, ghost rnum: Word,
                   ghost want: seq<seq<Word>>, ghost was: Bytes)
    returns (err: Error, prefix': Word, blockMask': Word)
    requires i < NBlocks(sk.params) && IndexDone(sk.params, buf[..], was, nonce, want, i)
    requires prefix == PrefixAt(sk.params, msg, i) && blockMask == MaskAt(sk.params, i)
    requires off == RightOffset(sk.params, i, 0) && hashName == o.sha(cname) && blockRnum == Block(rnum, 0)
    requires want == IndexTables(o, sk, cname, rnum, nonce, msg)
    modifies buf
    ensures err == if sk.params.blockLen % 2 != 0 then PrpBitlenInvalid else NoError
    ensures err.NoError? ==> IndexDone(sk.params, buf[..], was, nonce, want, i + 1)
    ensures !err.NoError? ==> buf[..] == old(buf[..])
    ensures prefix' == PrefixAt(sk.params, msg, i + 1) && blockMask' == MaskAt(sk.params, i + 1)
  {
    var curBlock := CurBlock(sk.params, i, blockMask, msg);
    err := IndexRound(o, buf, sk, hashName, blockRnum, i, prefix, curBlock, off, nonce, cname, rnum, msg, want, was);
    prefix', blockMask' := NextRound(sk.params, i, prefix, curBlock, blockMask, msg);
  }

  /** The loop of ore_setup_helper over the blocks of an index, once the nonce is stored. */
  method IndexLoop(o: Oracle, buf: array<Byte>, sk: GoodKey, msg: Word, hashName: Block, blockRnum: Block, nonce: Block,
                   ghost cname: Bytes, ghost rnum: Word, ghost want: seq<seq<Word>>) returns (err: Error)
    requires IndexDone(sk.params, buf[..], buf[..], nonce, want, 0)
    requires hashName == o.sha(cname) && blockRnum == Block(rnum, 0) &&
             want == IndexTables(o, sk, cname, rnum, nonce, msg)
    modifies buf
    ensures err == if sk.params.blockLen % 2 != 0 then PrpBitlenInvalid else NoError
    ensures err.NoError? ==> IndexDone(sk.params, buf[..], old(buf[..]), nonce, want, NBlocks(sk.params))
    ensures !err.NoError? ==> buf[..] == old(buf[..])
  {
    var p := sk.params;
    var prefix: Word, blockMask: Word, off := 0, MaskAt(p, 0), 16;
    FewBlocks(p);
    ghost var was := buf[..];
    for i := 0 to NBlocks(p)
      invariant prefix == PrefixAt(p, msg, i) && blockMask == MaskAt(p, i) && off == RightOffset(p, i, 0)
      invariant i > 0 ==> p.blockLen % 2 == 0
      invariant IndexDone(p, buf[..], was, nonce, want, i)
    {
      var e;
      e, prefix, blockMask := IndexTurn(o, buf, sk, msg, hashName, blockRnum, i, prefix, blockMask, off, nonce, cname,
                                        rnum, want, was);
      if !e.NoError? {
        return e;
      }
      off := off + RightBlockLen(p);
    }
    return NoError;
  }

  lemma NonceInFront(s: Bytes, t: Bytes, nonce: Bytes)
    requires Holds(t, 0, nonce) && SameOutside(s, t, 0, |nonce|)
    ensures |nonce| <= |s| && t == nonce + s[|nonce|..]
  {
  }

  /** The index branch of ore_setup_helper: the nonce, then the blocks; an odd width leaves only the nonce written. */
  method SetupIndex(o: Oracle, buf: array<Byte>, sk: GoodKey, msg: Word, cname: Bytes, rnum: Word, nonce: Block)
    returns (err: Error)
    requires RightLen(sk.params) <= buf.Length
    modifies buf
    ensures err == if sk.params.blockLen % 2 != 0 then PrpBitlenInvalid else NoError
    ensures err.NoError? ==> IsIndex(o, sk, cname, rnum, nonce, msg, buf[..])
    ensures !err.NoError? ==> buf[..] == BlockBytes(nonce) + old(buf[16..])
    ensures buf[RightLen(sk.params)..] == old(buf[RightLen(sk.params)..])
  {
    MemCpy(buf, 0, BlockBytes(nonce));
    BlockBack(buf[..], 0, nonce);
    NonceInFront(old(buf[..]), buf[..], BlockBytes(nonce));
    assert buf[RightLen(sk.params)..] == old(buf[RightLen(sk.params)..]);
    err := IndexLoop(o, buf, sk, msg, o.sha(cname), Block(rnum, 0), nonce, cname, rnum,
                     IndexTables(o, sk, cname, rnum, nonce, msg));
    if err.NoError? {
      TablesMakeIndex(o, sk, cname, rnum, nonce, msg, buf[..]);
    }
  }

  // Comparison ----------------------------------------------------------

  /** A buffer handed to the comparison, which only reads it. */
  datatype View = View(initialized: bool, bytes: Bytes)

  /** ore_compare */
  method OreCompare(o: Oracle, ctxt1: View, ctxt2: View, p: Params, rnum: Word) returns (err: Error, result: int)
    requires ctxt1.initialized && ctxt2.initialized && ValidParams(p) ==>
               Usable(p) && Readable(p, ctxt1.bytes, ctxt2.bytes)
    ensures err == if !ctxt1.initialized || !ctxt2.initialized then CtxtNotInitialized
                   else if !ValidParams(p) then ParamsInvalid
                   else NoError
    ensures err.NoError? ==> result == Compare(o, p, ctxt1.bytes, ctxt2.bytes, rnum)
  {
    if !ctxt1.initialized || !ctxt2.initialized {
      return CtxtNotInitialized, 0;
    }
    if !ValidParams(p) {
      return ParamsInvalid, 0;
    }
    result := WalkBlocks(o, ctxt1.bytes, ctxt2.bytes, p, rnum);
    return NoError, result;
  }

  lemma {:induction false} FirstIs(steps: seq<int>, i: nat, k: nat)
    requires i <= k < |steps| && steps[k] != 0 && forall j :: i <= j < k ==> steps[j] == 0
    ensures FirstDecision(steps, i) == steps[k]
    decreases k - i
  {
    if i < k {
      FirstIs(steps, i + 1, k);
    }
  }

  /** The loop of ore_compare over the blocks. */
  method WalkBlocks(o: Oracle, left: Bytes, right: Bytes, p: Good, rnum: Word) returns (result: int)
    requires Readable(p, left, right)
    ensures result == Compare(o, p, left, right, rnum)
  {
    ghost var steps := CompareSteps(o, p, left, right, rnum);
    var nonce := ReadBlock(right, 0);
    var lenLeftBlock, lenRightBlock := LeftBlockLen(p), RightBlockLen(p);
    var offsetLeft, offsetRight := 0, 16;
    for i := 0 to NBlocks(p)
      invariant offsetLeft == Times(i, lenLeftBlock) && offsetRight == 16 + Times(i, lenRightBlock)
      invariant FirstDecision(steps, i) == FirstDecision(steps, 0)
    {
      assert BlockReadable(p, left, right, i);
      var c := CompareOneBlock(o, p, left, right, nonce, rnum, i, offsetLeft, offsetRight);
      if c != 0 {
        return c;
      }
      offsetLeft := offsetLeft + lenLeftBlock;
      offsetRight := offsetRight + lenRightBlock;
    }
    return 0;
  }

  /** One round of ore_compare: 0 to go on with the next block. */
  method CompareOneBlock(o: Oracle, p: Good, left: Bytes, right: Bytes, nonce: Block, rnum: Word, i: nat,
                         offsetLeft: nat, offsetRight: nat) returns (c: int)
    requires 16 <= |right| && BlockReadable(p, left, right, i) && nonce == ReadBlock(right, 0)
    requires offsetLeft == LeftOffset(p, i) && offsetRight == RightOffset(p, i, 0)
    ensures c == CompareBlock(o, p, left, right, rnum, i)
  {
    assert offsetLeft + 32 + PixBytes(p) <= |left|;
    var index := ReadLE(left, offsetLeft + 32, PixBytes(p));
    var fcmp := ReadBlock(left, offsetLeft + 16);
    var keyBlock := ReadBlock(left, offsetLeft);
    var r: nat := KeyedHash(o, p.cmpLen, keyBlock, nonce);
    var gMask := CmpMask(p.cmpLen);
    var at := offsetRight + Times(index, CmpBytes(p));
    var slot := ReadLE(right, at, CmpBytes(p));
    r := Xor(r, And(slot, gMask));
    if r == 0 {
      return 0;
    }
    var gcmp := o.aes(Block(rnum, 0), fcmp);
    var g := And(gcmp.lo, gMask);
    return if g == r then 1 else -1;
  }

  // Several words -------------------------------------------------------

  /** How many whole records of len bytes fit in n bytes. */
  function Whole(n: nat, len: nat): nat
    requires len > 0
  {
    if n < len then 0 else 1 + Whole(n - len, len)
  }

  lemma {:induction false} WholeIsDiv(n: nat, len: nat)
    requires len > 0
    ensures Whole(n, len) == n / len
  {
    if n < len {
      DivModUnique(n, len, 0, n);
    } else {
      WholeIsDiv(n - len, len);
      DivModUnique(n, len, Whole(n, len), (n - len) % len);
    }
  }

  lemma {:induction false} WholeFits(n: nat, len: nat, k: nat)
    requires len > 0 && k <= Whole(n, len)
    ensures Times(k, len) <= n
  {
    if k > 0 {
      WholeFits(n - len, len, k - 1);
    }
  }

  /** The number of words that both buffers hold. */
  function CommonWords(p: Params, query: Bytes, index: Bytes): nat
    requires LeftLen(p) > 0
  {
    var q, x := Whole(|query|, LeftLen(p)), Whole(|index|, RightLen(p));
    if q > x then x else q
  }

  function WordLeft(p: Params, query: Bytes, k: nat): Bytes
    requires LeftLen(p) > 0 && k <= Whole(|query|, LeftLen(p))
  {
    WholeFits(|query|, LeftLen(p), k);
    query[Times(k, LeftLen(p))..]
  }

  function WordRight(p: Params, index: Bytes, k: nat): Bytes
    requires k <= Whole(|index|, RightLen(p))
  {
    WholeFits(|index|, RightLen(p), k);
    index[Times(k, RightLen(p))..]
  }

  predicate WordReadable(p: Good, query: Bytes, index: Bytes, k: nat)
    requires LeftLen(p) > 0 && k < CommonWords(p, query, index)
  {
    Readable(p, WordLeft(p, query, k), WordRight(p, index, k))
  }

  predicate AllReadable(p: Good, query: Bytes, index: Bytes)
    requires LeftLen(p) > 0
  {
    forall k: nat :: k < CommonWords(p, query, index) ==> WordReadable(p, query, index, k)
  }

  /** How word k compares. */
  function WordStep(o: Oracle, p: Good, query: Bytes, index: Bytes, rnum: Word, k: nat): int
    requires LeftLen(p) > 0 && k < CommonWords(p, query, index) && WordReadable(p, query, index, k)
  {
    Compare(o, p, WordLeft(p, query, k), WordRight(p, index, k), rnum)
  }

  function WordSteps(o: Oracle, p: Good, query: Bytes, index: Bytes, rnum: Word): (steps: seq<int>)
    requires LeftLen(p) > 0 && AllReadable(p, query, index)
    ensures |steps| == CommonWords(p, query, index)
    ensures forall k :: 0 <= k < |steps| ==>
      WordReadable(p, query, index, k) && steps[k] == WordStep(o, p, query, index, rnum, k)
  {
    seq(CommonWords(p, query, index), k requires 0 <= k < CommonWords(p, query, index) =>
      assert WordReadable(p, query, index, k); WordStep(o, p, query, index, rnum, k))
  }

  /** What ore_compare_ui answers. */
  function CompareWords(o: Oracle, p: Good, query: Bytes, index: Bytes, rnum: Word): int
    requires LeftLen(p) > 0 && AllReadable(p, query, index)
  {
    FirstDecision(WordSteps(o, p, query, index, rnum), 0)
  }

  lemma {:induction false} DecisionSign(steps: seq<int>, i: nat)
    requires i <= |steps| && forall k :: 0 <= k < |steps| ==> steps[k] in {-1, 0, 1}
    ensures FirstDecision(steps, i) in {-1, 0, 1}
    decreases |steps| - i
  {
    if i < |steps| {
      DecisionSign(steps, i + 1);
    }
  }

  lemma CompareSign(o: Oracle, p: Good, left: Bytes, right: Bytes, rnum: Word)
    requires Readable(p, left, right)
    ensures Compare(o, p, left, right, rnum) in {-1, 0, 1}
  {
    DecisionSign(CompareSteps(o, p, left, right, rnum), 0);
  }

  /** times = the smaller of the two word counts. */
  method CountWords(p: Params, querylen: nat, indexlen: nat) returns (times: nat)
    requires LeftLen(p) > 0
    ensures times == var q, x := Whole(querylen, LeftLen(p)), Whole(indexlen, RightLen(p)); if q > x then x else q
  {
    WholeIsDiv(querylen, LeftLen(p));
    WholeIsDiv(indexlen, RightLen(p));
    var timesQueryBlock := querylen / LeftLen(p);
    var timesIndexBlock := indexlen / RightLen(p);
    times := if timesQueryBlock > timesIndexBlock then timesIndexBlock else timesQueryBlock;
  }

  /** ore_compare_ui: walks the words of both buffers and stops at the first that differs.
      With refused parameters the first comparison fails, so only an empty walk succeeds. */
  method OreCompareUi(o: Oracle, query: Bytes, index: Bytes, p: Params, rnum: Word) returns (err: Error, result: int)
    requires LeftLen(p) > 0
    requires ValidParams(p) ==> Usable(p) && AllReadable(p, query, index)
    ensures err == if CommonWords(p, query, index) > 0 && !ValidParams(p) then ParamsInvalid else NoError
    ensures ValidParams(p) ==> result == CompareWords(o, p, query, index, rnum)
    ensures err.NoError? && !ValidParams(p) ==> result == 0
  {
    var times := CountWords(p, |query|, |index|);
    if ValidParams(p) {
      ghost var steps := WordSteps(o, p, query, index, rnum);
      assert forall k: nat :: k < |steps| ==> IsStep(o, p, query, index, rnum, steps, k);
      result := WalkWords(o, query, index, p, rnum, times, steps);
      return NoError, result;
    }
    return if times > 0 then ParamsInvalid else NoError, 0;
  }

  /** One word of the walk; the buffer pointers have been moved past the words before it. */
  method CompareOneWord(o: Oracle, query: Bytes, index: Bytes, p: Good, rnum: Word, atLeft: nat, atRight: nat,
                        ghost k: nat, ghost steps: seq<int>) returns (res: int)
    requires LeftLen(p) > 0 && k < |steps| && AreSteps(o, p, query, index, rnum, steps)
    requires atLeft == Times(k, LeftLen(p)) && atRight == Times(k, RightLen(p))
    ensures res == steps[k] && res in {-1, 0, 1}
  {
    WholeFits(|query|, LeftLen(p), k);
    WholeFits(|index|, RightLen(p), k);
    var left, right := query[atLeft..], index[atRight..];
    assert IsStep(o, p, query, index, rnum, steps, k);
    assert left == WordLeft(p, query, k) && right == WordRight(p, index, k);
    var _, r := OreCompare(o, View(true, left), View(true, right), p, rnum);
    CompareSign(o, p, left, right, rnum);
    return r;
  }

  ghost predicate IsStep(o: Oracle, p: Good, query: Bytes, index: Bytes, rnum: Word, steps: seq<int>, k: nat)
    requires LeftLen(p) > 0 && k < CommonWords(p, query, index) == |steps|
  {
    WordReadable(p, query, index, k) && steps[k] == WordStep(o, p, query, index, rnum, k)
  }

  /** The list of what every common word says. */
  ghost predicate AreSteps(o: Oracle, p: Good, query: Bytes, index: Bytes, rnum: Word, steps: seq<int>)
    requires LeftLen(p) > 0
  {
    |steps| == CommonWords(p, query, index) && forall k: nat :: k < |steps| ==>
        IsStep(o, p, query, index, rnum, steps, k)
  }

  /** The loop of ore_compare_ui over the words. */
  method WalkWords(o: Oracle, query: Bytes, index: Bytes, p: Good, rnum: Word, times: nat, ghost steps: seq<int>)
    returns (result: int)
    requires LeftLen(p) > 0 && AreSteps(o, p, query, index, rnum, steps) && times == |steps|
    ensures result == FirstDecision(steps, 0)
  {
    var lenLeft, lenRight := LeftLen(p), RightLen(p);
    var atLeft, atRight := 0, 0;
    for k := 0 to times
      invariant atLeft == Times(k, lenLeft) && atRight == Times(k, lenRight)
      invariant FirstDecision(steps, k) == FirstDecision(steps, 0)
    {
      var res := CompareOneWord(o, query, index, p, rnum, atLeft, atRight, k, steps);
      if res != 0 {
        return if res > 0 then 1 else -1;
      }
      atLeft, atRight := atLeft + lenLeft, atRight + lenRight;
    }
    return 0;
  }
}
