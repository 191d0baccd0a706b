/**
 The small-domain permutation of fastore/crypto.cpp: a three-round Feistel network over
 an even number of bits, evaluated on one value or on the whole domain at once.
 AES is an arbitrary function, so everything here holds for any round functions.
 */
module Crypto {
  import opened Bits
  import opened Memory

  datatype Error =
    | NoError
    | PrpBitlenInvalid
    | NullPointer
    | ParamsInvalid
    | SkNotInitialized
    | CtxtNotInitialized

  /** The two halves of a value, each nbits/2 wide. */
  datatype Halves = Halves(l: Word, r: Word) {
    function Swap(): Halves { Halves(r, l) }

    predicate Fit(half: nat) {
      l < Pow2(half) && r < Pow2(half)
    }
  }

  /** The round function: AES of the right half, cut down to nbits/2 bits. */
  function RoundValue(aes: Cipher, key: Block, v: Word, half: nat): (r: Word)
    ensures r < Pow2(half)
  {
    LowShrinks(aes(key, Block(0, v)).lo, half);
    Low(aes(key, Block(0, v)).lo, half)
  }

  function Round(aes: Cipher, key: Block, h: Halves, half: nat): Halves {
    Halves(h.r, XorWord(h.l, RoundValue(aes, key, h.r, half)))
  }

  /** The rounds keyed by keys, first key first. */
  function Network(aes: Cipher, keys: seq<Block>, h: Halves, half: nat): Halves {
    if keys == [] then h
    else Round(aes, keys[|keys| - 1], Network(aes, keys[..|keys| - 1], h, half), half)
  }

  function Reversed(keys: seq<Block>): (r: seq<Block>)
    ensures |r| == |keys|
    ensures forall k :: 0 <= k < |keys| ==> r[k] == keys[|keys| - 1 - k]
  {
    if keys == [] then [] else [keys[|keys| - 1]] + Reversed(keys[..|keys| - 1])
  }

  function Split(x: nat, half: nat): (h: Halves)
    requires half <= 32
    ensures h.Fit(half)
  {
    Pow2Fits(half);
    Halves(Low(High(x, half), half), Low(x, half))
  }

  function Join(h: Halves, half: nat): nat {
    Up(h.l, half) + h.r
  }

  lemma {:induction false} NetworkFit(aes: Cipher, keys: seq<Block>, h: Halves, half: nat)
    requires half <= 32 && h.Fit(half)
    ensures Network(aes, keys, h, half).Fit(half)
  {
    if keys != [] {
      var key, g := keys[|keys| - 1], Network(aes, keys[..|keys| - 1], h, half);
      NetworkFit(aes, keys[..|keys| - 1], h, half);
      XorBound(g.l, RoundValue(aes, key, g.r, half), half);
    }
  }

  /** Packing two halves into a 64-bit word loses nothing. */
  lemma PackExact(h: Halves, half: nat)
    requires half <= 32 && h.Fit(half)
    ensures Or(Shl(h.l, half), h.r) == Join(h, half) < Pow2(2 * half) <= 0x1_0000_0000_0000_0000
  {
    JoinBound(h.l, h.r, half, half);
    Pow2Fits(2 * half);
    ShlExact(h.l, half, half);
    OrDisjoint(h.l, h.r, half);
  }

  /** Where the halves of x start, and where they end up after all rounds. */
  function Start(nbits: nat, inv: bool, x: nat): Halves
    requires nbits <= 64
  {
    if inv then Split(x, nbits / 2).Swap() else Split(x, nbits / 2)
  }

  function Finish(nbits: nat, inv: bool, h: Halves): nat {
    if inv then Join(h.Swap(), nbits / 2) else Join(h, nbits / 2)
  }

  lemma FinishBound(nbits: nat, inv: bool, h: Halves)
    requires nbits <= 64 && h.Fit(nbits / 2)
    ensures Finish(nbits, inv, h) < Pow2(nbits)
  {
    Pow2Mono(2 * (nbits / 2), nbits);
    PackExact(if inv then h.Swap() else h, nbits / 2);
  }

  /** The inverse direction runs the rounds backwards. */
  function KeyOrder(keys: seq<Block>, inv: bool): (r: seq<Block>)
    ensures |r| == |keys|
  {
    if inv then Reversed(keys) else keys
  }

  /** Value of the permutation at x, forwards or backwards. */
  function Prp(aes: Cipher, keys: seq<Block>, nbits: nat, inv: bool, x: nat): (y: nat)
    requires nbits <= 64
    ensures y < Pow2(nbits)
  {
    var h := Network(aes, KeyOrder(keys, inv), Start(nbits, inv, x), nbits / 2);
    NetworkFit(aes, KeyOrder(keys, inv), Start(nbits, inv, x), nbits / 2);
    FinishBound(nbits, inv, h);
    Finish(nbits, inv, h)
  }

  // The round keys ------------------------------------------------------

  /** The three encrypted counters, laid end to end in memory. */
  function KeyBytes(aes: Cipher, prpKey: Block): (s: Bytes)
    ensures |s| == 48
  {
    BlockBytes(aes(prpKey, Block(0, 0))) + BlockBytes(aes(prpKey, Block(0, 1))) + BlockBytes(aes(prpKey, Block(0, 2)))
  }

  /** Round key i starts at BYTE i of that memory, so the three keys overlap. */
  function RoundKeys(aes: Cipher, prpKey: Block): (keys: seq<Block>)
    ensures |keys| == 3
  {
    var s := KeyBytes(aes, prpKey);
    [ReadBlock(s, 0), ReadBlock(s, 1), ReadBlock(s, 2)]
  }

  /** The three encrypted counters. */
  method EncryptCounters(aes: Cipher, prpKey: Block) returns (mem: array<Byte>)
    ensures fresh(mem) && mem[..] == KeyBytes(aes, prpKey)
  {
    mem := new Byte[48](_ => 0);
    ghost var whole := KeyBytes(aes, prpKey);
    for i := 0 to 3
      invariant forall k :: 0 <= k < 16 * i ==> mem[k] == whole[k]
    {
      var part := BlockBytes(aes(prpKey, Block(0, i)));
      assert forall k :: 0 <= k < 16 ==> whole[16 * i + k] == part[k];
      ghost var before := mem[..];
      MemCpy(mem, 16 * i, part);
      assert forall k :: 0 <= k < 16 * i ==> mem[k] == mem[..][k] == before[k];
      forall k | 16 * i <= k < 16 * (i + 1)
        ensures mem[k] == whole[k]
      {
        assert mem[..][16 * i + (k - 16 * i)] == part[k - 16 * i] == whole[16 * i + (k - 16 * i)];
      }
    }
  }

  method PrpKeyExpand(aes: Cipher, prpKey: Block) returns (keys: array<Block>)
    ensures fresh(keys) && keys[..] == RoundKeys(aes, prpKey)
  {
    var mem := EncryptCounters(aes, prpKey);
    keys := new Block[3](_ => Block(0, 0));
    for i := 0 to 3
      invariant mem[..] == KeyBytes(aes, prpKey)
      invariant keys[..i] == RoundKeys(aes, prpKey)[..i]
    {
      keys[i] := ReadBlock(mem[..], i);
    }
  }

  /** The block that starts j bytes into the memory of the three encrypted counters, from their words. */
  function StraddlingKey(a: Block, b: Block, j: nat): Block
    requires j <= 2
  {
    StraddleFits(a.lo, a.hi, j);
    StraddleFits(a.hi, b.lo, j);
    Block(a.hi / Pow2(8 * j) + b.lo % Pow2(8 * j) * Pow2(64 - 8 * j),
          a.lo / Pow2(8 * j) + a.hi % Pow2(8 * j) * Pow2(64 - 8 * j))
  }

  lemma StraddleFits(x: Word, y: Word, j: nat)
    requires j <= 8
    ensures 0 <= x / Pow2(8 * j) + y % Pow2(8 * j) * Pow2(64 - 8 * j) < 0x1_0000_0000_0000_0000
  {
    var s := ToLE(x, 8) + ToLE(y, 8);
    assert Holds(s, 0, ToLE(x, 8) + ToLE(y, 8));
    StraddlingWord(s, 0, x, y, j);
    ReadLEBound(s, j, 8);
    Pow2Word();
  }

  /** Round key j is the block that starts at byte j of the encryptions of the counters 0 and 1. */
  lemma RoundKeysAre(aes: Cipher, prpKey: Block)
    ensures var e0, e1 := aes(prpKey, Block(0, 0)), aes(prpKey, Block(0, 1));
      RoundKeys(aes, prpKey) == [e0, StraddlingKey(e0, e1, 1), StraddlingKey(e0, e1, 2)]
  {
    var e0, e1 := aes(prpKey, Block(0, 0)), aes(prpKey, Block(0, 1));
    var s := KeyBytes(aes, prpKey);
    assert Holds(s, 0, BlockBytes(e0) + BlockBytes(e1));
    HoldsParts(s, 0, BlockBytes(e0), BlockBytes(e1));
    BlockBack(s, 0, e0);
    KeyStraddles(s, e0, e1, 1);
    KeyStraddles(s, e0, e1, 2);
  }

  lemma KeyStraddles(s: Bytes, a: Block, b: Block, j: nat)
    requires Holds(s, 0, BlockBytes(a)) && Holds(s, 16, BlockBytes(b)) && j <= 2
    ensures j + 16 <= |s| && ReadBlock(s, j) == StraddlingKey(a, b, j)
  {
    HoldsParts(s, 16, ToLE(b.lo, 8), ToLE(b.hi, 8));
    HoldsParts(s, 0, ToLE(a.lo, 8), ToLE(a.hi, 8));
    HoldsBoth(s, 8, ToLE(a.hi, 8), ToLE(b.lo, 8));
    StraddlingWord(s, 0, a.lo, a.hi, j);
    StraddlingWord(s, 8, a.hi, b.lo, j);
  }

  lemma HoldsBoth(s: Bytes, off: nat, a: Bytes, b: Bytes)
    requires Holds(s, off, a) && Holds(s, off + |a|, b)
    ensures Holds(s, off, a + b)
  {
    forall k | 0 <= k < |a + b|
      ensures s[off + k] == (a + b)[k]
    {
      assert k >= |a| ==> s[off + |a| + (k - |a|)] == b[k - |a|];
    }
  }

  // One value -----------------------------------------------------------

  /** The masks of the low and of the high half of 2 * len bits. */
  lemma HalfMask(len: nat)
    requires len <= 32
    ensures Shl(1, len) == Pow2(len) && Ones(len) < 0x1_0000_0000_0000_0000
    ensures Shl(Ones(len), len) == Up(Ones(len), len)
  {
    Pow2Fits(len);
    UpIsMul(1, len);
    ShlExact(1, 1, len);
    ShlExact(Ones(len), len, len);
  }

  /** Masking and shifting the bytes that were read gives the two halves of the value. */
  lemma MaskedHalves(src: Word, mem: nat, half: nat)
    requires 2 * half <= mem && half <= 32
    ensures And(Low(src, mem), Ones(half)) == Split(src, half).r
    ensures High(And(Low(src, mem), Up(Ones(half), half)), half) == Split(src, half).l
  {
    var val := Low(src, mem);
    AndMask(val, half);
    LowLow(src, mem, half);
    AndUp(val, Ones(half), half);
    AndMask(High(val, half), half);
    LowHighLow(src, mem, half, half);
    JoinCut(Low(High(src, half), half), 0, half);
  }

  /** Reads the bytes that hold nbits bits and cuts them into two halves. */
  method ExtractBlocks(src: Word, nbits: nat) returns (valL: Word, valR: Word)
    requires nbits % 2 == 0 && nbits <= 64
    ensures Halves(valL, valR) == Split(src, nbits / 2)
  {
    var mem := 8 * ((nbits + 7) / 8);
    Pow2Fits(mem);
    var val: Word := Low(src, mem);
    var len := nbits / 2;
    HalfMask(len);
    MaskedHalves(src, mem, len);
    var maskR: Word := Shl(1, len) - 1;
    var maskL := Shl(maskR, len);
    valR := And(val, maskR);
    valL := High(And(val, maskL), len);
  }

  method FeistelRound(aes: Cipher, key: Block, srcL: Word, srcR: Word, nbits: nat) returns (dstL: Word, dstR: Word)
    requires nbits % 2 == 0 && nbits <= 64
    ensures Halves(dstL, dstR) == Round(aes, key, Halves(srcL, srcR), nbits / 2)
  {
    dstL := srcR;
    var r := aes(key, Block(0, srcR)).lo;
    HalfMask(nbits / 2);
    LowIsMod(r, nbits / 2);
    r := r % Shl(1, nbits / 2);
    dstR := XorWord(srcL, r);
  }

  /** prp_eval and prp_inv_eval: odd or oversized domains are refused. */
  method PrpEval(aes: Cipher, prpKey: Block, src: Word, nbits: nat, inv: bool) returns (err: Error, dst: Word)
    ensures err == if nbits % 2 != 0 || nbits > 64 then PrpBitlenInvalid else NoError
    ensures err.NoError? ==> dst == Prp(aes, RoundKeys(aes, prpKey), nbits, inv, src)
  {
    if nbits % 2 != 0 || nbits > 64 {
      return PrpBitlenInvalid, 0;
    }
    var keys := PrpKeyExpand(aes, prpKey);
    ghost var order := KeyOrder(RoundKeys(aes, prpKey), inv);
    var valL: Word, valR: Word := ExtractBlocks(src, nbits);
    if inv {
      valL, valR := valR, valL;
    }
    for i := 0 to 3
      invariant keys[..] == RoundKeys(aes, prpKey)
      invariant Halves(valL, valR) == Network(aes, order[..i], Start(nbits, inv, src), nbits / 2)
    {
      var roundKey := if inv then keys[2 - i] else keys[i];
      assert roundKey == keys[..][if inv then 2 - i else i] == order[i];
      assert order[..i + 1][..i] == order[..i];
      valL, valR := FeistelRound(aes, roundKey, valL, valR, nbits);
    }
    assert order[..3] == order;
    if inv {
      valL, valR := valR, valL;
    }
    NetworkFit(aes, order, Start(nbits, inv, src), nbits / 2);
    PackExact(Halves(valL, valR), nbits / 2);
    err, dst := NoError, Or(Shl(valL, nbits / 2), valR);
  }

  // The whole domain ----------------------------------------------------

  method FeistelRoundBatch(aes: Cipher, dstL: array<Word>, dstR: array<Word>, key: Block,
                           srcL: array<Word>, srcR: array<Word>, nbits: nat)
    requires nbits % 2 == 0 && nbits <= 64
    requires dstL.Length == dstR.Length == srcL.Length == srcR.Length
    requires dstL != dstR && dstL != srcL && dstL != srcR && dstR != srcL && dstR != srcR
    modifies dstL, dstR
    ensures forall j :: 0 <= j < dstL.Length ==>
      Halves(dstL[j], dstR[j]) == Round(aes, key, Halves(srcL[j], srcR[j]), nbits / 2)
  {
    forall j | 0 <= j < dstL.Length {
      dstL[j] := srcR[j];
    }
    HalfMask(nbits / 2);
    var mask: Word := Shl(1, nbits / 2) - 1;
    for i := 0 to dstL.Length
      invariant forall j :: 0 <= j < dstL.Length ==> dstL[j] == srcR[j]
      invariant forall j :: 0 <= j < i ==>
        Halves(dstL[j], dstR[j]) == Round(aes, key, Halves(srcL[j], srcR[j]), nbits / 2)
    {
      var r := aes(key, Block(0, srcR[i])).lo;
      AndMask(r, nbits / 2);
      dstR[i] := XorWord(srcL[i], And(r, mask));
    }
  }

  /** The halves of every domain value at once, as the three loops of the whole-domain evaluation see them. */
  ghost predicate HalvesAre(valL: array<Word>, valR: array<Word>, hs: seq<Halves>)
    reads valL, valR
  {
    && valL.Length == valR.Length == |hs|
    && forall j :: 0 <= j < |hs| ==> Halves(valL[j], valR[j]) == hs[j]
  }

  ghost function AllSplit(n: nat, half: nat, swap: bool): (hs: seq<Halves>)
    requires half <= 32
  {
    seq(n, j requires 0 <= j < n => if swap then Split(j, half).Swap() else Split(j, half))
  }

  ghost function AllRounds(aes: Cipher, keys: seq<Block>, hs: seq<Halves>, half: nat): (r: seq<Halves>)
    ensures |r| == |hs|
  {
    seq(|hs|, j requires 0 <= j < |hs| => Network(aes, keys, hs[j], half))
  }

  ghost function AllSwap(hs: seq<Halves>): seq<Halves> {
    seq(|hs|, j requires 0 <= j < |hs| => hs[j].Swap())
  }

  method SplitAll(n: nat, nbits: nat) returns (valL: array<Word>, valR: array<Word>)
    requires nbits % 2 == 0 && nbits <= 16 && n <= 0x1_0000
    ensures fresh(valL) && fresh(valR) && valL != valR
    ensures HalvesAre(valL, valR, AllSplit(n, nbits / 2, false))
  {
    valL, valR := new Word[n](_ => 0), new Word[n](_ => 0);
    for i := 0 to n
      invariant forall j :: 0 <= j < i ==> Halves(valL[j], valR[j]) == Split(j, nbits / 2)
    {
      valL[i], valR[i] := ExtractBlocks(i, nbits);
    }
  }

  method RunRounds(aes: Cipher, keys: array<Block>, valL: array<Word>, valR: array<Word>, nbits: nat, inv: bool,
                   ghost hs: seq<Halves>)
    requires nbits % 2 == 0 && nbits <= 64 && keys.Length == 3
    requires valL != valR && HalvesAre(valL, valR, hs)
    modifies valL, valR
    ensures HalvesAre(valL, valR, AllRounds(aes, KeyOrder(keys[..], inv), hs, nbits / 2))
  {
    ghost var order := KeyOrder(keys[..], inv);
    var newL, newR := new Word[valL.Length](_ => 0), new Word[valL.Length](_ => 0);
    for i := 0 to 3
      invariant HalvesAre(valL, valR, AllRounds(aes, order[..i], hs, nbits / 2))
    {
      var roundKey := if inv then keys[2 - i] else keys[i];
      assert roundKey == order[i] && order[..i + 1][..i] == order[..i];
      FeistelRoundBatch(aes, newL, newR, roundKey, valL, valR, nbits);
      forall j | 0 <= j < valL.Length {
        valL[j] := newL[j];
      }
      forall j | 0 <= j < valL.Length {
        valR[j] := newR[j];
      }
    }
    assert order[..3] == order;
  }

  method PackAll(dst: array<Word>, valL: array<Word>, valR: array<Word>, half: nat, ghost hs: seq<Halves>)
    requires half <= 32 && |hs| <= dst.Length
    requires valL != dst && valR != dst && HalvesAre(valL, valR, hs)
    requires forall j :: 0 <= j < |hs| ==> hs[j].Fit(half)
    modifies dst
    ensures forall j :: 0 <= j < |hs| ==> dst[j] == Join(hs[j], half)
    ensures forall j :: |hs| <= j < dst.Length ==> dst[j] == old(dst[j])
  {
    for i := 0 to valL.Length
      invariant forall j :: 0 <= j < i ==> dst[j] == Join(hs[j], half)
      invariant forall j :: |hs| <= j < dst.Length ==> dst[j] == old(dst[j])
    {
      PackExact(hs[i], half);
      dst[i] := Or(Shl(valL[i], half), valR[i]);
    }
  }

  /** prp_eval_all and prp_inv_eval_all: the table of the permutation over its whole domain. */
  method PrpEvalAll(aes: Cipher, dst: array<Word>, prpKey: Block, nbits: nat, inv: bool) returns (err: Error)
    requires nbits % 2 == 0 && nbits <= 16 ==> dst.Length >= Pow2(nbits)
    modifies dst
    ensures err == if nbits % 2 != 0 || nbits > 16 then PrpBitlenInvalid else NoError
    ensures !err.NoError? ==> dst[..] == old(dst[..])
    ensures err.NoError? ==> forall j :: 0 <= j < Pow2(nbits) ==>
      dst[j] == Prp(aes, RoundKeys(aes, prpKey), nbits, inv, j)
    ensures forall j :: Pow2(nbits) <= j < dst.Length ==> dst[j] == old(dst[j])
  {
    if nbits % 2 != 0 || nbits > 16 {
      return PrpBitlenInvalid;
    }
    var keys := PrpKeyExpand(aes, prpKey);
    ghost var order := KeyOrder(RoundKeys(aes, prpKey), inv);
    Pow2Mono(nbits, 16);
    Pow2Byte(0);
    Pow2Byte(8);
    var nblocks := Pow2(nbits);
    var valL, valR := SplitAll(nblocks, nbits);
    assert keys[..] == RoundKeys(aes, prpKey);
    if inv {
      valL, valR := valR, valL;
    }
    ghost var start := AllSplit(nblocks, nbits / 2, inv);
    assert HalvesAre(valL, valR, start);
    RunRounds(aes, keys, valL, valR, nbits, inv, start);
    ghost var hs := AllRounds(aes, order, start, nbits / 2);
    assert HalvesAre(valL, valR, hs);
    if inv {
      valL, valR := valR, valL;
      hs := AllSwap(hs);
    }
    forall j | 0 <= j < nblocks
      ensures hs[j].Fit(nbits / 2) && Join(hs[j], nbits / 2) == Prp(aes, RoundKeys(aes, prpKey), nbits, inv, j)
    {
      NetworkFit(aes, order, Start(nbits, inv, j), nbits / 2);
    }
    PackAll(dst, valL, valR, nbits / 2, hs);
    return NoError;
  }

  // The permutation -----------------------------------------------------

  lemma SplitJoin(h: Halves, half: nat)
    requires half <= 32 && h.Fit(half)
    ensures Split(Join(h, half), half) == h
  {
    JoinCut(h.l, h.r, half);
    LowSmall(h.l, half);
  }

  lemma JoinSplit(x: nat, half: nat)
    requires half <= 32 && x < Pow2(2 * half)
    ensures Join(Split(x, half), half) == x
  {
    HighBound(x, half, half);
    LowSmall(High(x, half), half);
    CutJoin(x, half);
  }

  /** A round undoes itself between two swaps. */
  lemma RoundUndo(aes: Cipher, key: Block, h: Halves, half: nat)
    ensures Round(aes, key, Round(aes, key, h, half).Swap(), half).Swap() == h
  {
    XorCancel(h.l, RoundValue(aes, key, h.r, half));
  }

  lemma {:induction false} NetworkFirst(aes: Cipher, keys: seq<Block>, h: Halves, half: nat)
    requires keys != []
    ensures Network(aes, keys, h, half) == Network(aes, keys[1..], Round(aes, keys[0], h, half), half)
  {
    if |keys| > 1 {
      var init := keys[..|keys| - 1];
      NetworkFirst(aes, init, h, half);
      assert keys[1..][..|keys| - 2] == init[1..];
    } else {
      assert keys[..0] == [];
    }
  }

  /** Running any list of rounds backwards between two swaps undoes them. */
  lemma {:induction false} NetworkUndo(aes: Cipher, keys: seq<Block>, h: Halves, half: nat)
    ensures Network(aes, Reversed(keys), Network(aes, keys, h, half).Swap(), half).Swap() == h
  {
    if keys != [] {
      var init, last := keys[..|keys| - 1], keys[|keys| - 1];
      var g := Network(aes, init, h, half);
      RoundUndo(aes, last, g, half);
      NetworkFirst(aes, Reversed(keys), Round(aes, last, g, half).Swap(), half);
      assert Reversed(keys)[1..] == Reversed(init);
      NetworkUndo(aes, init, h, half);
    }
  }

  lemma ReversedTwice(keys: seq<Block>)
    ensures Reversed(Reversed(keys)) == keys
  {
  }

  lemma StartFinish(nbits: nat, inv: bool, h: Halves)
    requires nbits % 2 == 0 && nbits <= 64 && h.Fit(nbits / 2)
    ensures Start(nbits, !inv, Finish(nbits, inv, h)) == h.Swap()
  {
    SplitJoin(if inv then h.Swap() else h, nbits / 2);
  }

  lemma FinishStart(nbits: nat, inv: bool, x: nat)
    requires nbits % 2 == 0 && nbits <= 64 && x < Pow2(nbits)
    ensures Finish(nbits, !inv, Start(nbits, inv, x).Swap()) == x
  {
    JoinSplit(x, nbits / 2);
  }

  /** A word modulo a power of two. */
  function ModPow2(x: Word, n: nat): (r: Word)
    ensures r == x % Pow2(n)
  {
    LowIsMod(x, n);
    LowShrinks(x, n);
    Low(x, n)
  }

  /** The three rounds of the permutation forwards, written out. */
  function ThreeRounds(aes: Cipher, k0: Block, k1: Block, k2: Block, half: nat, l: Word, r: Word): int {
    var r1 := XorWord(l, ModPow2(aes(k0, Block(0, r)).lo, half));
    var r2 := XorWord(r, ModPow2(aes(k1, Block(0, r1)).lo, half));
    var r3 := XorWord(r1, ModPow2(aes(k2, Block(0, r2)).lo, half));
    r2 * Pow2(half) + r3
  }

  lemma RoundIs(aes: Cipher, key: Block, h: Halves, half: nat)
    ensures Round(aes, key, h, half) == Halves(h.r, XorWord(h.l, ModPow2(aes(key, Block(0, h.r)).lo, half)))
  {
    LowIsMod(aes(key, Block(0, h.r)).lo, half);
  }

  lemma NetworkOfThree(aes: Cipher, k0: Block, k1: Block, k2: Block, h: Halves, half: nat)
    ensures Network(aes, [k0, k1, k2], h, half) == Round(aes, k2, Round(aes, k1, Round(aes, k0, h, half), half), half)
  {
    assert [k0, k1, k2][..2] == [k0, k1] && [k0, k1][..1] == [k0] && [k0][..0] == [];
    assert Network(aes, [k0], h, half) == Round(aes, k0, Network(aes, [k0][..0], h, half), half);
    assert Network(aes, [k0, k1], h, half) == Round(aes, k1, Network(aes, [k0, k1][..1], h, half), half);
  }

  lemma RoundsAre(aes: Cipher, k0: Block, k1: Block, k2: Block, h: Halves, half: nat)
    ensures Join(Network(aes, [k0, k1, k2], h, half), half) == ThreeRounds(aes, k0, k1, k2, half, h.l, h.r)
  {
    var h1 := Round(aes, k0, h, half);
    var h2 := Round(aes, k1, h1, half);
    NetworkOfThree(aes, k0, k1, k2, h, half);
    RoundIs(aes, k0, h, half);
    RoundIs(aes, k1, h1, half);
    RoundIs(aes, k2, h2, half);
    UpIsMul(Round(aes, k2, h2, half).l, half);
  }

  lemma SplitIs(l: Word, r: Word, half: nat)
    requires half <= 32 && l < Pow2(half) && r < Pow2(half)
    ensures l * Pow2(half) + r >= 0 && Split(l * Pow2(half) + r, half) == Halves(l, r)
  {
    UpIsMul(l, half);
    SplitJoin(Halves(l, r), half);
  }

  /** prp_eval from the cipher alone: the value l * 2^half + r becomes r2 * 2^half + r3 with r1, r2, r3 each the
      exclusive or of the half two before and the cipher, under keys 0, 1, 2 in this order, of the half before. */
  lemma ForwardIs(aes: Cipher, prpKey: Block, nbits: nat, l: Word, r: Word)
    requires nbits % 2 == 0 && nbits <= 64 && l < Pow2(nbits / 2) && r < Pow2(nbits / 2)
    ensures l * Pow2(nbits / 2) + r >= 0
    ensures var e0, e1 := aes(prpKey, Block(0, 0)), aes(prpKey, Block(0, 1));
      Prp(aes, RoundKeys(aes, prpKey), nbits, false, l * Pow2(nbits / 2) + r)
      == ThreeRounds(aes, e0, StraddlingKey(e0, e1, 1), StraddlingKey(e0, e1, 2), nbits / 2, l, r)
  {
    var keys := RoundKeys(aes, prpKey);
    RoundKeysAre(aes, prpKey);
    SplitIs(l, r, nbits / 2);
    RoundsAre(aes, keys[0], keys[1], keys[2], Halves(l, r), nbits / 2);
  }

  /** Either direction undoes the other, for every even domain and any round keys. */
  lemma PrpRoundTrip(aes: Cipher, keys: seq<Block>, nbits: nat, inv: bool, x: nat)
    requires nbits % 2 == 0 && nbits <= 64 && x < Pow2(nbits)
    ensures Prp(aes, keys, nbits, !inv, Prp(aes, keys, nbits, inv, x)) == x
  {
    var half, order, start := nbits / 2, KeyOrder(keys, inv), Start(nbits, inv, x);
    var h := Network(aes, order, start, half);
    NetworkFit(aes, order, start, half);
    StartFinish(nbits, inv, h);
    ReversedTwice(keys);
    assert KeyOrder(keys, !inv) == Reversed(order);
    NetworkUndo(aes, order, start, half);
    var back := Network(aes, Reversed(order), h.Swap(), half);
    assert back == start.Swap();
    FinishStart(nbits, inv, x);
  }

  /** Entry prp_eval(x) of the table that prp_inv_eval_all fills is x, and no value occurs twice. */
  lemma InverseTableIsPermutation(aes: Cipher, keys: seq<Block>, nbits: nat, table: seq<nat>)
    requires nbits % 2 == 0 && nbits <= 64
    requires |table| == Pow2(nbits)
    requires forall j :: 0 <= j < |table| ==> table[j] == Prp(aes, keys, nbits, true, j)
    ensures forall x :: 0 <= x < |table| ==> table[Prp(aes, keys, nbits, false, x)] == x
    ensures forall i, j :: 0 <= i < j < |table| ==> table[i] != table[j]
    ensures forall j :: 0 <= j < |table| ==> table[j] < |table|
  {
    forall x | 0 <= x < |table|
      ensures table[Prp(aes, keys, nbits, false, x)] == x
      ensures Prp(aes, keys, nbits, false, table[x]) == x
    {
      PrpRoundTrip(aes, keys, nbits, false, x);
      PrpRoundTrip(aes, keys, nbits, true, x);
    }
  }
}
