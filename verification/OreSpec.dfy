/**
 What a query and an index of fastore/ore_blk.cpp hold, block by block: the message is cut
 into blocks, most significant first, and every block is tied to the bits above it.
 */
module OreSpec {
  import opened Bits
  import opened Memory

  const ORE_SMALL: Byte := 1
  const ORE_EQUAL: Byte := 2
  const ORE_LARGE: Byte := 3

  datatype Params = Params(initialized: bool, nbits: nat, blockLen: nat, cmpLen: nat)

  /** AES, and the first 16 bytes of SHA-256, as arbitrary functions. */
  datatype Oracle = Oracle(aes: Cipher, sha: Bytes -> Block)

  datatype OreKey = OreKey(initialized: bool, prfKey: Block, prpKey: Block, params: Params)

  predicate ValidParams(p: Params) {
    p.initialized && p.blockLen != 0 && p.blockLen <= 16 && p.cmpLen <= 64
  }

  // Sizes ---------------------------------------------------------------

  /** How many records of y it takes to hold x; nothing for y = 0, where the C macro would divide by zero. */
  function Ceil(x: nat, y: nat): nat {
    if x == 0 || y == 0 then 0 else if x <= y then 1 else 1 + Ceil(x - y, y)
  }

  lemma {:induction false} CeilIsDiv(x: nat, y: nat)
    requires y > 0
    ensures Ceil(x, y) == (x + y - 1) / y
  {
    if x > y {
      CeilIsDiv(x - y, y);
      DivModUnique(x + y - 1, y, Ceil(x, y), (x - 1) % y);
    } else if x > 0 {
      DivModUnique(x + y - 1, y, 1, x - 1);
    } else {
      DivModUnique(y - 1, y, 0, y - 1);
    }
  }

  function NBlocks(p: Params): nat { Ceil(p.nbits, p.blockLen) }

  function NSlots(p: Params): nat { Pow2(p.blockLen) }

  function CmpBytes(p: Params): nat { Ceil(p.cmpLen, 8) }

  function PixBytes(p: Params): nat { Ceil(p.blockLen, 8) }

  function LeftBlockLen(p: Params): nat { 32 + Ceil(p.nbits, 8) }

  function RightBlockLen(p: Params): nat { Times(NSlots(p), CmpBytes(p)) }

  /** ore_query_left_len */
  function LeftLen(p: Params): nat {
    Times(NBlocks(p), LeftBlockLen(p))
  }

  /** ore_index_right_len */
  function RightLen(p: Params): nat {
    16 + Times(NBlocks(p), RightBlockLen(p))
  }

  /** What the C code needs besides the validity check: at least one block, a first shift below the word size,
      and room for a slot number in its left block. */
  predicate Usable(p: Params) {
    && ValidParams(p)
    && p.nbits >= 1
    && Times(NBlocks(p) - 1, p.blockLen) < 64
    && PixBytes(p) <= Ceil(p.nbits, 8)
  }

  type Good = p: Params | Usable(p) witness Params(true, 32, 8, 64)

  type GoodKey = sk: OreKey | Usable(sk.params) witness OreKey(true, Block(0, 0), Block(0, 0), Params(true, 32, 8, 64))

  lemma {:induction false} TimesAtLeast(n: nat, len: nat)
    requires len >= 1
    ensures n <= Times(n, len)
  {
    if n > 0 {
      TimesAtLeast(n - 1, len);
    }
  }

  lemma FewBlocks(p: Good)
    ensures 1 <= NBlocks(p) <= 64
  {
    TimesAtLeast(NBlocks(p) - 1, p.blockLen);
  }

  // The blocks of a message ---------------------------------------------

  /** block_mask at the top of round i. */
  function MaskAt(p: Good, i: nat): Word {
    if i == 0 then
      Pow2Fits(p.blockLen);
      Shl(Ones(p.blockLen), Times(NBlocks(p) - 1, p.blockLen))
    else
      ShiftedWord(MaskAt(p, i - 1), p.blockLen);
      High(MaskAt(p, i - 1), p.blockLen)
  }

  lemma ShiftedWord(w: Word, n: nat)
    ensures High(w, n) <= w
  {
    HighShrinks(w, n);
  }

  lemma {:induction false} HighShrinks(x: nat, n: nat)
    ensures High(x, n) <= x
  {
    if n > 0 {
      HighShrinks(x / 2, n - 1);
    }
  }

  /** How far block i sits from the bottom of the word. */
  function ShiftAt(p: Params, i: nat): nat
    requires i < NBlocks(p)
  {
    Times(NBlocks(p) - 1 - i, p.blockLen)
  }

  /** cur_block in round i. */
  function BlockAt(p: Good, msg: Word, i: nat): nat
    requires i < NBlocks(p)
  {
    High(And(msg, MaskAt(p, i)), ShiftAt(p, i))
  }

  /** The bits of a block that the 64-bit mask really covers. */
  function EffectiveLen(p: Good): nat {
    var room := 64 - Times(NBlocks(p) - 1, p.blockLen);
    if p.blockLen < room then p.blockLen else room
  }

  lemma {:induction false} MaskIs(p: Good, i: nat)
    requires i < NBlocks(p)
    ensures MaskAt(p, i) == Up(Ones(EffectiveLen(p)), ShiftAt(p, i))
  {
    if i == 0 {
      var s := ShiftAt(p, 0);
      Pow2Fits(p.blockLen);
      WordIsLow(Up(Ones(p.blockLen), s), 64);
      LowUp(Ones(p.blockLen), s, 64 - s);
      LowOnes(p.blockLen, 64 - s);
    } else {
      MaskIs(p, i - 1);
      HighUp(Ones(EffectiveLen(p)), ShiftAt(p, i), p.blockLen);
    }
  }

  /** Block i is the slice of the message above its shift, as wide as the mask. */
  lemma BlockIs(p: Good, msg: Word, i: nat)
    requires i < NBlocks(p)
    ensures BlockAt(p, msg, i) == Low(High(msg, ShiftAt(p, i)), EffectiveLen(p)) < NSlots(p)
  {
    var e, t := EffectiveLen(p), ShiftAt(p, i);
    MaskIs(p, i);
    AndUp(msg, Ones(e), t);
    AndMask(High(msg, t), e);
    HighUp(Low(High(msg, t), e), 0, t);
    Pow2Mono(e, p.blockLen);
  }

  /** prefix at the top of round i. */
  function PrefixAt(p: Good, msg: Word, i: nat): Word
    requires i <= NBlocks(p)
  {
    if i == 0 then 0
    else
      BlockIs(p, msg, i - 1);
      Pow2Fits(p.blockLen);
      OrWord(Shl(PrefixAt(p, msg, i - 1), p.blockLen), BlockAt(p, msg, i - 1))
  }

  /** All blocks fit in the word, so no mask bit is lost. */
  predicate FitsWord(p: Params) {
    Times(NBlocks(p), p.blockLen) <= 64
  }

  /** The width of the numbers that are compared. */
  function Width(p: Params): nat {
    Times(NBlocks(p), p.blockLen)
  }

  /** Appending to the k bits above bit t + bl of a w-bit number the block of bl bits at t. */
  lemma AppendBlock(prev: Word, cur: Word, x: nat, w: nat, t: nat, bl: nat, k: nat)
    requires prev == High(Low(x, w), t + bl) < Pow2(k) && cur == Low(High(x, t), bl)
    requires k + bl <= 64 && t + bl <= w
    ensures OrWord(Shl(prev, bl), cur) == Up(prev, bl) + cur == High(Low(x, w), t) < Pow2(k + bl)
  {
    ShlExact(prev, k, bl);
    OrDisjoint(prev, cur, bl);
    JoinBound(prev, cur, k, bl);
    LowHighLow(x, w, t, bl);
    HighHigh(Low(x, w), t, bl);
    CutJoin(High(Low(x, w), t), bl);
  }

  /** prefix is always the message bits above the current block. */
  lemma {:induction false} PrefixIs(p: Good, msg: Word, i: nat)
    requires FitsWord(p) && i <= NBlocks(p)
    ensures PrefixAt(p, msg, i)
              == High(Low(msg, Width(p)), Times(NBlocks(p) - i, p.blockLen)) < Pow2(Times(i, p.blockLen))
  {
    if i == 0 {
      NothingAbove(p, msg);
    } else {
      PrefixIs(p, msg, i - 1);
      PrefixStep(p, msg, i - 1);
    }
  }

  lemma NothingAbove(p: Good, msg: Word)
    ensures PrefixAt(p, msg, 0) == High(Low(msg, Width(p)), Times(NBlocks(p), p.blockLen)) < Pow2(Times(0, p.blockLen))
  {
    LowSmall(Low(msg, Width(p)), Width(p));
  }

  /** From the prefix above a block to the prefix below it. */
  lemma PrefixStep(p: Good, msg: Word, i: nat)
    requires FitsWord(p) && i < NBlocks(p)
    requires PrefixAt(p, msg, i)
               == High(Low(msg, Width(p)), Times(NBlocks(p) - i, p.blockLen)) < Pow2(Times(i, p.blockLen))
    ensures PrefixAt(p, msg, i + 1) == Up(PrefixAt(p, msg, i), p.blockLen) + BlockAt(p, msg, i)
    ensures PrefixAt(p, msg, i + 1)
              == High(Low(msg, Width(p)), Times(NBlocks(p) - (i + 1), p.blockLen)) < Pow2(Times(i + 1, p.blockLen))
  {
    var bl, t, k := p.blockLen, ShiftAt(p, i), Times(i, p.blockLen);
    FullBlock(p, msg, i);
    TimesMono(i + 1, NBlocks(p), bl);
    TimesMono(NBlocks(p) - i, NBlocks(p), bl);
    Pow2Fits(bl);
    AppendBlock(PrefixAt(p, msg, i), BlockAt(p, msg, i), msg, Width(p), t, bl, k);
  }

  lemma FullBlock(p: Good, msg: Word, i: nat)
    requires FitsWord(p) && i < NBlocks(p)
    ensures BlockAt(p, msg, i) == Low(High(msg, ShiftAt(p, i)), p.blockLen)
  {
    BlockIs(p, msg, i);
  }

  /** The blocks recombine to the low bits of the message. */
  lemma BlocksRecombine(p: Good, msg: Word)
    requires FitsWord(p)
    ensures PrefixAt(p, msg, NBlocks(p)) == msg % Pow2(Width(p))
  {
    PrefixIs(p, msg, NBlocks(p));
    LowIsMod(msg, Width(p));
  }

  // Comparing block by block --------------------------------------------

  /** The flag an index stores for a query block that differs from its own. */
  function DifferenceFlag(queryBlock: nat, indexBlock: nat): Byte {
    if queryBlock < indexBlock then ORE_SMALL else ORE_LARGE
  }

  /** What block i alone says about the aim: 0 when the blocks agree. */
  function BlockVerdict(p: Good, q: Word, x: Word, aim: Byte, i: nat): int
    requires i < NBlocks(p)
  {
    if BlockAt(p, q, i) == BlockAt(p, x, i) then 0
    else if DifferenceFlag(BlockAt(p, q, i), BlockAt(p, x, i)) == aim then 1
    else -1
  }

  /** The first entry from i on that is not 0: how a walk that stops at the first decision ends. */
  function FirstDecision(steps: seq<int>, i: nat): int
    requires i <= |steps|
    decreases |steps| - i
  {
    if i == |steps| then 0
    else if steps[i] != 0 then steps[i]
    else FirstDecision(steps, i + 1)
  }

  lemma {:induction false} DecisionAmong(steps: seq<int>, i: nat)
    requires i <= |steps|
    ensures FirstDecision(steps, i) == 0 || FirstDecision(steps, i) in steps
    decreases |steps| - i
  {
    if i < |steps| && steps[i] == 0 {
      DecisionAmong(steps, i + 1);
    }
  }

  lemma {:induction false} NoDecision(steps: seq<int>, i: nat)
    requires i <= |steps|
    ensures FirstDecision(steps, i) == 0 <==> forall k :: i <= k < |steps| ==> steps[k] == 0
    decreases |steps| - i
  {
    if i < |steps| {
      NoDecision(steps, i + 1);
    }
  }

  function Verdicts(p: Good, q: Word, x: Word, aim: Byte): (steps: seq<int>)
    ensures |steps| == NBlocks(p)
    ensures forall i :: 0 <= i < NBlocks(p) ==> steps[i] == BlockVerdict(p, q, x, aim, i)
  {
    seq(NBlocks(p), i requires 0 <= i < NBlocks(p) => BlockVerdict(p, q, x, aim, i))
  }

  /** The answer the scheme promises: does a stand to b as aimed, are they equal, or neither. */
  function Answer(a: nat, b: nat, aim: Byte): int {
    if a == b then 0
    else if (aim == ORE_LARGE && a > b) || (aim == ORE_SMALL && a < b) then 1
    else -1
  }

  /** Lexicographic order of the blocks is the numeric order of the low bits. */
  lemma {:induction false} VerdictIsAnswer(p: Good, q: Word, x: Word, aim: Byte, i: nat)
    requires FitsWord(p) && i <= NBlocks(p)
    requires PrefixAt(p, q, i) == PrefixAt(p, x, i)
    ensures FirstDecision(Verdicts(p, q, x, aim), i) == Answer(Low(q, Width(p)), Low(x, Width(p)), aim)
    decreases NBlocks(p) - i
  {
    if i == NBlocks(p) {
      PrefixIs(p, q, i);
      PrefixIs(p, x, i);
    } else if BlockAt(p, q, i) == BlockAt(p, x, i) {
      SamePrefixNext(p, q, x, i);
      VerdictIsAnswer(p, q, x, aim, i + 1);
    } else {
      DifferenceDecides(p, q, x, i);
    }
  }

  lemma SamePrefixNext(p: Good, q: Word, x: Word, i: nat)
    requires i < NBlocks(p) && PrefixAt(p, q, i) == PrefixAt(p, x, i) && BlockAt(p, q, i) == BlockAt(p, x, i)
    ensures PrefixAt(p, q, i + 1) == PrefixAt(p, x, i + 1)
  {
  }

  /** Below equal prefixes, the first differing block orders the numbers. */
  lemma DifferenceDecides(p: Good, q: Word, x: Word, i: nat)
    requires FitsWord(p) && i < NBlocks(p)
    requires PrefixAt(p, q, i) == PrefixAt(p, x, i) && BlockAt(p, q, i) != BlockAt(p, x, i)
    ensures BlockAt(p, q, i) < BlockAt(p, x, i) <==> Low(q, Width(p)) < Low(x, Width(p))
    ensures Low(q, Width(p)) != Low(x, Width(p))
  {
    var bl, w, t := p.blockLen, Width(p), ShiftAt(p, i);
    var a, b := Low(q, w), Low(x, w);
    PrefixIs(p, q, i);
    PrefixIs(p, x, i);
    PrefixStep(p, q, i);
    PrefixStep(p, x, i);
    if a <= b {
      HighMono(a, b, t);
    }
    if b <= a {
      HighMono(b, a, t);
    }
  }
}
