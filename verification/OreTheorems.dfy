/**
 What follows from the scheme's block structure: how the slots of a block are tagged, where the buffers
 keep their fields, when the comparison is right and when it cannot be, and the comparison of several words.
 */
module OreTheorems {
  import opened Bits
  import opened Memory
  import opened Crypto
  import opened OreSpec
  import opened OreBlk
  import opened OreMethods

  // Slot census ---------------------------------------------------------

  /** The flag stored at slot j of block i. */
  function FlagAt(o: Oracle, sk: GoodKey, msg: Word, i: nat, j: nat): Byte
    requires i < NBlocks(sk.params)
  {
    SlotFlag(Prp(o.aes, BlockKeys(o, sk, msg, i), sk.params.blockLen, true, j), BlockAt(sk.params, msg, i))
  }

  /** The slots whose value is below n. */
  ghost function SlotsBelow(aes: Cipher, keys: seq<Block>, nbits: nat, n: nat): set<nat>
    requires nbits <= 64
  {
    set j: nat | j < Pow2(nbits) && Prp(aes, keys, nbits, true, j) < n
  }

  /** The arguments below m whose value is below n. */
  ghost function Below(f: nat -> nat, m: nat, n: nat): set<nat> {
    set j: nat | j < m && f(j) < n
  }

  /** f and g undo each other on the numbers below m. */
  ghost predicate Undoes(f: nat -> nat, g: nat -> nat, m: nat) {
    forall x: nat :: x < m ==> f(x) < m && g(f(x)) == x
  }

  /** One argument more. */
  lemma BelowNext(f: nat -> nat, g: nat -> nat, m: nat, n: nat)
    requires Undoes(f, g, m) && Undoes(g, f, m) && n < m
    ensures Below(f, m, n + 1) == Below(f, m, n) + {g(n)} && g(n) !in Below(f, m, n)
  {
  }

  /** A permutation sends exactly n arguments below n. */
  lemma {:induction false} BelowCount(f: nat -> nat, g: nat -> nat, m: nat, n: nat)
    requires Undoes(f, g, m) && Undoes(g, f, m) && n <= m
    ensures |Below(f, m, n)| == n
  {
    if n == 0 {
      assert Below(f, m, 0) == {};
    } else {
      BelowCount(f, g, m, n - 1);
      BelowNext(f, g, m, n - 1);
    }
  }

  /** Exactly n slots have a value below n. */
  lemma SlotsBelowCount(aes: Cipher, keys: seq<Block>, nbits: nat, n: nat)
    requires nbits % 2 == 0 && nbits <= 64 && n <= Pow2(nbits)
    ensures |SlotsBelow(aes, keys, nbits, n)| == n
  {
    var f := (j: nat) => Prp(aes, keys, nbits, true, j);
    var g := (j: nat) => Prp(aes, keys, nbits, false, j);
    forall x: nat | x < Pow2(nbits)
      ensures f(x) < Pow2(nbits) && g(f(x)) == x && g(x) < Pow2(nbits) && f(g(x)) == x
    {
      PrpRoundTrip(aes, keys, nbits, true, x);
      PrpRoundTrip(aes, keys, nbits, false, x);
    }
    BelowCount(f, g, Pow2(nbits), n);
    assert SlotsBelow(aes, keys, nbits, n) == Below(f, Pow2(nbits), n);
  }

  ghost function SlotsFlagged(o: Oracle, sk: GoodKey, msg: Word, i: nat, flag: Byte): set<nat>
    requires i < NBlocks(sk.params)
  {
    set j: nat | j < NSlots(sk.params) && FlagAt(o, sk, msg, i, j) == flag
  }

  /** Whatever the keys, a block holding v tags one slot EQUAL, v slots SMALL and the rest LARGE. */
  lemma SlotCensus(o: Oracle, sk: GoodKey, msg: Word, i: nat)
    requires sk.params.blockLen % 2 == 0 && i < NBlocks(sk.params)
    ensures |SlotsFlagged(o, sk, msg, i, ORE_EQUAL)| == 1
    ensures |SlotsFlagged(o, sk, msg, i, ORE_SMALL)| == BlockAt(sk.params, msg, i)
    ensures |SlotsFlagged(o, sk, msg, i, ORE_LARGE)| == NSlots(sk.params) - 1 - BlockAt(sk.params, msg, i)
  {
    var keys, bl, v := BlockKeys(o, sk, msg, i), sk.params.blockLen, BlockAt(sk.params, msg, i);
    BlockIs(sk.params, msg, i);
    var below, upto, all := SlotsBelow(o.aes, keys, bl, v), SlotsBelow(o.aes, keys, bl, v + 1),
        SlotsBelow(o.aes, keys, bl, Pow2(bl));
    SlotsBelowCount(o.aes, keys, bl, v);
    SlotsBelowCount(o.aes, keys, bl, v + 1);
    SlotsBelowCount(o.aes, keys, bl, Pow2(bl));
    assert SlotsFlagged(o, sk, msg, i, ORE_SMALL) == below;
    assert SlotsFlagged(o, sk, msg, i, ORE_EQUAL) == upto - below;
    assert SlotsFlagged(o, sk, msg, i, ORE_LARGE) == all - upto;
  }

  // Layout --------------------------------------------------------------

  /** The fields of the left blocks follow one another without overlap and end where the length function says. */
  lemma LeftLayout(p: Good, i: nat, k: nat)
    requires i < k < NBlocks(p)
    ensures LeftOffset(p, i) + 32 + PixBytes(p) <= LeftOffset(p, k)
    ensures LeftOffset(p, k) + 32 + PixBytes(p) <= LeftLen(p)
  {
    LeftInside(p, i);
    LeftInside(p, k);
    TimesMono(i + 1, k, LeftBlockLen(p));
  }

  /** So do the slots of the right blocks, behind the nonce. */
  lemma RightLayout(p: Good, i: nat, j: nat, i': nat, j': nat)
    requires i < NBlocks(p) && j < NSlots(p) && i' < NBlocks(p) && j' < NSlots(p)
    requires i < i' || (i == i' && j < j')
    ensures 16 <= RightOffset(p, i, j)
    ensures RightOffset(p, i, j) + CmpBytes(p) <= RightOffset(p, i', j')
    ensures RightOffset(p, i', j') + CmpBytes(p) <= RightLen(p)
  {
    RightInside(p, i, j);
    RightInside(p, i', j');
    if i < i' {
      TimesMono(i + 1, i', RightBlockLen(p));
    } else {
      TimesMono(j + 1, j', CmpBytes(p));
    }
  }

  /** The two length functions as the products they compute. */
  lemma BufferLengths(p: Good)
    ensures LeftLen(p) == NBlocks(p) * (16 + 16 + (p.nbits + 7) / 8)
    ensures RightLen(p) == 16 + NBlocks(p) * (NSlots(p) * ((p.cmpLen + 7) / 8))
  {
    CeilIsDiv(p.nbits, 8);
    CeilIsDiv(p.cmpLen, 8);
    TimesIsMul(NBlocks(p), LeftBlockLen(p));
    TimesIsMul(NBlocks(p), RightBlockLen(p));
    TimesIsMul(NSlots(p), CmpBytes(p));
  }

  // What stands in the buffers ------------------------------------------

  /** A block in memory, read and written out again. */
  lemma BlockStands(s: Bytes, off: nat, n: nat)
    requires off + 16 <= |s| && n == 8
    ensures s[off..off + 16] == BlockBytes(ReadBlock(s, off))
  {
    var mid := off + n;
    ToLERead(s, off, n);
    ToLERead(s, mid, n);
    assert s[off..mid + n] == s[off..mid] + s[mid..mid + n];
  }

  /** prefix << block_len | j, as a sum. */
  lemma SlotInputIs(p: Good, msg: Word, i: nat, j: Word)
    requires FitsWord(p) && i < NBlocks(p) && j < NSlots(p)
    ensures OrWord(Shl(PrefixAt(p, msg, i), p.blockLen), j) == PrefixAt(p, msg, i) * Pow2(p.blockLen) + j
  {
    var prefix, bl := PrefixAt(p, msg, i), p.blockLen;
    PrefixIs(p, msg, i);
    TimesMono(i + 1, NBlocks(p), bl);
    ShlExact(prefix, Times(i, bl), bl);
    OrDisjoint(prefix, j, bl);
    UpIsMul(prefix, bl);
  }

  lemma PrefixNumber(p: Good, msg: Word, i: nat)
    requires FitsWord(p) && i <= NBlocks(p)
    ensures PrefixAt(p, msg, i) == msg % Pow2(Width(p)) / Pow2(Times(NBlocks(p) - i, p.blockLen))
  {
    PrefixIs(p, msg, i);
    LowIsMod(msg, Width(p));
    LowIsMod(Low(msg, Width(p)), Times(NBlocks(p) - i, p.blockLen));
  }

  lemma BlockNumber(p: Good, msg: Word, i: nat)
    requires FitsWord(p) && i < NBlocks(p)
    ensures BlockAt(p, msg, i) == msg / Pow2(Times(NBlocks(p) - 1 - i, p.blockLen)) % Pow2(p.blockLen)
  {
    FullBlock(p, msg, i);
    LowIsMod(msg, ShiftAt(p, i));
    LowIsMod(High(msg, ShiftAt(p, i)), p.blockLen);
  }

  /** j << 8 | flag, as a sum. */
  lemma TagInputIs(j: Word, flag: Byte, n: nat)
    requires j < 0x1_0000 && n == 8
    ensures OrWord(Shl(j, n), flag) == 256 * j + flag
  {
    Pow2Byte(0);
    Pow2Byte(8);
    ShlExact(j, 16, n);
    OrDisjoint(j, flag, n);
    UpIsMul(j, n);
  }

  lemma FewSlots(p: Good)
    ensures NSlots(p) <= 0x1_0000
  {
    Pow2Mono(p.blockLen, 16);
    Pow2Byte(0);
    Pow2Byte(8);
  }

  /** The numbers that block i of a message is made of. */
  datatype BlockView = BlockView(prefix: Word, cur: nat, keys: seq<Block>)

  /** The bits above the block, the block, and the round keys that the cipher makes of block number and prefix. */
  ghost predicate Shows(o: Oracle, sk: GoodKey, msg: Word, i: Word, view: BlockView)
    requires i < NBlocks(sk.params)
  {
    var p := sk.params;
    && view.prefix == msg % Pow2(Width(p)) / Pow2(Times(NBlocks(p) - i, p.blockLen))
    && view.cur == msg / Pow2(Times(NBlocks(p) - 1 - i, p.blockLen)) % Pow2(p.blockLen)
    && view.keys == RoundKeys(o.aes, o.aes(sk.prpKey, Block(i, view.prefix)))
  }

  lemma ViewOf(o: Oracle, sk: GoodKey, msg: Word, i: Word) returns (view: BlockView)
    requires FitsWord(sk.params) && i < NBlocks(sk.params)
    ensures Shows(o, sk, msg, i, view)
    ensures view == BlockView(PrefixAt(sk.params, msg, i), BlockAt(sk.params, msg, i), BlockKeys(o, sk, msg, i))
  {
    PrefixNumber(sk.params, msg, i);
    BlockNumber(sk.params, msg, i);
    view := BlockView(PrefixAt(sk.params, msg, i), BlockAt(sk.params, msg, i), BlockKeys(o, sk, msg, i));
  }

  lemma SlotKeyIs(o: Oracle, sk: GoodKey, msg: Word, i: Word, j: Word) returns (slotIn: Word)
    requires FitsWord(sk.params) && i < NBlocks(sk.params) && j < NSlots(sk.params)
    ensures slotIn == PrefixAt(sk.params, msg, i) * Pow2(sk.params.blockLen) + j
    ensures SlotKey(o, sk, msg, i, j) == o.aes(sk.prfKey, Block(i, slotIn))
  {
    SlotInputIs(sk.params, msg, i, j);
    slotIn := OrWord(Shl(PrefixAt(sk.params, msg, i), sk.params.blockLen), j);
  }

  lemma NameTagIs(o: Oracle, p: Good, cname: Bytes, j: Word, flag: Byte) returns (tagIn: Word)
    requires j < NSlots(p)
    ensures tagIn == 256 * j + flag && NameTag(o, cname, j, flag) == o.aes(o.sha(cname), Block(o.sha(cname).lo, tagIn))
  {
    FewSlots(p);
    TagInputIs(j, flag, 8);
    tagIn := OrWord(Shl(j, 8), flag);
  }

  /** The bytes of left block i: its key, its tag and its slot number. */
  lemma LeftStands(p: Good, left: Bytes, i: nat)
    requires LeftOffset(p, i) + 32 + PixBytes(p) <= |left|
    ensures var off, part, n := LeftOffset(p, i), ReadLeft(p, left, i), (p.blockLen + 7) / 8;
      && off == i * (32 + (p.nbits + 7) / 8) && off + 32 + n <= |left|
      && left[off..off + 16] == BlockBytes(part.key) && left[off + 16..off + 32] == BlockBytes(part.tag)
      && left[off + 32..off + 32 + n] == ToLE(part.pix, n)
  {
    var off := LeftOffset(p, i);
    CeilIsDiv(p.nbits, 8);
    CeilIsDiv(p.blockLen, 8);
    TimesIsMul(i, LeftBlockLen(p));
    BlockStands(left, off, 8);
    BlockStands(left, off + 16, 8);
    ToLERead(left, off + 32, PixBytes(p));
  }

  /** Byte for byte, block i of a query is the cipher of (i, prefix * 2^block_len + slot) under the PRF key, the cipher
      of (hash, 256 * slot + aim) under the hash of the column name, and the slot, which is where the permutation sends
      the block. */
  lemma QueryBytes(o: Oracle, sk: GoodKey, cname: Bytes, msg: Word, aim: Byte, left: Bytes, i: Word)
    returns (view: BlockView, off: nat, slot: nat, slotIn: Word, tagIn: Word)
    requires FitsWord(sk.params) && IsQuery(o, sk, cname, msg, aim, left) && i < NBlocks(sk.params)
    ensures Shows(o, sk, msg, i, view)
    ensures off == i * (32 + (sk.params.nbits + 7) / 8) && off + 32 + (sk.params.blockLen + 7) / 8 <= |left|
    ensures slot == Prp(o.aes, view.keys, sk.params.blockLen, false, view.cur)
    ensures slotIn == view.prefix * Pow2(sk.params.blockLen) + slot && tagIn == 256 * slot + aim
    ensures left[off..off + 16] == BlockBytes(o.aes(sk.prfKey, Block(i, slotIn)))
    ensures left[off + 16..off + 32] == BlockBytes(o.aes(o.sha(cname), Block(o.sha(cname).lo, tagIn)))
    ensures left[off + 32..off + 32 + (sk.params.blockLen + 7) / 8] == ToLE(slot, (sk.params.blockLen + 7) / 8)
  {
    var p := sk.params;
    view := ViewOf(o, sk, msg, i);
    assert PartIs(o, sk, cname, msg, aim, left, i);
    off, slot := LeftOffset(p, i), QueryPart(o, sk, cname, msg, aim, i).pix;
    LeftStands(p, left, i);
    FewSlots(p);
    slotIn := SlotKeyIs(o, sk, msg, i, slot);
    tagIn := NameTagIs(o, p, cname, slot, aim);
  }

  /** Where slot j of block i stands. */
  lemma RightOffsetIs(p: Good, i: nat, j: nat)
    ensures RightOffset(p, i, j)
         == 16 + i * (Pow2(p.blockLen) * ((p.cmpLen + 7) / 8)) + j * ((p.cmpLen + 7) / 8)
  {
    CeilIsDiv(p.cmpLen, 8);
    TimesIsMul(i, RightBlockLen(p));
    TimesIsMul(NSlots(p), CmpBytes(p));
    TimesIsMul(j, CmpBytes(p));
  }

  lemma SlotHashIs(o: Oracle, sk: GoodKey, nonce: Block, msg: Word, i: Word, j: Word) returns (slotIn: Word)
    requires FitsWord(sk.params) && i < NBlocks(sk.params) && j < NSlots(sk.params)
    ensures slotIn == PrefixAt(sk.params, msg, i) * Pow2(sk.params.blockLen) + j
    ensures KeyedHash(o, sk.params.cmpLen, SlotKey(o, sk, msg, i, j), nonce)
         == o.aes(nonce, o.aes(sk.prfKey, Block(i, slotIn))).lo % Pow2(sk.params.cmpLen)
  {
    slotIn := SlotKeyIs(o, sk, msg, i, j);
    MaskedIs(o.aes(nonce, SlotKey(o, sk, msg, i, j)).lo, sk.params.cmpLen);
  }

  lemma SlotTagIs(o: Oracle, p: Good, cname: Bytes, rnum: Word, j: Word, flag: Byte) returns (tagIn: Word)
    requires j < NSlots(p)
    ensures tagIn == 256 * j + flag
    ensures RowTag(o, p.cmpLen, cname, rnum, j, flag)
         == o.aes(Block(rnum, 0), o.aes(o.sha(cname), Block(o.sha(cname).lo, tagIn))).lo % Pow2(p.cmpLen)
  {
    tagIn := NameTagIs(o, p, cname, j, flag);
    MaskedIs(o.aes(Block(rnum, 0), NameTag(o, cname, j, flag)).lo, p.cmpLen);
  }

  /** Byte for byte, slot j of block i of an index for row rnum, behind the nonce and the slots before it: the cipher of
      the slot's PRF value under the nonce, and unless the permutation brings the block itself to this slot, exclusive
      or the row's cipher of the name's cipher of (hash, 256 * j + 1) when it brings a smaller value and of
      (hash, 256 * j + 3) when it brings a larger one; each cut to cmp_len bits. */
  lemma IndexBytes(o: Oracle, sk: GoodKey, cname: Bytes, rnum: Word, nonce: Block, msg: Word, right: Bytes, i: Word,
                   j: Word)
    returns (view: BlockView, at: nat, slotIn: Word, tagIn: Word, hash: nat, tag: nat, stored: nat)
    requires FitsWord(sk.params) && IsIndex(o, sk, cname, rnum, nonce, msg, right)
    requires i < NBlocks(sk.params) && j < NSlots(sk.params)
    ensures Shows(o, sk, msg, i, view)
    ensures at == 16 + i * (Pow2(sk.params.blockLen) * ((sk.params.cmpLen + 7) / 8)) + j * ((sk.params.cmpLen + 7) / 8)
    ensures right[..16] == BlockBytes(nonce)
    ensures slotIn == view.prefix * Pow2(sk.params.blockLen) + j
    ensures hash == o.aes(nonce, o.aes(sk.prfKey, Block(i, slotIn))).lo % Pow2(sk.params.cmpLen)
    ensures var v := Prp(o.aes, view.keys, sk.params.blockLen, true, j);
      && tagIn == 256 * j + (if v < view.cur then 1 else 3)
      && stored == if v == view.cur then hash else Xor(hash, tag)
    ensures tag == o.aes(Block(rnum, 0), o.aes(o.sha(cname), Block(o.sha(cname).lo, tagIn))).lo
                     % Pow2(sk.params.cmpLen)
    ensures at + (sk.params.cmpLen + 7) / 8 <= |right|
    ensures right[at..at + (sk.params.cmpLen + 7) / 8] == ToLE(stored, (sk.params.cmpLen + 7) / 8)
  {
    var p := sk.params;
    view := ViewOf(o, sk, msg, i);
    assert SlotIs(o, sk, cname, rnum, nonce, msg, right, i, j);
    at, stored := RightOffset(p, i, j), IndexSlot(o, sk, cname, rnum, nonce, msg, i, j);
    RightOffsetIs(p, i, j);
    slotIn := SlotHashIs(o, sk, nonce, msg, i, j);
    var flag: Byte := if Prp(o.aes, view.keys, p.blockLen, true, j) < view.cur then 1 else 3;
    tagIn := SlotTagIs(o, p, cname, rnum, j, flag);
    hash := KeyedHash(o, p.cmpLen, SlotKey(o, sk, msg, i, j), nonce);
    tag := RowTag(o, p.cmpLen, cname, rnum, j, flag);
    CeilIsDiv(p.cmpLen, 8);
    BlockStands(right, 0, 8);
    ToLERead(right, at, CmpBytes(p));
  }

  lemma MaskedIs(x: Word, n: nat)
    requires n <= 64
    ensures And(x, CmpMask(n)) == x % Pow2(n)
  {
    AndMask(x, n);
    LowIsMod(x, n);
  }

  // When the comparison is right ----------------------------------------

  /** Equal prefixes below a block mean equal prefixes above it and equal blocks. */
  lemma SameStep(p: Good, q: Word, x: Word, i: nat)
    requires FitsWord(p) && i < NBlocks(p) && PrefixAt(p, q, i + 1) == PrefixAt(p, x, i + 1)
    ensures SameAt(p, q, x, i)
  {
    JoinedPrefix(p, q, i);
    JoinedPrefix(p, x, i);
  }

  lemma JoinedPrefix(p: Good, msg: Word, i: nat)
    requires FitsWord(p) && i < NBlocks(p)
    ensures High(PrefixAt(p, msg, i + 1), p.blockLen) == PrefixAt(p, msg, i)
    ensures Low(PrefixAt(p, msg, i + 1), p.blockLen) == BlockAt(p, msg, i)
  {
    PrefixIs(p, msg, i);
    PrefixStep(p, msg, i);
    BlockIs(p, msg, i);
    JoinCut(PrefixAt(p, msg, i), BlockAt(p, msg, i), p.blockLen);
  }

  /** And so on all the way up. */
  lemma {:induction false} EqualAbove(p: Good, q: Word, x: Word, i: nat)
    requires FitsWord(p) && i <= NBlocks(p) && PrefixAt(p, q, i) == PrefixAt(p, x, i)
    ensures forall k: nat :: k < i ==> SameAt(p, q, x, k)
  {
    if i > 0 {
      SameStep(p, q, x, i - 1);
      EqualAbove(p, q, x, i - 1);
    }
  }

  predicate SameAt(p: Good, q: Word, x: Word, k: nat)
    requires k < NBlocks(p)
  {
    PrefixAt(p, q, k) == PrefixAt(p, x, k) && BlockAt(p, q, k) == BlockAt(p, x, k)
  }

  /** Above the first difference the comparison finds nothing. */
  lemma NothingDecidedAbove(o: Oracle, sk: GoodKey, cname: Bytes, rnum: Word, nonce: Block, q: Word, x: Word, aim: Byte,
                            left: Bytes, right: Bytes, i: nat)
    requires sk.params.blockLen % 2 == 0 && FitsWord(sk.params)
    requires IsQuery(o, sk, cname, q, aim, left) && IsIndex(o, sk, cname, rnum, nonce, x, right)
    requires i < NBlocks(sk.params) && PrefixAt(sk.params, q, i) == PrefixAt(sk.params, x, i)
    ensures Readable(sk.params, left, right)
    ensures forall k: nat :: k < i ==> CompareSteps(o, sk.params, left, right, rnum)[k] == 0
  {
    HonestReadable(o, sk, cname, q, aim, left, right);
    EqualAbove(sk.params, q, x, i);
    forall k: nat | k < i
      ensures CompareSteps(o, sk.params, left, right, rnum)[k] == 0
    {
      assert SameAt(sk.params, q, x, k);
      CompareBlockIs(o, sk, cname, rnum, nonce, q, x, aim, left, right, k);
    }
  }

  /** Where the numbers first differ, the comparison stops with the two tags of that one slot. */
  lemma CompareStopsAt(o: Oracle, sk: GoodKey, cname: Bytes, rnum: Word, nonce: Block, q: Word, x: Word, aim: Byte,
                       left: Bytes, right: Bytes, i: nat)
    requires sk.params.blockLen % 2 == 0 && FitsWord(sk.params)
    requires IsQuery(o, sk, cname, q, aim, left) && IsIndex(o, sk, cname, rnum, nonce, x, right)
    requires i < NBlocks(sk.params) && PrefixAt(sk.params, q, i) == PrefixAt(sk.params, x, i)
    requires BlockAt(sk.params, q, i) != BlockAt(sk.params, x, i)
    ensures Readable(sk.params, left, right)
    ensures QueryPart(o, sk, cname, q, aim, i).pix < NSlots(sk.params) <= 0x1_0000_0000_0000_0000
    ensures var p, pix := sk.params, QueryPart(o, sk, cname, q, aim, i).pix;
      var diff := RowTag(o, p.cmpLen, cname, rnum, pix, DifferenceFlag(BlockAt(p, q, i), BlockAt(p, x, i)));
      diff != 0 ==>
        Compare(o, p, left, right, rnum) == if RowTag(o, p.cmpLen, cname, rnum, pix, aim) == diff then 1 else -1
  {
    var p := sk.params;
    CompareBlockIs(o, sk, cname, rnum, nonce, q, x, aim, left, right, i);
    NothingDecidedAbove(o, sk, cname, rnum, nonce, q, x, aim, left, right, i);
    var steps := CompareSteps(o, p, left, right, rnum);
    if CompareBlock(o, p, left, right, rnum, i) != 0 {
      FirstIs(steps, 0, i);
    }
  }

  /** With a nonzero tag of the difference at the deciding slot, the comparison is right exactly when the aim is that
      difference or its tag is another one: no other slot of the row matters. */
  lemma DecisionIsRight(o: Oracle, sk: GoodKey, cname: Bytes, rnum: Word, nonce: Block, q: Word, x: Word, aim: Byte,
                        left: Bytes, right: Bytes, i: nat)
    requires sk.params.blockLen % 2 == 0 && FitsWord(sk.params)
    requires IsQuery(o, sk, cname, q, aim, left) && IsIndex(o, sk, cname, rnum, nonce, x, right)
    requires i < NBlocks(sk.params) && PrefixAt(sk.params, q, i) == PrefixAt(sk.params, x, i)
    requires BlockAt(sk.params, q, i) != BlockAt(sk.params, x, i)
    ensures Readable(sk.params, left, right)
    ensures QueryPart(o, sk, cname, q, aim, i).pix < NSlots(sk.params) <= 0x1_0000_0000_0000_0000
    ensures var p, pix := sk.params, QueryPart(o, sk, cname, q, aim, i).pix;
      var flag := DifferenceFlag(BlockAt(p, q, i), BlockAt(p, x, i));
      var diff := RowTag(o, p.cmpLen, cname, rnum, pix, flag);
      diff != 0 ==>
        (Compare(o, p, left, right, rnum) == Answer(Low(q, Width(p)), Low(x, Width(p)), aim)
         <==> flag == aim || RowTag(o, p.cmpLen, cname, rnum, pix, aim) != diff)
  {
    CompareStopsAt(o, sk, cname, rnum, nonce, q, x, aim, left, right, i);
    DifferenceDecides(sk.params, q, x, i);
  }

  lemma {:induction false} SkipZeros(steps: seq<int>, i: nat, n: nat)
    requires i <= n <= |steps| && forall k: nat :: i <= k < n ==> steps[k] == 0
    ensures FirstDecision(steps, i) == FirstDecision(steps, n)
    decreases n - i
  {
    if i < n {
      SkipZeros(steps, i + 1, n);
    }
  }

  /** A zero tag of the difference hides it: the comparison goes on with the blocks below, and where there are none it
      takes different numbers for equal. */
  lemma ZeroTagHides(o: Oracle, sk: GoodKey, cname: Bytes, rnum: Word, nonce: Block, q: Word, x: Word, aim: Byte,
                     left: Bytes, right: Bytes, i: nat)
    requires sk.params.blockLen % 2 == 0 && FitsWord(sk.params)
    requires IsQuery(o, sk, cname, q, aim, left) && IsIndex(o, sk, cname, rnum, nonce, x, right)
    requires i < NBlocks(sk.params) && PrefixAt(sk.params, q, i) == PrefixAt(sk.params, x, i)
    requires BlockAt(sk.params, q, i) != BlockAt(sk.params, x, i)
    ensures Readable(sk.params, left, right)
    ensures QueryPart(o, sk, cname, q, aim, i).pix < NSlots(sk.params) <= 0x1_0000_0000_0000_0000
    ensures var p, pix := sk.params, QueryPart(o, sk, cname, q, aim, i).pix;
      RowTag(o, p.cmpLen, cname, rnum, pix, DifferenceFlag(BlockAt(p, q, i), BlockAt(p, x, i))) == 0 ==>
        && Compare(o, p, left, right, rnum) == FirstDecision(CompareSteps(o, p, left, right, rnum), i + 1)
        && (i + 1 == NBlocks(p) ==> Compare(o, p, left, right, rnum) == 0)
    ensures Answer(Low(q, Width(sk.params)), Low(x, Width(sk.params)), aim) != 0
  {
    CompareBlockIs(o, sk, cname, rnum, nonce, q, x, aim, left, right, i);
    NothingDecidedAbove(o, sk, cname, rnum, nonce, q, x, aim, left, right, i);
    DifferenceDecides(sk.params, q, x, i);
    SkipZeros(CompareSteps(o, sk.params, left, right, rnum), 0, i);
  }

  // When the tags can be apart ------------------------------------------

  /** One-bit tags cannot be: both would have to be 1. */
  lemma OneBitTagsNeverApart(o: Oracle, p: Good, cname: Bytes, rnum: Word, aim: Byte)
    requires p.cmpLen <= 1 && (aim == ORE_SMALL || aim == ORE_LARGE)
    ensures !RowApart(o, p, cname, rnum, aim)
  {
    var other: Byte := if aim == ORE_SMALL then ORE_LARGE else ORE_SMALL;
    Pow2Mono(p.cmpLen, 1);
    assert RowTag(o, p.cmpLen, cname, rnum, 0, aim) < 2 && RowTag(o, p.cmpLen, cname, rnum, 0, other) < 2;
    assert !TagsApart(o, p.cmpLen, cname, rnum, 0, aim);
  }

  /** A cipher that keeps the two low bits of its input. */
  function TwoBits(key: Block, b: Block): Block { Block(0, b.lo % 4) }

  lemma OrKeepsTwoBits(a: nat, b: nat)
    requires a % 4 == 0 && b < 4
    ensures Or(a, b) % 4 == b
  {
  }

  lemma UpTwo(x: nat, n: nat)
    ensures Up(x, n + 2) == 4 * Up(x, n)
  {
    assert Up(x, n + 2) == 2 * Up(x, n + 1);
  }

  /** Four divides the word size, so storing a multiple of four leaves one. */
  lemma FoursStay(u: nat, m: nat)
    requires m > 0
    ensures (4 * u) % (4 * m) % 4 == 0
  {
    var q, r := u / m, u % m;
    assert 4 * u == q * (4 * m) + 4 * r;
    DivModUnique(4 * u, 4 * m, q, 4 * r);
  }

  lemma ShiftedByte(j: Word, n: nat)
    requires n >= 2
    ensures Shl(j, n) % 4 == 0
  {
    UpTwo(j, n - 2);
    FoursStay(Up(j, n - 2), 0x4000_0000_0000_0000);
  }

  /** Wider tags can be apart in every row, for both aims. */
  lemma WideTagsCanBeApart(p: Good, sha: Bytes -> Block, cname: Bytes, rnum: Word, aim: Byte)
    requires p.cmpLen >= 2 && (aim == ORE_SMALL || aim == ORE_LARGE)
    ensures RowApart(Oracle(TwoBits, sha), p, cname, rnum, aim)
  {
    var o := Oracle(TwoBits, sha);
    forall j: Word | j < NSlots(p)
      ensures TagsApart(o, p.cmpLen, cname, rnum, j, aim)
    {
      TwoBitTag(p.cmpLen, sha, cname, rnum, j, ORE_SMALL);
      TwoBitTag(p.cmpLen, sha, cname, rnum, j, ORE_LARGE);
    }
  }

  lemma TwoBitTag(cmpLen: nat, sha: Bytes -> Block, cname: Bytes, rnum: Word, j: Word, flag: Byte)
    requires 2 <= cmpLen <= 64 && flag < 4
    ensures RowTag(Oracle(TwoBits, sha), cmpLen, cname, rnum, j, flag) == flag
  {
    ShiftedByte(j, 8);
    OrKeepsTwoBits(Shl(j, 8), flag);
    Pow2Mono(2, cmpLen);
    AndMask(flag, cmpLen);
    LowSmall(flag, cmpLen);
  }

  /** A value of one block stands in the last one, under an empty prefix. */
  lemma LastBlockIs(p: Good, v: Word)
    requires FitsWord(p) && v < NSlots(p)
    ensures PrefixAt(p, v, NBlocks(p) - 1) == 0 && BlockAt(p, v, NBlocks(p) - 1) == v == Low(v, Width(p))
  {
    var i := NBlocks(p) - 1;
    FewBlocks(p);
    TimesMono(1, NBlocks(p), p.blockLen);
    assert Times(NBlocks(p) - i, p.blockLen) == p.blockLen;
    Pow2Mono(p.blockLen, Width(p));
    LowSmall(v, Width(p));
    LowSmall(v, p.blockLen);
    PrefixIs(p, v, i);
    FullBlock(p, v, i);
  }

  lemma SmallNumbers(p: Good)
    requires p.blockLen % 2 == 0
    ensures NSlots(p) >= 4
  {
    Pow2Mono(2, p.blockLen);
  }

  /** What comparing q with x in one row answers, for given ways of making the buffers, and what it should answer. */
  ghost predicate RightAbout(o: Oracle, sk: GoodKey, rnum: Word, aim: Byte, left: Bytes, right: Bytes, q: Word, x: Word)
  {
    && Readable(sk.params, left, right)
    && Compare(o, sk.params, left, right, rnum) == Answer(q % Pow2(Width(sk.params)), x % Pow2(Width(sk.params)), aim)
  }

  /** One-bit tags make a mistake in every row: about 1 and 0, or about 1 and 2. */
  lemma ShortTagsMistake(o: Oracle, sk: GoodKey, cname: Bytes, rnum: Word, nonce: Block, aim: Byte,
                         left: Bytes, right0: Bytes, right2: Bytes)
    requires sk.params.blockLen % 2 == 0 && FitsWord(sk.params) && sk.params.cmpLen <= 1
    requires aim == ORE_SMALL || aim == ORE_LARGE
    requires IsQuery(o, sk, cname, 1, aim, left)
    requires IsIndex(o, sk, cname, rnum, nonce, 0, right0) && IsIndex(o, sk, cname, rnum, nonce, 2, right2)
    ensures !RightAbout(o, sk, rnum, aim, left, right0, 1, 0) || !RightAbout(o, sk, rnum, aim, left, right2, 1, 2)
  {
    var p, i := sk.params, NBlocks(sk.params) - 1;
    FewBlocks(p);
    SmallNumbers(p);
    Pow2Mono(p.cmpLen, 1);
    LastBlockIs(p, 0);
    LastBlockIs(p, 1);
    LastBlockIs(p, 2);
    LowIsMod(0, Width(p));
    LowIsMod(1, Width(p));
    LowIsMod(2, Width(p));
    DecisionIsRight(o, sk, cname, rnum, nonce, 1, 0, aim, left, right0, i);
    DecisionIsRight(o, sk, cname, rnum, nonce, 1, 2, aim, left, right2, i);
    ZeroTagHides(o, sk, cname, rnum, nonce, 1, 0, aim, left, right0, i);
    ZeroTagHides(o, sk, cname, rnum, nonce, 1, 2, aim, left, right2, i);
  }

  /** Every comparison of the row is right. */
  ghost predicate AlwaysRight(o: Oracle, sk: GoodKey, rnum: Word, aim: Byte, lefts: (Oracle, Word) -> Bytes,
                              rights: (Oracle, Word) -> Bytes)
  {
    forall q: Word, x: Word :: RightAbout(o, sk, rnum, aim, lefts(o, q), rights(o, x), q, x)
  }

  /** Exactly when tags have two bits or more is there a cipher under which every comparison of a row is right, for
      every way of making honest buffers. cmp_len 0 and 1 pass the validity check and fail here for every cipher. */
  lemma SomeCipherIsRightIff(sk: GoodKey, sha: Bytes -> Block, cname: Bytes, rnum: Word, nonce: Block, aim: Byte,
                             lefts: (Oracle, Word) -> Bytes, rights: (Oracle, Word) -> Bytes)
    requires sk.params.blockLen % 2 == 0 && FitsWord(sk.params) && (aim == ORE_SMALL || aim == ORE_LARGE)
    requires forall o: Oracle, q: Word :: IsQuery(o, sk, cname, q, aim, lefts(o, q))
    requires forall o: Oracle, x: Word :: IsIndex(o, sk, cname, rnum, nonce, x, rights(o, x))
    ensures sk.params.cmpLen >= 2
      <==> exists aes: Cipher :: AlwaysRight(Oracle(aes, sha), sk, rnum, aim, lefts, rights)
  {
    if sk.params.cmpLen >= 2 {
      var o := Oracle(TwoBits, sha);
      WideTagsCanBeApart(sk.params, sha, cname, rnum, aim);
      forall q: Word, x: Word
        ensures RightAbout(o, sk, rnum, aim, lefts(o, q), rights(o, x), q, x)
      {
        CompareCorrect(o, sk, cname, rnum, nonce, q, x, aim, lefts(o, q), rights(o, x));
      }
      assert AlwaysRight(Oracle(TwoBits, sha), sk, rnum, aim, lefts, rights);
    } else {
      forall aes: Cipher
        ensures !AlwaysRight(Oracle(aes, sha), sk, rnum, aim, lefts, rights)
      {
        var o := Oracle(aes, sha);
        ShortTagsMistake(o, sk, cname, rnum, nonce, aim, lefts(o, 1), rights(o, 0), rights(o, 2));
      }
    }
  }

  /** The validity check lets cmp_len 0 through, and then every comparison answers "equal". */
  lemma ZeroCmpLenAlwaysEqual(o: Oracle, p: Good, left: Bytes, right: Bytes, rnum: Word)
    requires p.cmpLen == 0 && Readable(p, left, right)
    ensures Compare(o, p, left, right, rnum) == 0
  {
    forall i: nat | i < NBlocks(p)
      ensures BlockReadable(p, left, right, i) && CompareBlock(o, p, left, right, rnum, i) == 0
    {
      assert BlockReadable(p, left, right, i);
      AndMask(ReadSlot(p, right, i, ReadLeft(p, left, i).pix), 0);
    }
    NoDecision(CompareSteps(o, p, left, right, rnum), 0);
  }

  /** The bit of block 1 that the truncated mask misses when the blocks do not fit in a word. */
  function LostBit(p: Good): nat
    requires !FitsWord(p)
  {
    LostBitExists(p);
    Times(NBlocks(p) - 2, p.blockLen) + EffectiveLen(p)
  }

  lemma LostBitExists(p: Good)
    requires !FitsWord(p)
    ensures NBlocks(p) >= 2 && EffectiveLen(p) < p.blockLen
    ensures Times(NBlocks(p) - 2, p.blockLen) + EffectiveLen(p) < Times(NBlocks(p) - 1, p.blockLen) < 64
  {
    FewBlocks(p);
  }

  lemma {:induction false} CeilNeedsAll(x: nat, y: nat)
    requires x > 0 && y > 0
    ensures Times(Ceil(x, y) - 1, y) < x
  {
    if x > y {
      CeilNeedsAll(x - y, y);
    }
  }

  /** A single bit at t, seen through a shift and a cut. */
  lemma SingleBit(t: nat, s: nat, e: nat)
    requires s + e <= t || t < s
    ensures Low(High(Up(1, t), s), e) == 0
  {
    if t < s {
      HighUpSmall(t, s);
      LowSmall(0, e);
    } else {
      UpUp(1, t - s, s);
      HighUp(1, t - s, s);
      UpUp(1, t - s - e, e);
      JoinCut(Up(1, t - s - e), 0, e);
    }
  }

  lemma {:induction false} HighUpSmall(t: nat, s: nat)
    requires t < s
    ensures High(Up(1, t), s) == 0
  {
    if t > 0 {
      HighUpSmall(t - 1, s - 1);
      assert Up(1, t) / 2 == Up(1, t - 1);
    } else {
      LowSmall(0, s - 1);
    }
  }

  lemma LostBitInWord(p: Good)
    requires !FitsWord(p)
    ensures 0 < Up(1, LostBit(p)) < Pow2(p.nbits) && Up(1, LostBit(p)) < 0x1_0000_0000_0000_0000
  {
    LostBitExists(p);
    CeilNeedsAll(p.nbits, p.blockLen);
    UpIsMul(1, LostBit(p));
    JoinBound(1, 0, 1, LostBit(p));
    Pow2Mono(LostBit(p) + 1, p.nbits);
    Pow2Fits(LostBit(p) + 1);
  }

  /** Every block of the lost bit alone is zero, just as for the number 0. */
  lemma LostBitInvisible(p: Good, i: nat)
    requires !FitsWord(p) && i < NBlocks(p)
    requires Up(1, LostBit(p)) < 0x1_0000_0000_0000_0000
    ensures BlockAt(p, Up(1, LostBit(p)), i) == BlockAt(p, 0, i)
  {
    var t, e, bl, n := LostBit(p), EffectiveLen(p), p.blockLen, NBlocks(p);
    LostBitExists(p);
    BlockIs(p, Up(1, t), i);
    BlockIs(p, 0, i);
    if i == 0 {
      assert t < ShiftAt(p, 0);
    } else {
      TimesMono(n - 1 - i, n - 2, bl);
      assert ShiftAt(p, i) + e <= t;
    }
    SingleBit(t, ShiftAt(p, i), e);
    LowSmall(0, ShiftAt(p, i));
    LowSmall(0, e);
  }

  /** Exactly when the blocks fit in the word can the block walk tell any two nbits-bit words apart. */
  lemma WalkSeparatesIffFits(p: Good)
    ensures FitsWord(p) <==>
      forall q: Word, x: Word :: q < Pow2(p.nbits) && x < Pow2(p.nbits) && q != x ==>
          FirstDecision(Verdicts(p, q, x, ORE_LARGE), 0) != 0
  {
    if FitsWord(p) {
      forall q: Word, x: Word | q < Pow2(p.nbits) && x < Pow2(p.nbits) && q != x
        ensures FirstDecision(Verdicts(p, q, x, ORE_LARGE), 0) != 0
      {
        VerdictIsAnswer(p, q, x, ORE_LARGE, 0);
        WidthCovers(p);
        Pow2Mono(p.nbits, Width(p));
        LowSmall(q, Width(p));
        LowSmall(x, Width(p));
      }
    } else {
      LostBitInWord(p);
      var q: Word, x: Word := Up(1, LostBit(p)), 0;
      forall i | 0 <= i < NBlocks(p)
        ensures BlockVerdict(p, q, x, ORE_LARGE, i) == 0
      {
        LostBitInvisible(p, i);
      }
      NoDecision(Verdicts(p, q, x, ORE_LARGE), 0);
      assert q != x && FirstDecision(Verdicts(p, q, x, ORE_LARGE), 0) == 0;
    }
  }

  /** Exactly when the blocks fit in the word does the comparison tell any two nbits-bit words apart, for every way of
      making honest buffers. nbits = 64 with block_len = 12 passes the validity check and fails here. */
  lemma SeparatesIffFits(o: Oracle, sk: GoodKey, cname: Bytes, rnum: Word, nonce: Block, aim: Byte,
                         lefts: Word -> Bytes, rights: Word -> Bytes)
    requires sk.params.blockLen % 2 == 0 && RowApart(o, sk.params, cname, rnum, aim)
    requires forall q: Word :: IsQuery(o, sk, cname, q, aim, lefts(q))
    requires forall x: Word :: IsIndex(o, sk, cname, rnum, nonce, x, rights(x))
    ensures forall q: Word, x: Word :: Readable(sk.params, lefts(q), rights(x))
    ensures FitsWord(sk.params) <==>
      forall q: Word, x: Word :: q < Pow2(sk.params.nbits) && x < Pow2(sk.params.nbits) && q != x ==>
        Compare(o, sk.params, lefts(q), rights(x), rnum) != 0
  {
    var p := sk.params;
    forall q: Word, x: Word
      ensures Readable(p, lefts(q), rights(x))
      ensures Compare(o, p, lefts(q), rights(x), rnum) == 0 <==> FirstDecision(Verdicts(p, q, x, ORE_LARGE), 0) == 0
    {
      CompareWalksBlocks(o, sk, cname, rnum, nonce, q, x, aim, lefts(q), rights(x));
      SameZero(p, q, x, aim, ORE_LARGE);
    }
    WalkSeparatesIffFits(p);
  }

  /** Whether a walk decides at all does not depend on the aim. */
  lemma SameZero(p: Good, q: Word, x: Word, a: Byte, b: Byte)
    ensures FirstDecision(Verdicts(p, q, x, a), 0) == 0 <==> FirstDecision(Verdicts(p, q, x, b), 0) == 0
  {
    var va, vb := Verdicts(p, q, x, a), Verdicts(p, q, x, b);
    NoDecision(va, 0);
    NoDecision(vb, 0);
    assert forall k :: 0 <= k < |va| ==> (va[k] == 0 <==> vb[k] == 0);
  }

  lemma {:induction false} CeilTimesCovers(x: nat, y: nat)
    requires y > 0
    ensures x <= Times(Ceil(x, y), y)
  {
    if x > y {
      CeilTimesCovers(x - y, y);
    }
  }

  lemma WidthCovers(p: Good)
    ensures p.nbits <= Width(p)
  {
    CeilTimesCovers(p.nbits, p.blockLen);
  }

  /** The number whose only bit is the lost one compares as equal to 0. */
  lemma LostBitComparesEqual(o: Oracle, sk: GoodKey, cname: Bytes, rnum: Word, nonce: Block, q: Word, aim: Byte,
                             left: Bytes, right: Bytes)
    requires sk.params.blockLen % 2 == 0 && !FitsWord(sk.params) && q == Up(1, LostBit(sk.params))
    requires IsQuery(o, sk, cname, q, aim, left) && IsIndex(o, sk, cname, rnum, nonce, 0, right)
    requires RowApart(o, sk.params, cname, rnum, aim)
    ensures Readable(sk.params, left, right) && Compare(o, sk.params, left, right, rnum) == 0
  {
    CompareWalksBlocks(o, sk, cname, rnum, nonce, q, 0, aim, left, right);
    forall i | 0 <= i < NBlocks(sk.params)
      ensures BlockVerdict(sk.params, q, 0, aim, i) == 0
    {
      LostBitInvisible(sk.params, i);
    }
    NoDecision(Verdicts(sk.params, q, 0, aim), 0);
  }

  lemma TruncationParams()
    ensures var p := Params(true, 64, 12, 64); Usable(p) && p.blockLen % 2 == 0 && !FitsWord(p) && LostBit(p) == 52
  {
    var p := Params(true, 64, 12, 64);
    assert Ceil(16, 12) == 2 && Ceil(40, 12) == 4 && Ceil(64, 12) == 6;
    assert Times(2, 12) == 24 && Times(4, 12) == 48 && Times(5, 12) == 60 && Times(6, 12) == 72;
    CeilIsDiv(64, 8);
  }

  /** nbits = 64, block_len = 12, cmp_len = 64 are accepted, and there 2 to the 52 and 0 compare as equal. */
  lemma TruncationExample(o: Oracle, sk: GoodKey, cname: Bytes, rnum: Word, nonce: Block, aim: Byte, left: Bytes,
                          right: Bytes)
    requires sk.params == Params(true, 64, 12, 64) && RowApart(o, sk.params, cname, rnum, aim)
    requires IsQuery(o, sk, cname, 0x10_0000_0000_0000, aim, left) && IsIndex(o, sk, cname, rnum, nonce, 0, right)
    ensures ValidParams(sk.params) && Readable(sk.params, left, right) && Compare(o, sk.params, left, right, rnum) == 0
  {
    TruncationParams();
    BitFiftyTwo(LostBit(sk.params));
    LostBitComparesEqual(o, sk, cname, rnum, nonce, 0x10_0000_0000_0000, aim, left, right);
  }

  lemma BitFiftyTwo(n: nat)
    requires n == 52
    ensures Up(1, n) == 0x10_0000_0000_0000
  {
    UpIsMul(1, n);
    FiftyTwo();
  }

  lemma FiftyTwo()
    ensures Pow2(52) == 0x10_0000_0000_0000
  {
    assert Pow2(4) == 16;
    Pow2Byte(4);
    Pow2Byte(12);
    Pow2Byte(20);
    Pow2Byte(28);
    Pow2Byte(36);
    Pow2Byte(44);
  }

  // Several words -------------------------------------------------------

  /** a comes before b as aimed, at the first word where they differ. */
  predicate OrderedAt(a: seq<nat>, b: seq<nat>, n: nat, aim: Byte, k: nat)
    requires n <= |a| && n <= |b| && k < n
  {
    && (forall j :: 0 <= j < k ==> a[j] == b[j])
    && a[k] != b[k]
    && ((aim == ORE_LARGE && a[k] > b[k]) || (aim == ORE_SMALL && a[k] < b[k]))
  }

  lemma {:induction false} FirstNonZero(steps: seq<int>, i: nat) returns (k: nat)
    requires i <= |steps| && FirstDecision(steps, i) != 0
    ensures i <= k < |steps| && steps[k] != 0 && forall j :: i <= j < k ==> steps[j] == 0
    decreases |steps| - i
  {
    if steps[i] != 0 {
      k := i;
    } else {
      k := FirstNonZero(steps, i + 1);
    }
  }

  /** Every common word of the buffers is an honest query and an honest index of one row. */
  ghost predicate HonestWords(o: Oracle, sk: GoodKey, cname: Bytes, rnum: Word, nonces: seq<Block>, qs: seq<Word>,
                              xs: seq<Word>, aim: Byte, query: Bytes, index: Bytes)
    requires LeftLen(sk.params) > 0
  {
    && CommonWords(sk.params, query, index) == |qs| == |xs| == |nonces|
    && forall k :: 0 <= k < |qs| ==>
      && IsQuery(o, sk, cname, qs[k], aim, WordLeft(sk.params, query, k))
      && IsIndex(o, sk, cname, rnum, nonces[k], xs[k], WordRight(sk.params, index, k))
  }

  /** The low bits of every word. */
  function LowWords(p: Params, ws: seq<Word>): (r: seq<nat>)
    ensures |r| == |ws|
    ensures forall k :: 0 <= k < |ws| ==> r[k] == LowWord(p, ws[k])
  {
    seq(|ws|, k requires 0 <= k < |ws| => LowWord(p, ws[k]))
  }

  function LowWord(p: Params, w: Word): nat {
    w % Pow2(Width(p))
  }

  lemma HonestWord(o: Oracle, sk: GoodKey, cname: Bytes, rnum: Word, nonces: seq<Block>, qs: seq<Word>, xs: seq<Word>,
                   aim: Byte, query: Bytes, index: Bytes, k: nat)
    requires sk.params.blockLen % 2 == 0 && FitsWord(sk.params) && LeftLen(sk.params) > 0
    requires RowApart(o, sk.params, cname, rnum, aim)
    requires HonestWords(o, sk, cname, rnum, nonces, qs, xs, aim, query, index) && k < |qs|
    ensures Readable(sk.params, WordLeft(sk.params, query, k), WordRight(sk.params, index, k))
    ensures Compare(o, sk.params, WordLeft(sk.params, query, k), WordRight(sk.params, index, k), rnum)
         == Answer(LowWords(sk.params, qs)[k], LowWords(sk.params, xs)[k], aim)
  {
    CompareCorrect(o, sk, cname, rnum, nonces[k], qs[k], xs[k], aim, WordLeft(sk.params, query, k),
                   WordRight(sk.params, index, k));
  }

  /** Words compared one by one under one row decide lexicographic order over the common words. */
  lemma CompareWordsCorrect(o: Oracle, sk: GoodKey, cname: Bytes, rnum: Word, nonces: seq<Block>, qs: seq<Word>,
                            xs: seq<Word>, aim: Byte, query: Bytes, index: Bytes)
    requires sk.params.blockLen % 2 == 0 && FitsWord(sk.params) && LeftLen(sk.params) > 0
    requires RowApart(o, sk.params, cname, rnum, aim)
    requires HonestWords(o, sk, cname, rnum, nonces, qs, xs, aim, query, index)
    ensures AllReadable(sk.params, query, index)
    ensures var a, b := LowWords(sk.params, qs), LowWords(sk.params, xs);
      var c := CompareWords(o, sk.params, query, index, rnum);
      && (c == 0 <==> a == b)
      && (c == 1 <==> exists k :: 0 <= k < |a| && OrderedAt(a, b, |a|, aim, k))
      && c in {-1, 0, 1}
  {
    var p := sk.params;
    forall k: nat | k < |qs|
      ensures WordReadable(p, query, index, k)
    {
      HonestWord(o, sk, cname, rnum, nonces, qs, xs, aim, query, index, k);
    }
    var steps := WordSteps(o, p, query, index, rnum);
    forall k | 0 <= k < |qs|
      ensures steps[k] == Answer(LowWords(p, qs)[k], LowWords(p, xs)[k], aim)
    {
      HonestWord(o, sk, cname, rnum, nonces, qs, xs, aim, query, index, k);
    }
    WordsDecide(steps, LowWords(p, qs), LowWords(p, xs), aim);
  }

  /** A walk over word answers decides lexicographic order. */
  lemma WordsDecide(steps: seq<int>, a: seq<nat>, b: seq<nat>, aim: Byte)
    requires |steps| == |a| == |b| && forall k :: 0 <= k < |a| ==> steps[k] == Answer(a[k], b[k], aim)
    ensures FirstDecision(steps, 0) == 0 <==> a == b
    ensures FirstDecision(steps, 0) == 1 <==> exists k :: 0 <= k < |a| && OrderedAt(a, b, |a|, aim, k)
    ensures FirstDecision(steps, 0) in {-1, 0, 1}
  {
    DecisionSign(steps, 0);
    NoDecision(steps, 0);
    if FirstDecision(steps, 0) != 0 {
      var k := FirstNonZero(steps, 0);
      FirstIs(steps, 0, k);
      if steps[k] == 1 {
        assert OrderedAt(a, b, |a|, aim, k);
      }
    }
    forall k | 0 <= k < |a| && OrderedAt(a, b, |a|, aim, k)
      ensures FirstDecision(steps, 0) == 1
    {
      FirstIs(steps, 0, k);
    }
  }

  // Words laid end to end -----------------------------------------------

  function EndToEnd(parts: seq<Bytes>): Bytes {
    if parts == [] then [] else EndToEnd(parts[..|parts| - 1]) + parts[|parts| - 1]
  }

  /** Part k of equally long parts stands behind k times their length. */
  lemma {:induction false} PartStands(parts: seq<Bytes>, len: nat, k: nat)
    requires forall j :: 0 <= j < |parts| ==> |parts[j]| == len
    ensures |EndToEnd(parts)| == Times(|parts|, len)
    ensures k < |parts| ==> Times(k, len) + len <= |EndToEnd(parts)| && parts[k] <= EndToEnd(parts)[Times(k, len)..]
  {
    if parts != [] {
      var n := |parts| - 1;
      PartStands(parts[..n], len, k);
      if k < n {
        PrefixGrows(parts[k], EndToEnd(parts[..n]), parts[n], Times(k, len));
      }
    }
  }

  lemma PrefixGrows(a: Bytes, s: Bytes, t: Bytes, off: nat)
    requires off <= |s| && a <= s[off..]
    ensures a <= (s + t)[off..]
  {
    assert (s + t)[off..] == s[off..] + t;
  }

  lemma {:induction false} WholeOfTimes(n: nat, len: nat)
    requires len > 0
    ensures Whole(Times(n, len), len) == n
  {
    if n > 0 {
      WholeOfTimes(n - 1, len);
    }
  }

  /** The common number of words is the smaller of the two quotients. */
  lemma CommonWordsAre(p: Params, query: Bytes, index: Bytes)
    requires LeftLen(p) > 0
    ensures CommonWords(p, query, index)
         == var q, x := |query| / LeftLen(p), |index| / RightLen(p); if q <= x then q else x
  {
    WholeIsDiv(|query|, LeftLen(p));
    WholeIsDiv(|index|, RightLen(p));
  }

  /** What stands behind a query does not matter. */
  lemma QueryGrows(o: Oracle, sk: GoodKey, cname: Bytes, msg: Word, aim: Byte, s: Bytes, t: Bytes)
    requires IsQuery(o, sk, cname, msg, aim, s) && s <= t
    ensures IsQuery(o, sk, cname, msg, aim, t)
  {
    forall i: nat | i < NBlocks(sk.params)
      ensures PartIs(o, sk, cname, msg, aim, t, i)
    {
      assert PartIs(o, sk, cname, msg, aim, s, i);
      var off := LeftOffset(sk.params, i);
      ReadBlockSame(s, t, off);
      ReadBlockSame(s, t, off + 16);
      ReadLESame(s, t, off + 32, PixBytes(sk.params));
    }
  }

  lemma IndexGrows(o: Oracle, sk: GoodKey, cname: Bytes, rnum: Word, nonce: Block, msg: Word, s: Bytes, t: Bytes)
    requires IsIndex(o, sk, cname, rnum, nonce, msg, s) && s <= t
    ensures IsIndex(o, sk, cname, rnum, nonce, msg, t)
  {
    ReadBlockSame(s, t, 0);
    forall i: nat, j: nat | i < NBlocks(sk.params) && j < NSlots(sk.params)
      ensures SlotIs(o, sk, cname, rnum, nonce, msg, t, i, j)
    {
      assert SlotIs(o, sk, cname, rnum, nonce, msg, s, i, j);
      ReadLESame(s, t, RightOffset(sk.params, i, j), CmpBytes(sk.params));
    }
  }

  /** Word k as the setup makes it: its query, its index, and both of full length. */
  ghost predicate WordMade(o: Oracle, sk: GoodKey, cname: Bytes, rnum: Word, nonce: Block, q: Word, x: Word, aim: Byte,
                           left: Bytes, right: Bytes)
  {
    && |left| == LeftLen(sk.params) && IsQuery(o, sk, cname, q, aim, left)
    && |right| == RightLen(sk.params) && IsIndex(o, sk, cname, rnum, nonce, x, right)
  }

  lemma WordFound(o: Oracle, sk: GoodKey, cname: Bytes, rnum: Word, nonce: Block, q: Word, x: Word, aim: Byte,
                  lefts: seq<Bytes>, rights: seq<Bytes>, k: nat)
    requires LeftLen(sk.params) > 0 && k < |lefts| && k < |rights|
    requires forall j :: 0 <= j < |lefts| ==> |lefts[j]| == LeftLen(sk.params)
    requires forall j :: 0 <= j < |rights| ==> |rights[j]| == RightLen(sk.params)
    requires WordMade(o, sk, cname, rnum, nonce, q, x, aim, lefts[k], rights[k])
    ensures k < CommonWords(sk.params, EndToEnd(lefts), EndToEnd(rights))
    ensures IsQuery(o, sk, cname, q, aim, WordLeft(sk.params, EndToEnd(lefts), k))
    ensures IsIndex(o, sk, cname, rnum, nonce, x, WordRight(sk.params, EndToEnd(rights), k))
  {
    var p := sk.params;
    WordCount(p, lefts, rights);
    PartStands(lefts, LeftLen(p), k);
    PartStands(rights, RightLen(p), k);
    QueryGrows(o, sk, cname, q, aim, lefts[k], WordLeft(p, EndToEnd(lefts), k));
    IndexGrows(o, sk, cname, rnum, nonce, x, rights[k], WordRight(p, EndToEnd(rights), k));
  }

  /** Buffers of so many words each have the smaller number in common. */
  lemma WordCount(p: Params, lefts: seq<Bytes>, rights: seq<Bytes>)
    requires LeftLen(p) > 0
    requires forall j :: 0 <= j < |lefts| ==> |lefts[j]| == LeftLen(p)
    requires forall j :: 0 <= j < |rights| ==> |rights[j]| == RightLen(p)
    ensures CommonWords(p, EndToEnd(lefts), EndToEnd(rights)) == if |lefts| <= |rights| then |lefts| else |rights|
    ensures Whole(|EndToEnd(lefts)|, LeftLen(p)) == |lefts| && Whole(|EndToEnd(rights)|, RightLen(p)) == |rights|
  {
    PartStands(lefts, LeftLen(p), |lefts|);
    PartStands(rights, RightLen(p), |rights|);
    WholeOfTimes(|lefts|, LeftLen(p));
    WholeOfTimes(|rights|, RightLen(p));
  }

  /** Queries and indexes as the setup makes them, laid end to end in any two numbers, are what the comparison of
      several words expects. */
  lemma MadeWordsAreHonest(o: Oracle, sk: GoodKey, cname: Bytes, rnum: Word, nonces: seq<Block>, qs: seq<Word>,
                           xs: seq<Word>, aim: Byte, lefts: seq<Bytes>, rights: seq<Bytes>)
    requires LeftLen(sk.params) > 0 && |qs| == |xs| == |nonces|
    requires |qs| == if |lefts| <= |rights| then |lefts| else |rights|
    requires forall j :: 0 <= j < |lefts| ==> |lefts[j]| == LeftLen(sk.params)
    requires forall j :: 0 <= j < |rights| ==> |rights[j]| == RightLen(sk.params)
    requires forall k :: 0 <= k < |qs| ==>
               WordMade(o, sk, cname, rnum, nonces[k], qs[k], xs[k], aim, lefts[k], rights[k])
    ensures HonestWords(o, sk, cname, rnum, nonces, qs, xs, aim, EndToEnd(lefts), EndToEnd(rights))
  {
    WordCount(sk.params, lefts, rights);
    forall k: nat | k < |qs|
      ensures IsQuery(o, sk, cname, qs[k], aim, WordLeft(sk.params, EndToEnd(lefts), k))
      ensures IsIndex(o, sk, cname, rnum, nonces[k], xs[k], WordRight(sk.params, EndToEnd(rights), k))
    {
      WordFound(o, sk, cname, rnum, nonces[k], qs[k], xs[k], aim, lefts, rights, k);
    }
  }
}
