/**
 Byte buffers: little-endian words, 16-byte cipher blocks and memcpy.
 */
module Memory {
  import opened Bits

  type Byte = x: int | 0 <= x < 256
  type Bytes = seq<Byte>

  /** A 128-bit block; MAKE_BLOCK(X, Y) puts X in the high half and Y in the low one. */
  datatype Block = Block(hi: Word, lo: Word)

  /** AES as an arbitrary function of a 16-byte key and an input block. */
  type Cipher = (Block, Block) -> Block

  /** The size of n records of len bytes each, which is also where record n starts. */
  function Times(n: nat, len: nat): nat {
    if n == 0 then 0 else Times(n - 1, len) + len
  }

  lemma {:induction false} TimesIsMul(n: nat, len: nat)
    ensures Times(n, len) == n * len
  {
    if n > 0 {
      TimesIsMul(n - 1, len);
    }
  }

  lemma {:induction false} TimesMono(m: nat, n: nat, len: nat)
    requires m <= n
    ensures Times(m, len) <= Times(n, len)
  {
    if m < n {
      TimesMono(m, n - 1, len);
    }
  }

  /** The n low bytes of x, least significant first. */
  function ToLE(x: nat, n: nat): (s: Bytes)
    ensures |s| == n
  {
    if n == 0 then [] else [x % 256] + ToLE(x / 256, n - 1)
  }

  /** The number whose n little-endian bytes stand at off. */
  function ReadLE(s: Bytes, off: nat, n: nat): nat
    requires off + n <= |s|
    decreases |s| - off
  {
    if n == 0 then 0 else s[off] + 256 * ReadLE(s, off + 1, n - 1)
  }

  /** Cutting at bit 8 is division by 256. */
  lemma ByteCut(x: nat, y: nat)
    ensures Low(x, 8) == x % 256 && High(x, 8) == x / 256 && Up(y, 8) == 256 * y
  {
    Pow2Byte(0);
    LowIsMod(x, 8);
    UpIsMul(y, 8);
  }

  /** The bytes t stand in s at off. */
  ghost predicate Holds(s: Bytes, off: nat, t: Bytes) {
    off + |t| <= |s| && forall k :: 0 <= k < |t| ==> s[off + k] == t[k]
  }

  /** The lowest byte and the rest. */
  lemma LowBytes(x: nat, n: nat)
    requires n > 0
    ensures Low(x, 8 * n) == x % 256 + 256 * Low(x / 256, 8 * (n - 1))
  {
    LowSplit(x, 8, 8 * (n - 1));
    ByteCut(x, Low(x / 256, 8 * (n - 1)));
  }

  lemma {:induction false} ReadBack(s: Bytes, off: nat, x: nat, n: nat)
    requires Holds(s, off, ToLE(x, n))
    ensures ReadLE(s, off, n) == Low(x, 8 * n)
    decreases n
  {
    if n > 0 {
      var t := ToLE(x, n);
      assert t[1..] == ToLE(x / 256, n - 1) && s[off] == t[0];
      assert forall k :: 0 <= k < n - 1 ==> t[1..][k] == t[k + 1] == s[off + (k + 1)];
      ReadBack(s, off + 1, x / 256, n - 1);
      LowBytes(x, n);
    }
  }

  /** A value below 2 to the 8n survives a trip through n bytes. */
  lemma ReadBackSmall(s: Bytes, off: nat, x: nat, n: nat)
    requires x < Pow2(8 * n) && Holds(s, off, ToLE(x, n))
    ensures ReadLE(s, off, n) == x
  {
    ReadBack(s, off, x, n);
    LowSmall(x, 8 * n);
  }

  lemma {:induction false} ReadLEBound(s: Bytes, off: nat, n: nat)
    requires off + n <= |s|
    ensures ReadLE(s, off, n) < Pow2(8 * n)
    decreases n
  {
    if n > 0 {
      ReadLEBound(s, off + 1, n - 1);
      Pow2Byte(8 * (n - 1));
    }
  }

  /** Writing back the bytes that were read. */
  lemma {:induction false} ToLERead(s: Bytes, off: nat, n: nat)
    requires off + n <= |s|
    ensures ToLE(ReadLE(s, off, n), n) == s[off..off + n]
    decreases n
  {
    if n > 0 {
      ToLERead(s, off + 1, n - 1);
    }
  }

  lemma {:induction false} ReadLESame(s: Bytes, t: Bytes, off: nat, n: nat)
    requires off + n <= |s| && off + n <= |t|
    requires forall k :: off <= k < off + n ==> s[k] == t[k]
    ensures ReadLE(s, off, n) == ReadLE(t, off, n)
    decreases n
  {
    if n > 0 {
      ReadLESame(s, t, off + 1, n - 1);
    }
  }

  /** Reading up to eight bytes into a zeroed 64-bit word. */
  function ReadWord(s: Bytes, off: nat, n: nat): Word
    requires off + n <= |s| && n <= 8
  {
    ReadLEBound(s, off, n);
    Pow2Fits(8 * n);
    ReadLE(s, off, n)
  }

  function BlockBytes(b: Block): (s: Bytes)
    ensures |s| == 16
  {
    ToLE(b.lo, 8) + ToLE(b.hi, 8)
  }

  function ReadBlock(s: Bytes, off: nat): Block
    requires off + 16 <= |s|
  {
    Block(ReadWord(s, off + 8, 8), ReadWord(s, off, 8))
  }

  lemma HoldsParts(s: Bytes, off: nat, a: Bytes, b: Bytes)
    requires Holds(s, off, a + b)
    ensures Holds(s, off, a) && Holds(s, off + |a|, b)
  {
    assert forall k :: 0 <= k < |a| ==> (a + b)[k] == a[k];
    forall k | 0 <= k < |b|
      ensures s[off + |a| + k] == b[k]
    {
      assert (a + b)[|a| + k] == b[k];
    }
  }

  /** A word survives a trip through its eight bytes. */
  lemma WordBack(s: Bytes, off: nat, w: Word, n: nat)
    requires n == 8 && Holds(s, off, ToLE(w, n))
    ensures ReadLE(s, off, n) == w
  {
    Pow2Word();
    assert Pow2(8 * n) == Pow2(64);
    ReadBackSmall(s, off, w, n);
  }

  lemma BlockBack(s: Bytes, off: nat, b: Block)
    requires Holds(s, off, BlockBytes(b))
    ensures ReadBlock(s, off) == b
  {
    HoldsParts(s, off, ToLE(b.lo, 8), ToLE(b.hi, 8));
    WordBack(s, off, b.lo, 8);
    WordBack(s, off + 8, b.hi, 8);
  }

  lemma ReadBlockSame(s: Bytes, t: Bytes, off: nat)
    requires off + 16 <= |s| && off + 16 <= |t|
    requires forall k :: off <= k < off + 16 ==> s[k] == t[k]
    ensures ReadBlock(s, off) == ReadBlock(t, off)
  {
    ReadLESame(s, t, off, 8);
    ReadLESame(s, t, off + 8, 8);
  }

  // What the bytes of a word are ----------------------------------------

  /** Byte k of a number, counted from the least significant. */
  lemma {:induction false} ByteOf(x: nat, n: nat, k: nat)
    requires k < n
    ensures ToLE(x, n)[k] == x / Pow2(8 * k) % 256
  {
    if k == 0 {
      assert Pow2(0) == 1;
    } else {
      ByteOf(x / 256, n - 1, k - 1);
      LowIsMod(x / 256, 8 * (k - 1));
      ByteCut(x, 0);
      HighHigh(x, 8, 8 * (k - 1));
      LowIsMod(x, 8 * k);
    }
  }

  /** Four bytes as a number. */
  lemma FourBytesRead(s: Bytes, k: nat, n: nat, a: int, b: int, c: int, d: int)
    requires k + 4 <= |s| && n == 4 && a == s[k] && b == s[k + 1] && c == s[k + 2] && d == s[k + 3]
    ensures ReadLE(s, k, n) == a + 256 * b + 65536 * c + 16777216 * d
  {
    assert ReadLE(s, k + 4, n - 4) == 0;
    assert ReadLE(s, k + 3, n - 3) == d;
    assert ReadLE(s, k + 2, n - 2) == c + 256 * d;
    assert ReadLE(s, k + 1, n - 1) == b + 256 * (c + 256 * d);
  }

  /** Without its first j bytes, a word is shifted. */
  lemma {:induction false} DropBytes(x: nat, n: nat, j: nat)
    requires j <= n
    ensures ToLE(x, n)[j..] == ToLE(High(x, 8 * j), n - j)
  {
    if j > 0 {
      DropBytes(x / 256, n - 1, j - 1);
      ByteCut(x, 0);
      HighHigh(x, 8, 8 * (j - 1));
      assert ToLE(x, n)[j..] == ToLE(x / 256, n - 1)[j - 1..];
    }
  }

  lemma {:induction false} TakeBytes(x: nat, n: nat, j: nat)
    requires j <= n
    ensures ToLE(x, n)[..j] == ToLE(x, j)
  {
    if j > 0 {
      TakeBytes(x / 256, n - 1, j - 1);
      assert ToLE(x, n)[..j] == [x % 256] + ToLE(x / 256, n - 1)[..j - 1];
    }
  }

  /** Reading a + b bytes is reading a of them and then b above. */
  lemma {:induction false} ReadJoin(s: Bytes, off: nat, a: nat, b: nat)
    requires off + a + b <= |s|
    ensures ReadLE(s, off, a + b) == ReadLE(s, off, a) + Up(ReadLE(s, off + a, b), 8 * a)
    decreases a
  {
    if a > 0 {
      ReadJoin(s, off + 1, a - 1, b);
      var y := ReadLE(s, off + a, b);
      ByteCut(0, Up(y, 8 * (a - 1)));
      UpUp(y, 8 * (a - 1), 8);
    }
  }

  /** The two pieces of a word read j bytes into two words that stand next to each other. */
  lemma StraddlePieces(s: Bytes, off: nat, x: Word, y: Word, j: nat, n: nat)
    requires n == 8 && j <= n && Holds(s, off, ToLE(x, n) + ToLE(y, n))
    ensures off + j + n <= |s|
    ensures ReadLE(s, off + j, n - j) == Low(High(x, 8 * j), 8 * (n - j)) && ReadLE(s, off + n, j) == Low(y, 8 * j)
  {
    HoldsParts(s, off, ToLE(x, n), ToLE(y, n));
    HoldsPiece(s, off, ToLE(x, n), j, n);
    HoldsPiece(s, off + n, ToLE(y, n), 0, j);
    DropBytes(x, n, j);
    TakeBytes(y, n, j);
    assert ToLE(x, n)[j..n] == ToLE(x, n)[j..] && ToLE(y, n)[0..j] == ToLE(y, n)[..j];
    ReadBack(s, off + j, High(x, 8 * j), n - j);
    ReadBack(s, off + n, y, j);
  }

  lemma StraddlingWord(s: Bytes, off: nat, x: Word, y: Word, j: nat)
    requires Holds(s, off, ToLE(x, 8) + ToLE(y, 8)) && j <= 8
    ensures off + j + 8 <= |s|
    ensures ReadLE(s, off + j, 8) == x / Pow2(8 * j) + y % Pow2(8 * j) * Pow2(64 - 8 * j)
  {
    StraddlePieces(s, off, x, y, j, 8);
    ReadJoin(s, off + j, 8 - j, j);
    PiecesAre(x, y, 8 * j, 64 - 8 * j);
  }

  lemma PiecesAre(x: Word, y: Word, n: nat, m: nat)
    requires n + m == 64
    ensures Low(High(x, n), m) == x / Pow2(n) && Up(Low(y, n), m) == y % Pow2(n) * Pow2(m)
  {
    Pow2Word();
    HighBound(x, m, n);
    LowSmall(High(x, n), m);
    LowIsMod(x, n);
    LowIsMod(y, n);
    UpIsMul(Low(y, n), m);
  }

  lemma HoldsPiece(s: Bytes, off: nat, t: Bytes, lo: nat, hi: nat)
    requires Holds(s, off, t) && lo <= hi <= |t|
    ensures Holds(s, off + lo, t[lo..hi])
  {
    forall k | 0 <= k < hi - lo
      ensures s[off + lo + k] == t[lo..hi][k]
    {
      assert s[off + (lo + k)] == t[lo + k];
    }
  }

  /** Only the bytes lo .. hi-1 may differ. */
  ghost predicate SameOutside(s: Bytes, t: Bytes, lo: nat, hi: nat) {
    |s| == |t| && forall b :: 0 <= b < |s| && !(lo <= b < hi) ==> s[b] == t[b]
  }

  /** memcpy into a buffer. */
  method MemCpy(dst: array<Byte>, off: nat, src: Bytes)
    requires off + |src| <= dst.Length
    modifies dst
    ensures Holds(dst[..], off, src)
    ensures SameOutside(old(dst[..]), dst[..], off, off + |src|)
  {
    for k := 0 to |src|
      invariant forall j :: 0 <= j < k ==> dst[off + j] == src[j]
      invariant forall j :: 0 <= j < dst.Length && !(off <= j < off + |src|) ==> dst[j] == old(dst[j])
    {
      dst[off + k] := src[k];
    }
  }
}
