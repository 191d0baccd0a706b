/**
 The pseudo-random labels of the encrypted store: HMAC-SHA-256 under a master key, and then again under a
 counter. HMAC is an arbitrary function; the only hypothesis used is that it keeps apart the finitely many
 labels that occur.
 */
module Prf {
  import opened Bits
  import opened Memory

  type Digest = s: Bytes | |s| == 32 witness seq(32, _ => 0)

  type Hmac = (Bytes, Bytes) -> Digest

  /** The master keys PK1 .. PK10 of a client, by number. */
  datatype Keys = Keys(hmac: Hmac, pk: nat -> Bytes)

  /** A label by what it is computed from. */
  datatype Id =
    | Plain(pk: nat, name: Bytes)
    | Counted(pk: nat, name: Bytes, c: nat)

  function Master(keys: Keys, pk: nat, name: Bytes): Digest {
    keys.hmac(keys.pk(pk), name)
  }

  /** The PRF keyed by the four bytes of a counter. */
  function Count(hmac: Hmac, c: nat, d: Digest): Digest {
    hmac(ToLE(c, 4), d)
  }

  function Label(keys: Keys, id: Id): Digest {
    match id
    case Plain(pk, name) => Master(keys, pk, name)
    case Counted(pk, name, c) => Count(keys.hmac, c, Master(keys, pk, name))
  }

  /** The labels that can occur for these names: a finite set. */
  predicate InUse(names: set<Bytes>, id: Id) {
    id.name in names && 1 <= id.pk <= 10 && (id.Counted? ==> id.c < 0x1_0000_0000)
  }

  predicate TellApart(keys: Keys, names: set<Bytes>, a: Id, b: Id) {
    InUse(names, a) && InUse(names, b) && Label(keys, a) == Label(keys, b) ==> a == b
  }

  /** No two different labels in use collide. */
  ghost predicate Apart(keys: Keys, names: set<Bytes>) {
    forall a: Id, b: Id :: TellApart(keys, names, a, b)
  }

  // Bytewise exclusive or -----------------------------------------------

  function XorByte(a: Byte, b: Byte): Byte {
    assert Pow2(8) == 256 by { Pow2Byte(0); }
    XorBound(a, b, 8);
    Xor(a, b)
  }

  function XorBytes(a: Bytes, b: Bytes): (r: Bytes)
    requires |a| == |b|
    ensures |r| == |a|
    ensures forall k :: 0 <= k < |a| ==> r[k] == XorByte(a[k], b[k])
  {
    seq(|a|, k requires 0 <= k < |a| => XorByte(a[k], b[k]))
  }

  lemma XorBytesCancel(a: Bytes, b: Bytes)
    requires |a| == |b|
    ensures XorBytes(XorBytes(a, b), b) == a
    ensures XorBytes(a, XorBytes(a, b)) == b
  {
    forall k | 0 <= k < |a|
      ensures XorByte(XorByte(a[k], b[k]), b[k]) == a[k]
      ensures XorByte(a[k], XorByte(a[k], b[k])) == b[k]
    {
      XorCancel(a[k], b[k]);
      XorComm(a[k], b[k]);
      XorCancel(b[k], a[k]);
      XorComm(a[k], Xor(a[k], b[k]));
    }
  }

  lemma XorParts(a: nat, b: nat)
    ensures Xor(a, b) == (a + b) % 2 + 2 * Xor(a / 2, b / 2)
  {
    XorBits(a, b);
  }

  lemma LowParts(a: nat, n: nat)
    requires n > 0
    ensures Low(a, n) % 2 == a % 2 && Low(a, n) / 2 == Low(a / 2, n - 1)
  {
  }

  lemma SameParity(a: nat, b: nat, x: nat, y: nat)
    requires x % 2 == a % 2 && y % 2 == b % 2
    ensures (x + y) % 2 == (a + b) % 2
  {
  }

  /** One bit, then the rest. */
  lemma LowUnfold(v: nat, n: nat)
    requires n > 0
    ensures Low(v, n) == v % 2 + 2 * Low(v / 2, n - 1)
  {
  }

  lemma {:induction false} XorLow(a: nat, b: nat, n: nat)
    ensures Low(Xor(a, b), n) == Xor(Low(a, n), Low(b, n))
  {
    if n > 0 {
      var x, y, v := Low(a, n), Low(b, n), Xor(a, b);
      XorLow(a / 2, b / 2, n - 1);
      LowParts(a, n);
      LowParts(b, n);
      SameParity(a, b, x, y);
      XorParts(x, y);
      XorBits(a, b);
      LowUnfold(v, n);
      assert Low(v / 2, n - 1) == Xor(x / 2, y / 2);
    }
  }

  lemma {:induction false} XorHigh(a: nat, b: nat, n: nat)
    ensures High(Xor(a, b), n) == Xor(High(a, n), High(b, n))
  {
    if n > 0 {
      XorBits(a, b);
      XorHigh(a / 2, b / 2, n - 1);
    }
  }

  /** Exclusive or of two words in memory is exclusive or of their bytes. */
  lemma {:induction false} XorInMemory(a: nat, b: nat, n: nat)
    ensures ToLE(Xor(a, b), n) == XorBytes(ToLE(a, n), ToLE(b, n))
  {
    if n > 0 {
      XorLow(a, b, 8);
      XorHigh(a, b, 8);
      ByteCut(a, 0);
      ByteCut(b, 0);
      ByteCut(Xor(a, b), 0);
      XorInMemory(a / 256, b / 256, n - 1);
    }
  }
}
