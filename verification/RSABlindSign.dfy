/**
 Caravel/RSABlindSign.cpp: blind, sign, unblind and check. Numbers travel between client and server as decimal strings.
 */
module RSABlindSign {
  import opened Memory
  import opened Prf
  import opened NumberTheory

  // Numerals ------------------------------------------------------------

  const DIGITS := "0123456789abcdef"

  function DigitOf(c: char): nat {
    if '0' <= c <= '9' then (c - '0') as nat
    else if 'a' <= c <= 'f' then (c - 'a') as nat + 10
    else 0
  }

  /** The number a numeral stands for. */
  function Numeral(base: nat, s: string): nat {
    if s == [] then 0 else base * Numeral(base, s[..|s| - 1]) + DigitOf(s[|s| - 1])
  }

  /** mpz_get_str */
  function ToNumeral(base: nat, n: nat): string
    requires 2 <= base <= 16
  {
    if n < base then [DIGITS[n]] else ToNumeral(base, n / base) + [DIGITS[n % base]]
  }

  /** The digits are those of ASCII: ten from '0' on and six from 'a' on. */
  lemma DigitIs(d: nat)
    requires d < 16
    ensures DIGITS[d] as int == if d < 10 then 48 + d else 87 + d
  {
  }

  lemma DigitBack(d: nat)
    requires d < 16
    ensures DigitOf(DIGITS[d]) == d
  {
  }

  lemma NumeralAfter(base: nat, s: string, c: char)
    ensures Numeral(base, s + [c]) == base * Numeral(base, s) + DigitOf(c)
  {
    assert (s + [c])[..|s|] == s;
  }

  lemma Digits(n: nat, base: nat) returns (hi: nat, lo: nat)
    requires 2 <= base <= n
    ensures hi == n / base && lo == n % base && lo < base && base * hi + lo == n && hi < n
  {
    hi, lo := n / base, n % base;
    SmallerQuotient(n, base, hi, lo);
  }

  lemma SmallerQuotient(n: nat, base: nat, hi: nat, lo: nat)
    requires base >= 2 && n >= 1 && base * hi + lo == n
    ensures hi < n
  {
    if hi > 0 {
      assert base * hi == 2 * hi + (base - 2) * hi;
      assert (base - 2) * hi >= 0;
    }
  }

  /** Writing a number and reading it gives it back. */
  lemma {:induction false} NumeralBack(base: nat, n: nat)
    requires 2 <= base <= 16
    ensures Numeral(base, ToNumeral(base, n)) == n
  {
    if n < base {
      DigitBack(n);
      assert [DIGITS[n]][..0] == [];
    } else {
      var hi, lo := Digits(n, base);
      NumeralBack(base, hi);
      NumeralAfter(base, ToNumeral(base, hi), DIGITS[lo]);
      DigitBack(lo);
    }
  }

  /** Two hexadecimal digits a byte. */
  function HexOf(s: Bytes): string {
    if s == [] then [] else HexOf(s[..|s| - 1]) + [DIGITS[s[|s| - 1] / 16]] + [DIGITS[s[|s| - 1] % 16]]
  }

  /** Bytes as a number, most significant first. */
  function BigEndian(s: Bytes): nat {
    if s == [] then 0 else 256 * BigEndian(s[..|s| - 1]) + s[|s| - 1]
  }

  /** Through its hexadecimal string a hash becomes the number its bytes spell. */
  lemma {:induction false} HexIsBigEndian(s: Bytes)
    ensures Numeral(16, HexOf(s)) == BigEndian(s)
  {
    if s != [] {
      var rest, hi, lo := s[..|s| - 1], s[|s| - 1] / 16, s[|s| - 1] % 16;
      HexIsBigEndian(rest);
      NumeralAfter(16, HexOf(rest), DIGITS[hi]);
      NumeralAfter(16, HexOf(rest) + [DIGITS[hi]], DIGITS[lo]);
      DigitBack(hi);
      DigitBack(lo);
    }
  }

  // The hash ------------------------------------------------------------

  type Sha256 = Bytes -> Digest

  /** The hashes of the message behind the prefixes "0" .. "k-1", end to end. */
  function PrefixedHashes(sha: Sha256, msg: Bytes, k: nat): (s: Bytes)
    requires k <= 8
    ensures |s| == 32 * k
  {
    if k == 0 then [] else PrefixedHashes(sha, msg, k - 1) + sha([48 + k - 1] + msg)
  }

  function HashNumber(sha: Sha256, msg: Bytes): nat {
    BigEndian(PrefixedHashes(sha, msg, 8))
  }

  /** The eight hashes are those of the message behind the characters '0' to '7', in this order. */
  lemma HashesAre(sha: Sha256, msg: Bytes)
    ensures PrefixedHashes(sha, msg, 8)
         == sha([48] + msg) + sha([49] + msg) + sha([50] + msg) + sha([51] + msg)
            + sha([52] + msg) + sha([53] + msg) + sha([54] + msg) + sha([55] + msg)
  {
    assert PrefixedHashes(sha, msg, 2) == sha([48] + msg) + sha([49] + msg);
    assert PrefixedHashes(sha, msg, 4) == PrefixedHashes(sha, msg, 2) + sha([50] + msg) + sha([51] + msg);
    assert PrefixedHashes(sha, msg, 6) == PrefixedHashes(sha, msg, 4) + sha([52] + msg) + sha([53] + msg);
  }

  method HashBuffer(sha: Sha256, msg: Bytes) returns (buf: array<Byte>)
    ensures fresh(buf) && buf[..] == PrefixedHashes(sha, msg, 8)
  {
    buf := new Byte[256](_ => 0);
    for cur := 0 to 8
      invariant buf[..32 * cur] == PrefixedHashes(sha, msg, cur)
    {
      ghost var s, part := buf[..], sha([48 + cur] + msg);
      MemCpy(buf, 32 * cur, sha([48 + cur] + msg));
      assert buf[..32 * cur] == s[..32 * cur];
      assert buf[32 * cur..32 * (cur + 1)] == part;
      assert buf[..32 * (cur + 1)] == buf[..32 * cur] + buf[32 * cur..32 * (cur + 1)];
    }
    assert buf[..256] == buf[..];
  }

  // The object ----------------------------------------------------------

  /** mpz_powm */
  function PowMod(b: nat, e: nat, n: nat): nat
    requires n > 0
  {
    Pow(b, e) % n
  }

  /** mpz_mul, then mpz_mod */
  function MulMod(a: nat, b: nat, n: nat): nat
    requires n > 0
  {
    (a * b) % n
  }

  predicate IsInverse(r: nat, i: nat, n: nat)
    requires n > 0
  {
    (r * i) % n == 1 % n
  }

  /** What mpz_invert may leave: an inverse when there is one, and anything otherwise. */
  ghost predicate MayInvert(r: nat, i: nat, n: nat)
    requires n > 0
  {
    (exists j: nat :: IsInverse(r, j, n)) ==> IsInverse(r, i, n)
  }

  class RSABlindSign {
    var n: nat
    var e: nat
    var d: nat
    var r: nat
    var h: nat

    constructor ()
      ensures n == e == d == r == h == 0
    {
      n, e, d, r, h := 0, 0, 0, 0, 0;
    }

    method ReadClientConf(sN: string, sE: string)
      modifies `n, `e
      ensures n == Numeral(10, sN) && e == Numeral(10, sE)
    {
      n, e := Numeral(10, sN), Numeral(10, sE);
    }

    method ReadServerConf(sN: string, sD: string)
      modifies `n, `d
      ensures n == Numeral(10, sN) && d == Numeral(10, sD)
    {
      n, d := Numeral(10, sN), Numeral(10, sD);
    }

    /** The random number is a parameter below n. */
    method BlindHash(sha: Sha256, msg: Bytes, random: nat) returns (out: string)
      requires random < n
      modifies `r, `h
      ensures r == random && h == HashNumber(sha, msg) % n
      ensures Numeral(10, out) == MulMod(PowMod(r, e, n), h, n)
    {
      var buf := HashBuffer(sha, msg);
      HexIsBigEndian(buf[..]);
      h := Numeral(16, HexOf(buf[..])) % n;
      r := random;
      var ret := MulMod(PowMod(r, e, n), h, n);
      NumeralBack(10, ret);
      out := ToNumeral(10, ret);
    }

    method SigGen(msg: string) returns (out: string)
      requires n > 0
      ensures Numeral(10, out) == PowMod(Numeral(10, msg), d, n)
    {
      var ret := PowMod(Numeral(10, msg), d, n);
      NumeralBack(10, ret);
      out := ToNumeral(10, ret);
    }

    /** rinv is what mpz_invert leaves. */
    method RemoveBlinding(msg: string, rinv: nat) returns (out: string)
      requires n > 0
      ensures Numeral(10, out) == MulMod(Numeral(10, msg), rinv, n)
    {
      var ret := MulMod(Numeral(10, msg), rinv, n);
      NumeralBack(10, ret);
      out := ToNumeral(10, ret);
    }

    method CheckSign(msg: string) returns (ok: bool)
      requires n > 0
      ensures ok <==> PowMod(Numeral(10, msg), e, n) == h
    {
      var hash := PowMod(Numeral(10, msg), e, n);
      ok := hash == h;
    }
  }

  // The keys ------------------------------------------------------------

  /** n = p q for different primes, and e d is 1 modulo p - 1 and modulo q - 1, that is modulo their least common
      multiple. */
  ghost predicate KeyPair(p: nat, q: nat, n: nat, e: nat, d: nat) {
    && Prime(p) && Prime(q) && p != q && n == p * q
    && e * d >= 1 && Divides(p - 1, e * d - 1) && Divides(q - 1, e * d - 1)
  }

  lemma KeysPositive(p: nat, q: nat, n: nat, e: nat, d: nat)
    requires KeyPair(p, q, n, e, d)
    ensures n > 1 && e > 0 && d > 0
  {
    assert p * q >= 2 * q;
  }

  /** Raising to e and to d, in either order, changes nothing modulo n. */
  lemma ExponentsCancel(p: nat, q: nat, n: nat, e: nat, d: nat, x: nat)
    requires KeyPair(p, q, n, e, d)
    ensures n > 0 && Cong(Pow(x, e * d), x, n)
  {
    ExponentOne(p, x, e * d);
    ExponentOne(q, x, e * d);
    BothDivide(p, q, Pow(x, e * d) - x);
  }

  /** The signature check accepts exactly one residue, the e-th root h to the d. */
  lemma AcceptsOneResidue(p: nat, q: nat, n: nat, e: nat, d: nat, h: nat, s: nat)
    requires KeyPair(p, q, n, e, d) && h < n
    ensures PowMod(s, e, n) == h <==> s % n == PowMod(h, d, n)
  {
    ExponentsCancel(p, q, n, e, d, s);
    ExponentsCancel(p, q, n, e, d, h);
    PowPow(s, e, d);
    PowPow(h, d, e);
    assert d * e == e * d;
    SmallRemainder(h, n);
    if PowMod(s, e, n) == h {
      CongIsEqualMod(Pow(s, e), h, n);
      PowCong(Pow(s, e), h, d, n);
      CongSym(Pow(s, e * d), s, n);
      CongTrans(s, Pow(s, e * d), Pow(h, d), n);
      CongIsEqualMod(s, Pow(h, d), n);
    }
    if s % n == PowMod(h, d, n) {
      CongIsEqualMod(s, Pow(h, d), n);
      PowCong(s, Pow(h, d), e, n);
      CongTrans(Pow(s, e), Pow(h, e * d), h, n);
      CongIsEqualMod(Pow(s, e), h, n);
    }
  }

  // The protocol --------------------------------------------------------

  /** What comes out of blinding with r, signing, and unblinding with i. */
  function Unblinded(n: nat, e: nat, d: nat, h: nat, r: nat, i: nat): nat
    requires n > 0
  {
    MulMod(PowMod(MulMod(PowMod(r, e, n), h, n), d, n), i, n)
  }

  lemma PowModCong(b: nat, e: nat, n: nat)
    requires n > 0
    ensures Cong(PowMod(b, e, n), Pow(b, e), n)
  {
    CongMod(Pow(b, e), n);
    CongSym(Pow(b, e), PowMod(b, e, n), n);
  }

  lemma MulModCong(a: nat, b: nat, a': nat, b': nat, n: nat)
    requires n > 0 && Cong(a, a', n) && Cong(b, b', n)
    ensures Cong(MulMod(a, b, n), a' * b', n)
  {
    CongMul(a, a', b, b', n);
    CongMod(a * b, n);
    CongSym(a * b, MulMod(a, b, n), n);
    CongTrans(MulMod(a, b, n), a * b, a' * b', n);
  }

  /** The signed blinded hash is r times h to the d. */
  lemma SignedIs(p: nat, q: nat, n: nat, e: nat, d: nat, h: nat, r: nat)
    requires KeyPair(p, q, n, e, d)
    ensures n > 0 && Cong(PowMod(MulMod(PowMod(r, e, n), h, n), d, n), r * Pow(h, d), n)
  {
    KeysPositive(p, q, n, e, d);
    var b, re := MulMod(PowMod(r, e, n), h, n), Pow(r, e);
    PowModCong(r, e, n);
    MulModCong(PowMod(r, e, n), h, re, h, n);
    PowCong(b, re * h, d, n);
    PowProduct(re, h, d);
    PowPow(r, e, d);
    ExponentsCancel(p, q, n, e, d, r);
    CongMul(Pow(r, e * d), r, Pow(h, d), Pow(h, d), n);
    CongTrans(Pow(b, d), Pow(r, e * d) * Pow(h, d), r * Pow(h, d), n);
    PowModCong(b, d, n);
    CongTrans(PowMod(b, d, n), Pow(b, d), r * Pow(h, d), n);
  }

  /** What comes out is h to the d, times r, times i. */
  lemma UnblindedIs(p: nat, q: nat, n: nat, e: nat, d: nat, h: nat, r: nat, i: nat)
    requires KeyPair(p, q, n, e, d)
    ensures n > 0 && Cong(Unblinded(n, e, d, h, r, i), Pow(h, d) * (r * i), n)
  {
    SignedIs(p, q, n, e, d, h, r);
    var s := PowMod(MulMod(PowMod(r, e, n), h, n), d, n);
    NatProduct(r, Pow(h, d));
    MulModCong(s, i, r * Pow(h, d), i, n);
    MoveFactor(r, Pow(h, d), i);
  }

  lemma NatProduct(a: nat, b: nat)
    ensures a * b >= 0
  {
  }

  lemma MoveFactor(a: nat, b: nat, c: nat)
    ensures (a * b) * c == b * (a * c)
  {
  }

  /** A prime divides h y just when it divides h to the d, times y. */
  lemma PowerFactor(p: nat, h: nat, d: nat, y: int)
    requires Prime(p) && d > 0
    ensures Divides(p, Pow(h, d) * y) <==> Divides(p, h * y)
  {
    if Divides(p, Pow(h, d) * y) {
      Euclid(p, Pow(h, d), y);
      if Divides(p, y) {
        ScaleDivides(y, h, p);
      } else {
        EuclidPow(p, h, d);
        ScaleDivides(h, y, p);
      }
    }
    if Divides(p, h * y) {
      assert Pow(h, d) * y == Pow(h, d - 1) * (h * y) by {
        assert Pow(h, d) == h * Pow(h, d - 1);
        assert (h * Pow(h, d - 1)) * y == Pow(h, d - 1) * (h * y);
      }
      ScaleDivides(h * y, Pow(h, d - 1), p);
    }
  }

  /** Modulo n, x to the d times m is x to the d just when x times m is x. */
  lemma SameFactor(p: nat, q: nat, n: nat, x: nat, d: nat, m: nat)
    requires Prime(p) && Prime(q) && p != q && n == p * q && n > 0 && d > 0
    ensures Cong(Pow(x, d) * m, Pow(x, d), n) <==> Cong(x * m, x, n)
  {
    var xd, y := Pow(x, d), m - 1;
    assert xd * m - xd == xd * y;
    assert x * m - x == x * y;
    PowerFactor(p, x, d, y);
    PowerFactor(q, x, d, y);
    BothOrProduct(p, q, xd * y);
    BothOrProduct(p, q, x * y);
  }

  /** Whatever r was and whatever the inversion left, the check accepts exactly when h r i is h modulo n. */
  lemma AcceptedIff(p: nat, q: nat, n: nat, e: nat, d: nat, h: nat, r: nat, i: nat)
    requires KeyPair(p, q, n, e, d) && h < n
    ensures n > 0
    ensures PowMod(Unblinded(n, e, d, h, r, i), e, n) == h <==> MulMod(h, r * i, n) == h
  {
    KeysPositive(p, q, n, e, d);
    var s, hd := Unblinded(n, e, d, h, r, i), Pow(h, d);
    AcceptsOneResidue(p, q, n, e, d, h, s);
    UnblindedIs(p, q, n, e, d, h, r, i);
    CongIsEqualMod(s, hd * (r * i), n);
    CongIsEqualMod(hd * (r * i), hd, n);
    SameFactor(p, q, n, h, d, r * i);
    CongIsEqualMod(h * (r * i), h, n);
    SmallRemainder(h, n);
  }

  lemma BothOrProduct(p: nat, q: nat, x: int)
    requires Prime(p) && Prime(q) && p != q
    ensures p * q > 0 && (Divides(p * q, x) <==> Divides(p, x) && Divides(q, x))
  {
    assert p * q >= p;
    if Divides(p * q, x) {
      ProductDivides(p, q, x);
    }
    if Divides(p, x) && Divides(q, x) {
      BothDivide(p, q, x);
    }
  }

  /** With an inverse of r every hash is accepted. */
  lemma BlindSignatureCorrect(p: nat, q: nat, n: nat, e: nat, d: nat, h: nat, r: nat, i: nat)
    requires KeyPair(p, q, n, e, d) && h < n && IsInverse(r, i, n)
    ensures PowMod(Unblinded(n, e, d, h, r, i), e, n) == h
  {
    KeysPositive(p, q, n, e, d);
    CongIsEqualMod(r * i, 1, n);
    CongMul(h, h, r * i, 1, n);
    CongIsEqualMod(h * (r * i), h, n);
    SmallRemainder(h, n);
    AcceptedIff(p, q, n, e, d, h, r, i);
  }

  // Which random numbers work -------------------------------------------

  /** r shares no factor with p q. */
  predicate CoprimeTo(r: nat, p: nat, q: nat)
    requires p > 0 && q > 0
  {
    !Divides(p, r) && !Divides(q, r)
  }

  lemma InverseExists(p: nat, q: nat, n: nat, r: nat) returns (i: nat)
    requires Prime(p) && Prime(q) && p != q && n == p * q && n > 0 && CoprimeTo(r, p, q)
    ensures IsInverse(r, i, n)
  {
    var m := (p - 1) * (q - 1);
    PositiveProduct(p - 1, q - 1);
    UnitPower(p, q - 1, m, r);
    UnitPower(q, p - 1, m, r);
    BothDivide(p, q, Pow(r, m) - 1);
    i := Pow(r, m - 1);
    CongIsEqualMod(r * i, 1, n);
  }

  lemma InverseMeansCoprime(p: nat, q: nat, n: nat, r: nat, i: nat)
    requires Prime(p) && Prime(q) && n == p * q && n > 0 && IsInverse(r, i, n)
    ensures CoprimeTo(r, p, q)
  {
    CongIsEqualMod(r * i, 1, n);
    ProductDivides(p, q, r * i - 1);
    UnitHasNoFactor(p, r, i);
    UnitHasNoFactor(q, r, i);
  }

  /** r has an inverse modulo n exactly when it shares no factor with n. */
  lemma InverseIff(p: nat, q: nat, n: nat, r: nat)
    requires Prime(p) && Prime(q) && p != q && n == p * q && n > 0
    ensures (exists i: nat :: IsInverse(r, i, n)) <==> CoprimeTo(r, p, q)
  {
    if CoprimeTo(r, p, q) {
      var i := InverseExists(p, q, n, r);
    }
    forall i: nat | IsInverse(r, i, n)
      ensures CoprimeTo(r, p, q)
    {
      InverseMeansCoprime(p, q, n, r, i);
    }
  }

  lemma PositiveProduct(a: nat, b: nat)
    requires a >= 1 && b >= 1
    ensures a * b >= 1
  {
    assert a * b == (a - 1) * b + b;
  }

  lemma UnitHasNoFactor(p: nat, r: nat, i: nat)
    requires Prime(p) && Divides(p, r * i - 1)
    ensures !Divides(p, r)
  {
    if Divides(p, r) {
      ScaleDivides(r, i, p);
      SumDivides(r * i, r * i - 1, p);
      SmallRemainder(1, p);
    }
  }

  lemma UnitPower(p: nat, k: nat, m: nat, r: nat)
    requires Prime(p) && !Divides(p, r) && m == (p - 1) * k
    ensures Cong(Pow(r, m), 1, p)
  {
    FermatUnit(p, r);
    PowPow(r, p - 1, k);
    PowCong(Pow(r, p - 1), 1, k, p);
    PowOne(k);
  }

  /** For a hash that shares no factor with n the protocol succeeds exactly when the random number shares none either;
      the random number is drawn from 0 .. n-1 and never checked. */
  lemma SucceedsIffCoprime(p: nat, q: nat, n: nat, e: nat, d: nat, h: nat, r: nat, i: nat)
    requires KeyPair(p, q, n, e, d) && h < n && CoprimeTo(h, p, q)
    requires n > 0 && MayInvert(r, i, n)
    ensures PowMod(Unblinded(n, e, d, h, r, i), e, n) == h <==> CoprimeTo(r, p, q)
  {
    KeysPositive(p, q, n, e, d);
    InverseIff(p, q, n, r);
    if CoprimeTo(r, p, q) {
      BlindSignatureCorrect(p, q, n, e, d, h, r, i);
    } else {
      AcceptedIff(p, q, n, e, d, h, r, i);
      if MulMod(h, r * i, n) == h {
        SmallRemainder(h, n);
        CongIsEqualMod(h * (r * i), h, n);
        var y := r * i - 1;
        assert h * (r * i) - h == h * y;
        ProductDivides(p, q, h * y);
        Euclid(p, h, y);
        Euclid(q, h, y);
        UnitHasNoFactor(p, r, i);
        UnitHasNoFactor(q, r, i);
      }
    }
  }

  /** The random number 0, which the draw allows, fails for every hash but 0, whatever the inversion left. */
  lemma ZeroRandomFails(p: nat, q: nat, n: nat, e: nat, d: nat, h: nat, r: nat, i: nat)
    requires KeyPair(p, q, n, e, d) && h < n && r == 0
    ensures n > 0 && (PowMod(Unblinded(n, e, d, h, r, i), e, n) == h <==> h == 0)
  {
    AcceptedIff(p, q, n, e, d, h, r, i);
    NothingLeft(h, r, i, n);
  }

  lemma NothingLeft(h: nat, r: nat, i: nat, n: nat)
    requires n > 0 && r == 0
    ensures MulMod(h, r * i, n) == 0
  {
    assert r * i == 0;
    SmallRemainder(0, n);
  }

  /** The whole exchange between a client and a server object that hold the two halves of a key pair. */
  method Exchange(client: RSABlindSign, server: RSABlindSign, sha: Sha256, msg: Bytes, random: nat, rinv: nat,
                  ghost p: nat, ghost q: nat) returns (signature: string, ok: bool)
    requires KeyPair(p, q, client.n, client.e, server.d) && server.n == client.n && client != server
    requires random < client.n && MayInvert(random, rinv, client.n)
    modifies client`r, client`h
    ensures CoprimeTo(random, p, q) ==> ok
    ensures CoprimeTo(HashNumber(sha, msg) % client.n, p, q) ==> (ok <==> CoprimeTo(random, p, q))
    ensures ok <==> Numeral(10, signature) % client.n == PowMod(HashNumber(sha, msg) % client.n, server.d, client.n)
  {
    ghost var n, e, d, h := client.n, client.e, server.d, HashNumber(sha, msg) % client.n;
    KeysPositive(p, q, n, e, d);
    var blinded := client.BlindHash(sha, msg, random);
    var signed := server.SigGen(blinded);
    signature := client.RemoveBlinding(signed, rinv);
    ok := client.CheckSign(signature);
    assert Numeral(10, signature) == Unblinded(n, e, d, h, random, rinv);
    AcceptsOneResidue(p, q, n, e, d, h, Numeral(10, signature));
    if CoprimeTo(h, p, q) {
      SucceedsIffCoprime(p, q, n, e, d, h, random, rinv);
    }
    if CoprimeTo(random, p, q) {
      InverseIff(p, q, n, random);
      BlindSignatureCorrect(p, q, n, e, d, h, random, rinv);
    }
  }
}
