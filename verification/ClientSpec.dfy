/**
 The state that a client keeps beside its nodes: one counter for every index, node and token, always equal to the
 length of the chain it counts.
 */
module ClientSpec {
  import opened Bits
  import opened Memory
  import opened OreHelper
  import opened SimConHash
  import opened Prf
  import opened IndexSpec
  import opened IndexTheorems
  import opened Sharing

  // Encryption ----------------------------------------------------------

  /** AES-CBC under PK5: decryption undoes encryption under every initial vector. */
  datatype Aes = Aes(enc: (Bytes, Bytes) -> Bytes, dec: Bytes -> Bytes)

  ghost predicate AesOk(aes: Aes) {
    forall iv: Bytes, v: Bytes :: aes.enc(iv, v) != [] && aes.dec(aes.enc(iv, v)) == v
  }

  // Routing -------------------------------------------------------------

  /** Four bytes of a trapdoor as a word. */
  function WordAt(td: Digest, k: nat): Word32
    requires k + 4 <= 32
  {
    ReadLEBound(td, k, 4);
    Pow2Half(32);
    ReadLE(td, k, 4)
  }

  function Xor32(a: Word32, b: Word32): Word32 {
    Pow2Half(32);
    XorBound(a, b, 32);
    Xor(a, b)
  }

  /** The key Put routes by: all words of the trapdoor but the one at byte 12. */
  function PutKey(td: Digest): Word32 {
    Xor32(Xor32(Xor32(Xor32(Xor32(Xor32(WordAt(td, 0), WordAt(td, 4)), WordAt(td, 8)), WordAt(td, 16)), WordAt(td, 20)),
                WordAt(td, 24)), WordAt(td, 28))
  }

  /** The key Get routes by: the first word. */
  function GetKey(td: Digest): Word32 { WordAt(td, 0) }

  /** The node that Put sends a key name to. */
  function PutRoute(keys: Keys, thresholds: seq<Word32>): Route
    requires |thresholds| > 0
  {
    (name: Bytes) => OwnerOf(thresholds, PutKey(Master(keys, 1, name)))
  }

  /** The node that Get asks for a key name. */
  function GetRoute(keys: Keys, thresholds: seq<Word32>): Route
    requires |thresholds| > 0
  {
    (name: Bytes) => OwnerOf(thresholds, GetKey(Master(keys, 1, name)))
  }

  lemma RouteInside(keys: Keys, thresholds: seq<Word32>, name: Bytes)
    requires |thresholds| > 0
    ensures PutRoute(keys, thresholds)(name) < |thresholds|
  {
  }

  // Counters ------------------------------------------------------------

  type Counters = map<Bytes, Word32>

  /** A missing counter starts at 0. */
  function CounterOf(m: Counters, t: Bytes): Word32 {
    if t in m then m[t] else 0
  }

  /** m[t]++ in 32-bit arithmetic. */
  function Bumped(m: Counters, t: Bytes): Counters {
    m[t := (CounterOf(m, t) + 1) % 0x1_0000_0000]
  }

  /** The four counters of a node. */
  datatype Tables = Tables(column: Counters, equalV1: Counters, equalV2: Counters, order: Counters)

  function Table(ts: Tables, f: Family): Counters {
    match f case Column => ts.column case Equal1 => ts.equalV1 case Equal2 => ts.equalV2 case Order => ts.order
  }

  /** The fast equality index counts by the trapdoor, the others by the name. */
  function CounterKey(keys: Keys, f: Family, t: Bytes): Bytes {
    if f == Equal2 then Master(keys, FamilyKey(Equal2), t) else t
  }

  function TableAfter(keys: Keys, m: Counters, f: Family, r: Put): Counters {
    if Selected(f, r) then Bumped(m, CounterKey(keys, f, Token(f, r))) else m
  }

  function TablesAfter(keys: Keys, ts: Tables, r: Put): Tables {
    Tables(TableAfter(keys, ts.column, Column, r), TableAfter(keys, ts.equalV1, Equal1, r),
           TableAfter(keys, ts.equalV2, Equal2, r), TableAfter(keys, ts.order, Order, r))
  }

  ghost predicate CountIs(w: World, m: Counters, f: Family, h: seq<Put>, t: Bytes) {
    CounterOf(m, CounterKey(w.keys, f, t)) == |Chain(f, t, h)|
  }

  /** The counter of every name is the length of its chain. */
  ghost predicate CountsFor(w: World, m: Counters, f: Family, h: seq<Put>) {
    forall t: Bytes :: t in w.names ==> CountIs(w, m, f, h, t)
  }

  /** A node and its counters agree with the puts it has seen, and its data decrypts to what was put. */
  ghost predicate NodeFits(w: World, aes: Aes, store: Store, ts: Tables, h: seq<Put>) {
    && Honest(w, h)
    && store == NodeStore(w, h)
    && (forall f: Family :: CountsFor(w, Table(ts, f), f, h))
    && forall i: nat :: i < |h| ==> Decrypts(aes, h[i])
  }

  ghost predicate Decrypts(aes: Aes, r: Put) {
    aes.dec(r.cipher) == r.val
  }

  lemma CountAfter(w: World, m: Counters, f: Family, h: seq<Put>, r: Put, t: Bytes)
    requires Apart(w.keys, w.names) && Token(f, r) in w.names && t in w.names && |h| < 0xFFFF_FFFF
    requires CountIs(w, m, f, h, t)
    ensures CountIs(w, TableAfter(w.keys, m, f, r), f, h + [r], t)
  {
    ChainAfter(f, t, h, r);
    CounterKeysApart(w, f, t, Token(f, r));
  }

  lemma CountsAfter(w: World, m: Counters, f: Family, h: seq<Put>, r: Put)
    requires Apart(w.keys, w.names) && Token(f, r) in w.names && |h| < 0xFFFF_FFFF
    requires CountsFor(w, m, f, h)
    ensures CountsFor(w, TableAfter(w.keys, m, f, r), f, h + [r])
  {
    forall t: Bytes | t in w.names
      ensures CountIs(w, TableAfter(w.keys, m, f, r), f, h + [r], t)
    {
      assert CountIs(w, m, f, h, t);
      CountAfter(w, m, f, h, r, t);
    }
  }

  lemma CounterKeysApart(w: World, f: Family, a: Bytes, b: Bytes)
    requires Apart(w.keys, w.names) && a in w.names && b in w.names
    ensures CounterKey(w.keys, f, a) == CounterKey(w.keys, f, b) <==> a == b
  {
    var x, y := Plain(FamilyKey(f), a), Plain(FamilyKey(f), b);
    assert TellApart(w.keys, w.names, x, y);
    assert Label(w.keys, x) == Master(w.keys, FamilyKey(f), a) && Label(w.keys, y) == Master(w.keys, FamilyKey(f), b);
  }

  // Writes one after the other ------------------------------------------

  function Written(keys: Keys, s: Store, w: Write): Store {
    s[Label(keys, w.id) := w.bytes]
  }

  lemma ApplyAfter(keys: Keys, s: Store, ws: seq<Write>, w: Write)
    ensures Apply(keys, s, ws + [w]) == Written(keys, Apply(keys, s, ws), w)
  {
    assert (ws + [w])[..|ws|] == ws;
  }

  lemma {:induction false} ApplyTwo(keys: Keys, s: Store, a: seq<Write>, b: seq<Write>)
    ensures Apply(keys, s, a + b) == Apply(keys, Apply(keys, s, a), b)
  {
    if b == [] {
      assert a + b == a;
    } else {
      var rest, last := b[..|b| - 1], b[|b| - 1];
      ApplyTwo(keys, s, a, rest);
      assert a + b == (a + rest) + [last];
      ApplyAfter(keys, s, a + rest, last);
    }
  }

  lemma StoreAfter(w: World, h: seq<Put>, r: Put)
    ensures NodeStore(w, h + [r]) == Apply(w.keys, NodeStore(w, h), WritesOf(w.keys, h, r, Steps(r)))
  {
    assert (h + [r])[..|h|] == h;
    ApplyTwo(w.keys, map[], Log(w.keys, h), WritesOf(w.keys, h, r, Steps(r)));
  }

  lemma HonestAfter(w: World, h: seq<Put>, r: Put)
    requires Honest(w, h) && |h| < 0xFFFF_FFFF && PutOk(w, h + [r], |h|)
    ensures Honest(w, h + [r])
  {
    forall i: nat | i < |h| + 1
      ensures PutOk(w, h + [r], i)
    {
      if i < |h| {
        assert PutOk(w, h, i) && (h + [r])[..i] == h[..i];
      }
    }
  }

  /** One put takes a node and its counters from one history to the next. */
  lemma FitsAfter(w: World, aes: Aes, store: Store, ts: Tables, h: seq<Put>, r: Put)
    requires Apart(w.keys, w.names) && NodeFits(w, aes, store, ts, h)
    requires |h| < 0xFFFF_FFFF && PutOk(w, h + [r], |h|) && Decrypts(aes, r)
    ensures NodeFits(w, aes, Apply(w.keys, store, WritesOf(w.keys, h, r, Steps(r))), TablesAfter(w.keys, ts, r),
                     h + [r])
  {
    HonestAfter(w, h, r);
    StoreAfter(w, h, r);
    forall f: Family
      ensures CountsFor(w, Table(TablesAfter(w.keys, ts, r), f), f, h + [r])
    {
      CountsAfter(w, Table(ts, f), f, h, r);
    }
  }
}
