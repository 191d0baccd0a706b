/**
 One world in full: keys, names, ciphers and one put that meet every hypothesis of the client's theorems, and whose
 trapdoor two nodes route apart.
 */
module Example {
  import opened Bits
  import opened Memory
  import opened OreSpec
  import opened OreBlk
  import opened OreTheorems
  import opened OreHelper
  import opened SimConHash
  import opened Prf
  import opened IndexSpec
  import opened IndexTheorems
  import opened ClientSpec
  import opened Client
  import opened ClientTheorems

  // Labels --------------------------------------------------------------

  /** A digest that shows what it was made from: master key and name length in the bytes that no route looks at. */
  function Shown(pk: Byte, length: Byte, counted: Byte, c: Bytes): (d: Digest)
    requires |c| == 4
    ensures d[12] == pk && d[13] == length && d[14] == counted && d[16..20] == c
    ensures forall k :: 0 <= k < 7 ==> d[k] == 0
    ensures d[7] == 255 && forall k :: 8 <= k < 12 || 20 <= k < 32 ==> d[k] == 0
  {
    [0, 0, 0, 0, 0, 0, 0, 255, 0, 0, 0, 0, pk, length, counted, 0] + c + [0, 0, 0, 0, 0, 0, 0, 0, 0, 0, 0, 0]
  }

  /** A counter is a key of four bytes, a master key has one. */
  function ShownHmac(key: Bytes, data: Bytes): Digest {
    if |key| == 4 && |data| == 32 then Shown(data[12], data[13], 1, key)
    else Shown(if key == [] then 0 else key[0], |data| % 256, 0, [0, 0, 0, 0])
  }

  function NumberedKey(n: nat): Bytes { [n % 256] }

  const KEYS := Keys(ShownHmac, NumberedKey)

  /** Names of three lengths. */
  const TABLE: Bytes := [1]
  const KEY: Bytes := [2]
  const COL: Bytes := [3]
  const VAL: Bytes := [4, 0, 0, 0]

  const NAMES: set<Bytes> := {TABLE + KEY + COL, TABLE + COL, TABLE + COL + VAL}

  lemma NameByLength(a: Bytes, b: Bytes)
    requires a in NAMES && b in NAMES && |a| == |b|
    ensures a == b
  {
  }

  lemma NamesShort(a: Bytes)
    requires a in NAMES
    ensures |a| <= 6
  {
  }

  /** A label in use shows what it is computed from. */
  lemma LabelShows(id: Id)
    requires InUse(NAMES, id)
    ensures var d := Label(KEYS, id);
      && d[12] == id.pk && d[13] == |id.name| && d[14] == (if id.Counted? then 1 else 0)
      && (id.Counted? ==> d[16..20] == ToLE(id.c, 4))
  {
    NamesShort(id.name);
    var m := Master(KEYS, id.pk, id.name);
    assert m == Shown(id.pk, |id.name|, 0, [0, 0, 0, 0]);
  }

  lemma CounterShown(c: nat, c': nat)
    requires c < 0x1_0000_0000 && c' < 0x1_0000_0000 && ToLE(c, 4) == ToLE(c', 4)
    ensures c == c'
  {
    Pow2Half(32);
    ReadBackSmall(ToLE(c, 4), 0, c, 4);
    ReadBackSmall(ToLE(c, 4), 0, c', 4);
  }

  lemma LabelsApart()
    ensures Apart(KEYS, NAMES)
  {
    forall a: Id, b: Id
      ensures TellApart(KEYS, NAMES, a, b)
    {
      if InUse(NAMES, a) && InUse(NAMES, b) && Label(KEYS, a) == Label(KEYS, b) {
        LabelShows(a);
        LabelShows(b);
        NameByLength(a.name, b.name);
        if a.Counted? {
          CounterShown(a.c, b.c);
        }
      }
    }
  }

  // The rest of the world -----------------------------------------------

  const AES := Aes((iv, v) => [0] + v, c => if |c| > 0 then c[1..] else [])

  lemma AesWorks()
    ensures AesOk(AES)
  {
    forall iv: Bytes, v: Bytes
      ensures AES.enc(iv, v) != [] && AES.dec(AES.enc(iv, v)) == v
    {
      assert ([0] + v)[1..] == v;
    }
  }

  const ORACLE := Oracle(TwoBits, (_: Bytes) => Block(0, 0))

  const WORLD := World(KEYS, NAMES, ORACLE, OreKey(true, Block(0, 0), Block(0, 0), HelperParams(8)))

  lemma WorldIsSound(bound: Word32)
    ensures Sound(WORLD) && AesOk(AES)
    ensures RowsApart(WORLD, Range(TABLE, COL, 1, bound))
  {
    LabelsApart();
    AesWorks();
    HelperUsable(8);
    forall c: Word32
      ensures RowApart(ORACLE, WORLD.sk.params, CString(TABLE + COL), c, Aim(1))
    {
      WideTagsCanBeApart(WORLD.sk.params, ORACLE.sha, CString(TABLE + COL), c, Aim(1));
    }
  }

  /** The one put, by value and by order. */
  function ThePut(): Put {
    Request(TABLE, KEY, COL, VAL, false, true, false, true, AES.enc([], VAL), Block(0, 0))
  }

  lemma PutIsFine()
    ensures SessionOk(WORLD, AES, ThePut())
  {
    WorldIsSound(0);
    assert AES.dec(AES.enc([], VAL)) == VAL;
  }

  /** Its trapdoor: Get asks node 0 of two, Put writes to node 1. */
  lemma PutRoutesApart(thresholds: seq<Word32>)
    requires IsEvenRing(thresholds, 2)
    ensures GetRoute(KEYS, thresholds)(KeyName(ThePut())) == 0 && PutRoute(KEYS, thresholds)(KeyName(ThePut())) == 1
  {
    var td := Master(KEYS, 1, KeyName(ThePut()));
    assert td == Shown(1, 3, 0, [0, 0, 0, 0]);
    assert td[16..20] == [td[16], td[17], td[18], td[19]];
    RoutesPart(thresholds, td);
  }

  // Sessions ------------------------------------------------------------

  /** A value that was just put is not found by Get. */
  method PutIsLost() returns (found: bool)
    ensures !found
  {
    PutIsFine();
    var client := Start(KEYS, AES, ORACLE, Block(0, 0), Block(0, 0), 8, WORLD);
    PutRoutesApart(client.thresholds);
    client.RouteInRange(KeyName(ThePut()));
    var got;
    found, got := PutThenGet(client, TABLE, KEY, COL, VAL, false, true, false, true, [], Block(0, 0));
  }

  /** The same put is found by its value and by range: every hypothesis of the session can be met. */
  method PutIsSearchable() returns (byValue: seq<Bytes>, byRange: seq<Bytes>)
    ensures byValue == byRange == [[0] + VAL]
  {
    PutIsFine();
    WorldIsSound(5);
    assert ToLE(4, 4) + [] == VAL;
    byValue, byRange := Session(KEYS, AES, ORACLE, Block(0, 0), Block(0, 0), 8, WORLD, TABLE, KEY, COL, 4, [], [],
                                Block(0, 0), 1, 5);
  }
}
