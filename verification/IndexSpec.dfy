/**
 What a run of puts leaves in the store of one node. A put writes one entry for every index it asks for and then
 its data; an entry's label is the PRF of a counter, so each (index, token) pair owns a chain of labels 0, 1, 2, ...
 */
module IndexSpec {
  import opened Memory
  import opened Prf

  const INDEX_STOP_FLAG: nat := 1234567890

  /** One call of Put, with the ciphertext and the right part that were sent for it. */
  datatype Put = Put(table: Bytes, key: Bytes, col: Bytes, val: Bytes,
                     columnIndex: bool, equalIndexV1: bool, equalIndexV2: bool, oreIndex: bool,
                     cipher: Bytes, nonce: Block, right: Bytes)

  /** Table, key and column run together; table and column; table, column and value. */
  function KeyName(r: Put): Bytes { r.table + r.key + r.col }

  function ColName(r: Put): Bytes { r.table + r.col }

  function ValName(r: Put): Bytes { r.table + r.col + r.val }

  datatype Family = Column | Equal1 | Equal2 | Order

  function FamilyKey(f: Family): nat {
    match f case Column => 3 case Equal1 => 6 case Equal2 => 8 case Order => 10
  }

  predicate Selected(f: Family, r: Put) {
    match f
    case Column => r.columnIndex
    case Equal1 => r.equalIndexV1
    case Equal2 => r.equalIndexV2
    case Order => r.oreIndex
  }

  /** The name that a family counts by. */
  function Token(f: Family, r: Put): Bytes {
    if f == Equal2 then ValName(r) else ColName(r)
  }

  /** The puts that family f counts under token t, in order. */
  function Chain(f: Family, t: Bytes, h: seq<Put>): (rs: seq<Put>)
    ensures |rs| <= |h|
  {
    if h == [] then []
    else
      var rest, last := Chain(f, t, h[..|h| - 1]), h[|h| - 1];
      if Selected(f, last) && Token(f, last) == t then rest + [last] else rest
  }

  function DataLabel(keys: Keys, r: Put): Digest {
    Label(keys, Plain(1, KeyName(r)))
  }

  const ZERO4: Bytes := [0, 0, 0, 0]

  /** 36 bytes: the flag and the trapdoor, hidden under the mask and four zero bytes. */
  function ColumnEntry(mask: Digest, trapdoor: Digest): (e: Bytes)
    ensures |e| == 36
  {
    XorBytes(mask + ZERO4, ToLE(INDEX_STOP_FLAG, 4) + trapdoor)
  }

  /** The index entry of r as number c of its chain. */
  function Entry(keys: Keys, f: Family, r: Put, c: nat): (e: Bytes)
    ensures |e| >= 32
  {
    match f
    case Column => ColumnEntry(Label(keys, Counted(4, ColName(r), c)), DataLabel(keys, r))
    case Equal1 => Label(keys, Counted(7, ValName(r), c)) + DataLabel(keys, r)
    case Equal2 => Label(keys, Counted(9, ValName(r), c)) + DataLabel(keys, r)
    case Order => DataLabel(keys, r) + r.right
  }

  // Writes --------------------------------------------------------------

  datatype Write = Write(id: Id, bytes: Bytes)

  /** What a put does, in order. */
  datatype Step = Index(f: Family) | Data

  function IndexStep(f: Family, r: Put): seq<Step> {
    if Selected(f, r) then [Index(f)] else []
  }

  function Steps(r: Put): seq<Step> {
    IndexStep(Column, r) + IndexStep(Equal1, r) + IndexStep(Equal2, r) + IndexStep(Order, r) + [Data]
  }

  /** The write of one step of r after the puts h. */
  function WriteOf(keys: Keys, h: seq<Put>, r: Put, step: Step): Write {
    match step
    case Index(f) =>
      var c := |Chain(f, Token(f, r), h)|;
      Write(Counted(FamilyKey(f), Token(f, r), c), Entry(keys, f, r, c))
    case Data => Write(Plain(1, KeyName(r)), r.cipher)
  }

  function WritesOf(keys: Keys, h: seq<Put>, r: Put, steps: seq<Step>): (ws: seq<Write>)
    ensures |ws| == |steps|
    ensures forall k :: 0 <= k < |steps| ==> ws[k] == WriteOf(keys, h, r, steps[k])
  {
    seq(|steps|, k requires 0 <= k < |steps| => WriteOf(keys, h, r, steps[k]))
  }

  /** Everything written by the puts h. */
  function Log(keys: Keys, h: seq<Put>): seq<Write> {
    if h == [] then []
    else
      var rest, last := h[..|h| - 1], h[|h| - 1];
      Log(keys, rest) + WritesOf(keys, rest, last, Steps(last))
  }

  /** The bytes last written under a label, or none. */
  function Lookup(log: seq<Write>, id: Id): Bytes {
    if log == [] then []
    else if log[|log| - 1].id == id then log[|log| - 1].bytes
    else Lookup(log[..|log| - 1], id)
  }

  // The store -----------------------------------------------------------

  type Store = map<Bytes, Bytes>

  /** PoolGet: a missing key reads as the empty string. */
  function Get(store: Store, at: Bytes): Bytes {
    if at in store then store[at] else []
  }

  function Apply(keys: Keys, store: Store, ws: seq<Write>): Store {
    if ws == [] then store
    else
      var last := ws[|ws| - 1];
      Apply(keys, store, ws[..|ws| - 1])[Label(keys, last.id) := last.bytes]
  }

  predicate LogInUse(names: set<Bytes>, log: seq<Write>) {
    forall k :: 0 <= k < |log| ==> InUse(names, log[k].id)
  }

  /** As long as labels stay apart, the store answers by label what the log says by name. */
  lemma {:induction false} GetIsLookup(keys: Keys, names: set<Bytes>, log: seq<Write>, id: Id)
    requires Apart(keys, names) && LogInUse(names, log) && InUse(names, id)
    ensures Get(Apply(keys, map[], log), Label(keys, id)) == Lookup(log, id)
  {
    if log != [] {
      GetIsLookup(keys, names, log[..|log| - 1], id);
      assert InUse(names, log[|log| - 1].id);
      assert TellApart(keys, names, id, log[|log| - 1].id);
    }
  }

  // What the log shows --------------------------------------------------

  /** What label c of a chain holds after the puts h. */
  function ChainRead(keys: Keys, f: Family, t: Bytes, h: seq<Put>, c: nat): Bytes {
    if c < |Chain(f, t, h)| then Entry(keys, f, Chain(f, t, h)[c], c) else []
  }

  /** The ciphertext of the last put under a key, or none. */
  function Latest(h: seq<Put>, name: Bytes): Bytes {
    if h == [] then []
    else if KeyName(h[|h| - 1]) == name then h[|h| - 1].cipher
    else Latest(h[..|h| - 1], name)
  }

  /** Every chain of family f is dense: entries at the labels below its length, nothing from there on. */
  ghost predicate Shows(keys: Keys, log: seq<Write>, f: Family, h: seq<Put>) {
    forall t: Bytes, c: nat :: Lookup(log, Counted(FamilyKey(f), t, c)) == ChainRead(keys, f, t, h, c)
  }

  ghost predicate ShowsData(log: seq<Write>, h: seq<Put>) {
    forall name: Bytes :: Lookup(log, Plain(1, name)) == Latest(h, name)
  }

  lemma LookupAfter(log: seq<Write>, w: Write, id: Id)
    ensures Lookup(log + [w], id) == if w.id == id then w.bytes else Lookup(log, id)
  {
    assert (log + [w])[..|log|] == log;
  }

  lemma JoinThree<T>(a: seq<T>, b: seq<T>, c: seq<T>)
    ensures a + b + c == a + (b + c)
  {
  }

  /** The last put of a history behind another. */
  lemma LastOfTwo(a: seq<Put>, b: seq<Put>) returns (rest: seq<Put>, last: Put)
    requires b != []
    ensures rest == b[..|b| - 1] && b == rest + [last] && a + b == a + rest + [last]
  {
    rest, last := b[..|b| - 1], b[|b| - 1];
    JoinThree(a, rest, [last]);
  }

  lemma ChainAfter(f: Family, t: Bytes, h: seq<Put>, r: Put)
    ensures Chain(f, t, h + [r]) == if Selected(f, r) && Token(f, r) == t then Chain(f, t, h) + [r] else Chain(f, t, h)
  {
    assert (h + [r])[..|h|] == h;
  }

  lemma LatestAfter(h: seq<Put>, r: Put, name: Bytes)
    ensures Latest(h + [r], name) == if KeyName(r) == name then r.cipher else Latest(h, name)
  {
    assert (h + [r])[..|h|] == h;
  }

  /** An index write extends its own family by the put and leaves the others alone. */
  lemma IndexWriteShows(keys: Keys, log: seq<Write>, f: Family, h: seq<Put>, r: Put)
    requires Selected(f, r) && Shows(keys, log, f, h)
    ensures Shows(keys, log + [WriteOf(keys, h, r, Index(f))], f, h + [r])
  {
    var w := WriteOf(keys, h, r, Index(f));
    forall t: Bytes, c: nat
      ensures Lookup(log + [w], Counted(FamilyKey(f), t, c)) == ChainRead(keys, f, t, h + [r], c)
    {
      LookupAfter(log, w, Counted(FamilyKey(f), t, c));
      ChainAfter(f, t, h, r);
      assert Lookup(log, Counted(FamilyKey(f), t, c)) == ChainRead(keys, f, t, h, c);
    }
  }

  lemma OtherWriteShows(keys: Keys, log: seq<Write>, f: Family, h: seq<Put>, w: Write)
    requires Shows(keys, log, f, h) && (w.id.Plain? || w.id.pk != FamilyKey(f))
    ensures Shows(keys, log + [w], f, h)
  {
    forall t: Bytes, c: nat
      ensures Lookup(log + [w], Counted(FamilyKey(f), t, c)) == ChainRead(keys, f, t, h, c)
    {
      LookupAfter(log, w, Counted(FamilyKey(f), t, c));
      assert Lookup(log, Counted(FamilyKey(f), t, c)) == ChainRead(keys, f, t, h, c);
    }
  }

  lemma WriteShowsData(keys: Keys, log: seq<Write>, h: seq<Put>, r: Put, step: Step)
    requires ShowsData(log, h) && step == Data
    ensures ShowsData(log + [WriteOf(keys, h, r, step)], h + [r])
  {
    var w := WriteOf(keys, h, r, step);
    forall name: Bytes
      ensures Lookup(log + [w], Plain(1, name)) == Latest(h + [r], name)
    {
      LookupAfter(log, w, Plain(1, name));
      LatestAfter(h, r, name);
      assert Lookup(log, Plain(1, name)) == Latest(h, name);
    }
  }

  lemma DataKept(log: seq<Write>, h: seq<Put>, w: Write)
    requires ShowsData(log, h) && w.id.Counted?
    ensures ShowsData(log + [w], h)
  {
    forall name: Bytes
      ensures Lookup(log + [w], Plain(1, name)) == Latest(h, name)
    {
      LookupAfter(log, w, Plain(1, name));
      assert Lookup(log, Plain(1, name)) == Latest(h, name);
    }
  }

  /** Steps never repeat, and index steps are exactly the selected families. */
  lemma StepsDistinct(r: Put)
    ensures forall i, j :: 0 <= i < j < |Steps(r)| ==> Steps(r)[i] != Steps(r)[j]
    ensures forall f: Family :: Index(f) in Steps(r) <==> Selected(f, r)
    ensures Steps(r)[|Steps(r)| - 1] == Data
  {
  }

  /** Where a step belongs: the column first, then the equality indexes, the order index, and last the data. */
  function Rank(step: Step): nat {
    match step
    case Data => 4
    case Index(f) => match f case Column => 0 case Equal1 => 1 case Equal2 => 2 case Order => 3
  }

  lemma StepsInOrder(r: Put)
    ensures forall i, j :: 0 <= i < j < |Steps(r)| ==> Rank(Steps(r)[i]) < Rank(Steps(r)[j])
  {
  }

  /** The history a family shows once some steps of r are done. */
  function ShownBy(step: Step, h: seq<Put>, r: Put, done: seq<Step>): seq<Put> {
    if step in done then h + [r] else h
  }

  /** The views of a log in the middle of a put: the data and every family show r once their own write is done. */
  ghost predicate ShowsRunning(keys: Keys, log: seq<Write>, h: seq<Put>, r: Put, done: seq<Step>) {
    && ShowsData(log, ShownBy(Data, h, r, done))
    && forall f: Family :: Shows(keys, log, f, ShownBy(Index(f), h, r, done))
  }

  lemma DataStepShows(keys: Keys, log: seq<Write>, h: seq<Put>, r: Put, done: seq<Step>)
    requires ShowsRunning(keys, log, h, r, done) && Data !in done
    ensures ShowsRunning(keys, log + [WriteOf(keys, h, r, Data)], h, r, done + [Data])
  {
    var w := WriteOf(keys, h, r, Data);
    WriteShowsData(keys, log, h, r, Data);
    forall f: Family
      ensures Shows(keys, log + [w], f, ShownBy(Index(f), h, r, done + [Data]))
    {
      OtherWriteShows(keys, log, f, ShownBy(Index(f), h, r, done), w);
    }
  }

  lemma IndexStepShows(keys: Keys, log: seq<Write>, h: seq<Put>, r: Put, done: seq<Step>, g: Family)
    requires ShowsRunning(keys, log, h, r, done) && Index(g) !in done && Selected(g, r)
    ensures ShowsRunning(keys, log + [WriteOf(keys, h, r, Index(g))], h, r, done + [Index(g)])
  {
    var w := WriteOf(keys, h, r, Index(g));
    DataKept(log, ShownBy(Data, h, r, done), w);
    forall f: Family
      ensures Shows(keys, log + [w], f, ShownBy(Index(f), h, r, done + [Index(g)]))
    {
      if f == g {
        IndexWriteShows(keys, log, f, h, r);
      } else {
        OtherWriteShows(keys, log, f, ShownBy(Index(f), h, r, done), w);
      }
    }
  }

  /** One more write of a running put. */
  lemma StepShows(keys: Keys, log: seq<Write>, h: seq<Put>, r: Put, done: seq<Step>, step: Step)
    requires ShowsRunning(keys, log, h, r, done) && step !in done && (step.Index? ==> Selected(step.f, r))
    ensures ShowsRunning(keys, log + [WriteOf(keys, h, r, step)], h, r, done + [step])
  {
    match step {
      case Data => DataStepShows(keys, log, h, r, done);
      case Index(g) => IndexStepShows(keys, log, h, r, done, g);
    }
  }

  /** Steps of r that never repeat and touch only selected families. */
  ghost predicate Orderly(r: Put, steps: seq<Step>) {
    forall k :: 0 <= k < |steps| ==> steps[k] !in steps[..k] && (steps[k].Index? ==> Selected(steps[k].f, r))
  }

  /** While r is being put, each index shows r from its own write on, and the data shows r from its own. */
  lemma {:induction false} RunningShows(keys: Keys, log: seq<Write>, h: seq<Put>, r: Put, steps: seq<Step>, k: nat)
    requires k <= |steps| && Orderly(r, steps)
    requires ShowsRunning(keys, log, h, r, [])
    ensures ShowsRunning(keys, log + WritesOf(keys, h, r, steps[..k]), h, r, steps[..k])
  {
    if k == 0 {
      assert log + WritesOf(keys, h, r, steps[..0]) == log && steps[..0] == [];
    } else {
      RunningShows(keys, log, h, r, steps, k - 1);
      var done, step := steps[..k - 1], steps[k - 1];
      WritesAfter(keys, log, h, r, done, step);
      assert steps[..k] == done + [step];
      StepShows(keys, log + WritesOf(keys, h, r, done), h, r, done, step);
    }
  }

  lemma StepsOrderly(r: Put)
    ensures Orderly(r, Steps(r))
  {
    StepsDistinct(r);
  }

  lemma WritesAfter(keys: Keys, log: seq<Write>, h: seq<Put>, r: Put, done: seq<Step>, step: Step)
    ensures log + WritesOf(keys, h, r, done + [step]) == log + WritesOf(keys, h, r, done) + [WriteOf(keys, h, r, step)]
  {
  }

  /** An unselected family does not see a put. */
  lemma UnselectedShows(keys: Keys, log: seq<Write>, f: Family, h: seq<Put>, r: Put)
    requires !Selected(f, r) && Shows(keys, log, f, h)
    ensures Shows(keys, log, f, h + [r])
  {
    forall t: Bytes, c: nat
      ensures Lookup(log, Counted(FamilyKey(f), t, c)) == ChainRead(keys, f, t, h + [r], c)
    {
      ChainAfter(f, t, h, r);
      assert Lookup(log, Counted(FamilyKey(f), t, c)) == ChainRead(keys, f, t, h, c);
    }
  }

  /** A whole put takes the views of a log from one history to the next. */
  lemma WholePutShows(keys: Keys, log: seq<Write>, h: seq<Put>, r: Put)
    requires ShowsData(log, h) && forall f: Family :: Shows(keys, log, f, h)
    ensures ShowsData(log + WritesOf(keys, h, r, Steps(r)), h + [r])
    ensures forall f: Family :: Shows(keys, log + WritesOf(keys, h, r, Steps(r)), f, h + [r])
  {
    StepsOrderly(r);
    RunningShows(keys, log, h, r, Steps(r), |Steps(r)|);
    assert Steps(r)[..|Steps(r)|] == Steps(r);
    PutShows(keys, log + WritesOf(keys, h, r, Steps(r)), h, r);
  }

  /** After any history of puts every chain of every family is dense and every key holds its last ciphertext. */
  lemma {:induction false} LogShows(keys: Keys, h: seq<Put>)
    ensures ShowsData(Log(keys, h), h)
    ensures forall f: Family :: Shows(keys, Log(keys, h), f, h)
  {
    if h != [] {
      var rest, r := h[..|h| - 1], h[|h| - 1];
      LogShows(keys, rest);
      WholePutShows(keys, Log(keys, rest), rest, r);
      assert rest + [r] == h;
    }
  }

  /** When all its writes are done, a put is shown everywhere. */
  lemma PutShows(keys: Keys, log: seq<Write>, h: seq<Put>, r: Put)
    requires ShowsRunning(keys, log, h, r, Steps(r))
    ensures ShowsData(log, h + [r])
    ensures forall f: Family :: Shows(keys, log, f, h + [r])
  {
    StepsDistinct(r);
    forall f: Family
      ensures Shows(keys, log, f, h + [r])
    {
      if !Selected(f, r) {
        UnselectedShows(keys, log, f, h, r);
      }
    }
  }
}
