/**
 A scan on one node while the client puts: the client writes a put's index entries and then its data one at a time,
 and the scan reads one label at a time in between.
 */
module RunningPut {
  import opened Memory
  import opened OreHelper
  import opened Prf
  import opened IndexSpec
  import opened Proxy
  import opened IndexTheorems

  /** The writing client: between puts, or after the first k writes of a put. */
  datatype Writer = Idle | Putting(r: Put, k: nat)

  /** What a scan returned, and the label it found it at. */
  datatype Item = Item(c: nat, data: Bytes)

  /** The loop of a search: about to read a label, about to fetch data, or ended. */
  datatype Scanner =
    | AtLabel(c: nat, out: seq<Item>)
    | AtFetch(c: nat, at: Digest, out: seq<Item>)
    | Done(c: nat, out: seq<Item>)

  /** h are the completed puts. */
  datatype State = State(h: seq<Put>, writer: Writer, scan: Scanner)

  datatype Ask = Ask(w: World, q: Query, probe: Probe)

  // Views ---------------------------------------------------------------

  /** The puts begun so far. */
  function Begun(s: State): seq<Put> {
    if s.writer.Idle? then s.h else s.h + [s.writer.r]
  }

  predicate WriterOk(s: State) {
    s.writer.Putting? ==> s.writer.k <= |Steps(s.writer.r)|
  }

  /** The steps of the running put that are done. */
  function StepsDone(s: State): seq<Step>
    requires WriterOk(s)
  {
    if s.writer.Idle? then [] else Steps(s.writer.r)[..s.writer.k]
  }

  /** The puts whose given step is visible in the store. */
  function Visible(s: State, step: Step): seq<Put>
    requires WriterOk(s)
  {
    if s.writer.Idle? then s.h else ShownBy(step, s.h, s.writer.r, StepsDone(s))
  }

  function LogNow(w: World, s: State): seq<Write>
    requires WriterOk(s)
  {
    if s.writer.Idle? then Log(w.keys, s.h)
    else Log(w.keys, s.h) + WritesOf(w.keys, s.h, s.writer.r, StepsDone(s))
  }

  function StoreNow(w: World, s: State): Store
    requires WriterOk(s)
  {
    Apply(w.keys, map[], LogNow(w, s))
  }

  // Steps ---------------------------------------------------------------

  ghost predicate WriterStep(w: World, s: State, s': State)
    requires WriterOk(s)
  {
    && s'.scan == s.scan
    && match s.writer
       case Idle =>
         s'.h == s.h && s'.writer.Putting? && s'.writer.k == 0 && Honest(w, s.h + [s'.writer.r])
       case Putting(r, k) =>
         if k < |Steps(r)| then s'.h == s.h && s'.writer == Putting(r, k + 1)
         else s'.h == s.h + [r] && s'.writer == Idle
  }

  /** One read of the scan. */
  function ScanNext(a: Ask, s: State): Scanner
    requires WriterOk(s)
  {
    var store := StoreNow(a.w, s);
    match s.scan
    case AtLabel(c, out) =>
      var entry := Get(store, Count(a.w.keys.hmac, c, Trapdoor(a.w, a.q)));
      if entry == [] then Done(c, out)
      else (
        match Test(a.w.keys.hmac, a.probe, AsWord32(c), entry)
        case Skip => AtLabel(c + 1, out)
        case Fetch(at) => AtFetch(c, at, out)
      )
    case AtFetch(c, at, out) =>
      var data := Get(store, at);
      AtLabel(c + 1, if data != [] then out + [Item(c, data)] else out)
    case Done(c, out) => s.scan
  }

  ghost predicate Next(a: Ask, s: State, s': State)
    requires WriterOk(s)
  {
    WriterStep(a.w, s, s') || (s'.h == s.h && s'.writer == s.writer && s'.scan == ScanNext(a, s))
  }

  // Reading in the middle of a put --------------------------------------

  ghost predicate Fine(a: Ask, s: State) {
    && Sound(a.w) && QueryNamed(a.w, a.q) && ProbeFor(a.w, a.q, a.probe) && RowsApart(a.w, a.q)
    && WriterOk(s) && Honest(a.w, Begun(s))
  }

  lemma LogNowShows(w: World, s: State)
    requires WriterOk(s)
    ensures ShowsData(LogNow(w, s), Visible(s, Data))
    ensures forall f: Family :: Shows(w.keys, LogNow(w, s), f, Visible(s, Index(f)))
  {
    LogShows(w.keys, s.h);
    if s.writer.Putting? {
      StepsOrderly(s.writer.r);
      RunningShows(w.keys, Log(w.keys, s.h), s.h, s.writer.r, Steps(s.writer.r), s.writer.k);
    }
  }

  lemma LogNowInUse(w: World, s: State)
    requires WriterOk(s) && Honest(w, Begun(s))
    ensures LogInUse(w.names, LogNow(w, s))
  {
    if s.writer.Putting? {
      HonestPrefix(w, Begun(s), |s.h|);
      assert Begun(s)[..|s.h|] == s.h;
      HonestLogInUse(w, s.h);
      assert PutOk(w, Begun(s), |s.h|);
      WritesInUse(w, s.h, s.writer.r, StepsDone(s));
    } else {
      HonestLogInUse(w, s.h);
    }
  }

  /** A label shows the chain of the puts whose index entry is written. */
  lemma LabelNow(w: World, s: State, f: Family, t: Bytes, c: nat)
    requires Apart(w.keys, w.names) && WriterOk(s) && Honest(w, Begun(s)) && t in w.names && c < 0x1_0000_0000
    ensures Get(StoreNow(w, s), Count(w.keys.hmac, c, Master(w.keys, FamilyKey(f), t)))
              == ChainRead(w.keys, f, t, Visible(s, Index(f)), c)
  {
    LogNowShows(w, s);
    LogNowInUse(w, s);
    ChainGet(w, LogNow(w, s), f, t, Visible(s, Index(f)), c);
  }

  /** A data label shows the puts whose data is written. */
  lemma DataNow(w: World, s: State, name: Bytes)
    requires Apart(w.keys, w.names) && WriterOk(s) && Honest(w, Begun(s)) && name in w.names
    ensures Get(StoreNow(w, s), Master(w.keys, 1, name)) == Latest(Visible(s, Data), name)
  {
    LogNowShows(w, s);
    LogNowInUse(w, s);
    DataGet(w, LogNow(w, s), Visible(s, Data), name);
  }

  // What a running scan keeps -------------------------------------------

  lemma {:induction false} ChainPrefix(f: Family, t: Bytes, g: seq<Put>, g': seq<Put>)
    requires g <= g'
    ensures Chain(f, t, g) <= Chain(f, t, g')
  {
    if |g| < |g'| {
      ChainPrefix(f, t, g, g'[..|g'| - 1]);
    } else {
      assert g == g';
    }
  }

  function ChainIn(q: Query, g: seq<Put>): seq<Put> {
    Chain(FamilyOf(q), TokenOf(q), g)
  }

  ghost predicate StoredAs(d: seq<Put>, i: nat, name: Bytes, data: Bytes)
    requires i < |d|
  {
    KeyName(d[i]) == name && d[i].cipher == data
  }

  /** An item is the stored data of a matching put: put number c of the chain, under whose key the data was written. */
  ghost predicate ItemOk(q: Query, g: seq<Put>, d: seq<Put>, item: Item) {
    && item.c < |ChainIn(q, g)| && Matches(q, ChainIn(q, g)[item.c])
    && exists i: nat :: i < |d| && StoredAs(d, i, KeyName(ChainIn(q, g)[item.c]), item.data)
  }

  lemma ItemOkGrows(q: Query, g: seq<Put>, d: seq<Put>, g': seq<Put>, d': seq<Put>, item: Item)
    requires ItemOk(q, g, d, item) && g <= g' && d <= d'
    ensures ItemOk(q, g', d', item)
  {
    ChainPrefix(FamilyOf(q), TokenOf(q), g, g');
    var i: nat :| i < |d| && StoredAs(d, i, KeyName(ChainIn(q, g)[item.c]), item.data);
    assert StoredAs(d', i, KeyName(ChainIn(q, g')[item.c]), item.data);
  }

  /** Put number j of the chain was found. */
  ghost predicate Answered(out: seq<Item>, j: nat) {
    exists k: nat :: k < |out| && out[k].c == j
  }

  ghost predicate Owed(q: Query, h0: seq<Put>, j: nat) {
    j < |ChainIn(q, h0)| && Matches(q, ChainIn(q, h0)[j])
  }

  /** Items found below label c, in order of their labels. */
  ghost predicate ItemsOk(q: Query, g: seq<Put>, d: seq<Put>, c: nat, out: seq<Item>) {
    && (forall k: nat :: k < |out| ==> ItemOk(q, g, d, out[k]) && out[k].c < c)
    && (forall k: nat, l: nat :: k < l < |out| ==> out[k].c < out[l].c)
  }

  /** Every put that was complete before the scan and lies below label c was found. */
  ghost predicate Complete(q: Query, h0: seq<Put>, c: nat, out: seq<Item>) {
    forall j: nat :: j < c && Owed(q, h0, j) ==> Answered(out, j)
  }

  ghost predicate ScanOk(a: Ask, h0: seq<Put>, g: seq<Put>, d: seq<Put>, scan: Scanner) {
    && ItemsOk(a.q, g, d, scan.c, scan.out) && Complete(a.q, h0, scan.c, scan.out)
    && scan.c <= |ChainIn(a.q, g)|
    && (scan.AtFetch? ==>
      && scan.c < |ChainIn(a.q, g)| && Matches(a.q, ChainIn(a.q, g)[scan.c])
      && scan.at == DataLabel(a.w.keys, ChainIn(a.q, g)[scan.c]))
    && (scan.Done? ==> |ChainIn(a.q, h0)| <= scan.c)
  }

  /** The invariant of every run of writer and scan. */
  ghost predicate Inv(a: Ask, h0: seq<Put>, s: State) {
    Fine(a, s) && h0 <= s.h && ScanOk(a, h0, Begun(s), Visible(s, Data), s.scan)
  }

  lemma ScanOkGrows(a: Ask, h0: seq<Put>, g: seq<Put>, d: seq<Put>, g': seq<Put>, d': seq<Put>, scan: Scanner)
    requires ScanOk(a, h0, g, d, scan) && g <= g' && d <= d'
    ensures ScanOk(a, h0, g', d', scan)
  {
    ChainPrefix(FamilyOf(a.q), TokenOf(a.q), g, g');
    forall k: nat | k < |scan.out|
      ensures ItemOk(a.q, g', d', scan.out[k])
    {
      ItemOkGrows(a.q, g, d, g', d', scan.out[k]);
    }
  }

  /** A write only ever adds to what is begun and to what is visible. */
  lemma WriterGrows(w: World, s: State, s': State)
    requires WriterOk(s) && WriterStep(w, s, s')
    ensures WriterOk(s') && Begun(s) <= Begun(s') && Visible(s, Data) <= Visible(s', Data) && s.h <= s'.h
    ensures Honest(w, Begun(s)) ==> Honest(w, Begun(s'))
  {
    if s.writer.Putting? {
      StepsDistinct(s.writer.r);
      var r, k := s.writer.r, s.writer.k;
      if k == |Steps(r)| {
        assert Steps(r)[..k] == Steps(r);
      }
    }
  }

  lemma WriterKeeps(a: Ask, h0: seq<Put>, s: State, s': State)
    requires Inv(a, h0, s) && WriterStep(a.w, s, s')
    ensures Inv(a, h0, s')
  {
    WriterGrows(a.w, s, s');
    ScanOkGrows(a, h0, Begun(s), Visible(s, Data), Begun(s'), Visible(s', Data), s.scan);
  }

  // One read ------------------------------------------------------------

  /** What the store shows is between the completed puts and the begun ones. */
  lemma VisibleBetween(s: State, step: Step)
    requires WriterOk(s)
    ensures s.h <= Visible(s, step) <= Begun(s)
  {
  }

  lemma SmallCounter(c: nat)
    requires c < 0x1_0000_0000
    ensures AsWord32(c) == c
  {
  }

  /** Reading label c finds the entry of put c of the chain, or ends behind every put that was complete at the start. */
  lemma LabelRead(a: Ask, s: State, c: nat)
    requires Fine(a, s) && c <= |ChainIn(a.q, Begun(s))|
    ensures c < 0x1_0000_0000
    ensures var entry := Get(StoreNow(a.w, s), Count(a.w.keys.hmac, c, Trapdoor(a.w, a.q)));
      if entry == [] then |ChainIn(a.q, s.h)| <= c
      else
        && c < |ChainIn(a.q, Begun(s))|
        && Test(a.w.keys.hmac, a.probe, AsWord32(c), entry)
           == if Matches(a.q, ChainIn(a.q, Begun(s))[c])
              then Fetch(DataLabel(a.w.keys, ChainIn(a.q, Begun(s))[c])) else Skip
  {
    var f, t := FamilyOf(a.q), TokenOf(a.q);
    var x := Visible(s, Index(f));
    VisibleBetween(s, Index(f));
    ChainPrefix(f, t, s.h, x);
    ChainPrefix(f, t, x, Begun(s));
    LabelNow(a.w, s, f, t, c);
    if c < |Chain(f, t, x)| {
      SmallCounter(c);
      ChainTest(a.w, a.q, a.probe, Begun(s), c);
    }
  }

  lemma AddItemOk(q: Query, g: seq<Put>, d: seq<Put>, c: nat, out: seq<Item>, item: Item)
    requires ItemsOk(q, g, d, c, out) && ItemOk(q, g, d, item) && item.c == c
    ensures ItemsOk(q, g, d, c + 1, out + [item])
  {
    var out' := out + [item];
    forall k: nat | k < |out'|
      ensures ItemOk(q, g, d, out'[k]) && out'[k].c < c + 1
    {
      assert k < |out| ==> out'[k] == out[k];
    }
    forall k: nat, l: nat | k < l < |out'|
      ensures out'[k].c < out'[l].c
    {
      assert out'[k] == out[k] && (l < |out| ==> out'[l] == out[l]);
    }
  }

  lemma AddItemComplete(q: Query, h0: seq<Put>, c: nat, out: seq<Item>, item: Item)
    requires Complete(q, h0, c, out) && item.c == c
    ensures Complete(q, h0, c + 1, out + [item])
  {
    var out' := out + [item];
    forall j: nat | j < c + 1 && Owed(q, h0, j)
      ensures Answered(out', j)
    {
      if j < c {
        var k: nat :| k < |out| && out[k].c == j;
        assert out'[k].c == j;
      } else {
        assert out'[|out|].c == j;
      }
    }
  }

  lemma AddItem(q: Query, g: seq<Put>, d: seq<Put>, h0: seq<Put>, c: nat, out: seq<Item>, item: Item)
    requires ItemsOk(q, g, d, c, out) && Complete(q, h0, c, out) && ItemOk(q, g, d, item) && item.c == c
    ensures ItemsOk(q, g, d, c + 1, out + [item]) && Complete(q, h0, c + 1, out + [item])
  {
    AddItemOk(q, g, d, c, out, item);
    AddItemComplete(q, h0, c, out, item);
  }

  /** Moving on without an item is right when nothing was owed. */
  lemma SkipItem(q: Query, g: seq<Put>, d: seq<Put>, h0: seq<Put>, c: nat, out: seq<Item>)
    requires ItemsOk(q, g, d, c, out) && Complete(q, h0, c, out) && !Owed(q, h0, c)
    ensures ItemsOk(q, g, d, c + 1, out) && Complete(q, h0, c + 1, out)
  {
    forall j: nat | j < c + 1 && Owed(q, h0, j)
      ensures Answered(out, j)
    {
      assert j < c;
    }
  }

  lemma {:induction false} LatestSource(h: seq<Put>, name: Bytes) returns (i: nat)
    requires Latest(h, name) != []
    ensures i < |h| && StoredAs(h, i, name, Latest(h, name))
  {
    var n := |h| - 1;
    if KeyName(h[n]) == name {
      i := n;
    } else {
      i := LatestSource(h[..n], name);
      assert StoredAs(h[..n], i, name, Latest(h, name));
    }
  }

  /** The put behind an owed entry is complete, so its data is there. */
  lemma OwedDataThere(a: Ask, h0: seq<Put>, s: State, c: nat)
    requires Fine(a, s) && h0 <= s.h && Owed(a.q, h0, c)
    ensures c < |ChainIn(a.q, Begun(s))|
    ensures Latest(Visible(s, Data), KeyName(ChainIn(a.q, Begun(s))[c])) != []
  {
    var f, t := FamilyOf(a.q), TokenOf(a.q);
    VisibleBetween(s, Data);
    ChainPrefix(f, t, h0, s.h);
    ChainPrefix(f, t, s.h, Begun(s));
    var i := ChainPosition(f, t, h0, c);
    var d := Visible(s, Data);
    assert Begun(s)[..|d|] == d;
    HonestPrefix(a.w, Begun(s), |d|);
    LatestPresent(a.w, d, i);
  }

  /** What reading a label can lead to. */
  ghost predicate LabelOutcome(a: Ask, s: State, c: nat, out: seq<Item>, next: Scanner) {
    var chain := ChainIn(a.q, Begun(s));
    if next.Done? then next == Done(c, out) && |ChainIn(a.q, s.h)| <= c
    else
      && c < |chain|
      && next == if Matches(a.q, chain[c]) then AtFetch(c, DataLabel(a.w.keys, chain[c]), out) else AtLabel(c + 1, out)
  }

  lemma LabelNext(a: Ask, s: State, c: nat, out: seq<Item>)
    requires Fine(a, s) && s.scan == AtLabel(c, out) && c <= |ChainIn(a.q, Begun(s))|
    ensures LabelOutcome(a, s, c, out, ScanNext(a, s))
  {
    LabelRead(a, s, c);
  }

  lemma LabelKeeps(a: Ask, h0: seq<Put>, s: State, next: Scanner)
    requires h0 <= s.h && WriterOk(s) && s.scan.AtLabel? && ScanOk(a, h0, Begun(s), Visible(s, Data), s.scan)
    requires LabelOutcome(a, s, s.scan.c, s.scan.out, next)
    ensures ScanOk(a, h0, Begun(s), Visible(s, Data), next)
  {
    var c := s.scan.c;
    ChainPrefix(FamilyOf(a.q), TokenOf(a.q), h0, s.h);
    ChainPrefix(FamilyOf(a.q), TokenOf(a.q), h0, Begun(s));
    if next.AtLabel? {
      SkipItem(a.q, Begun(s), Visible(s, Data), h0, c, s.scan.out);
    }
  }

  /** The fetch after label c. */
  lemma FetchKeeps(a: Ask, h0: seq<Put>, s: State, s': State)
    requires Inv(a, h0, s) && s.scan.AtFetch? && s' == s.(scan := ScanNext(a, s))
    ensures ScanOk(a, h0, Begun(s), Visible(s, Data), s'.scan)
  {
    var g, d, c, out := Begun(s), Visible(s, Data), s.scan.c, s.scan.out;
    var name := KeyName(ChainIn(a.q, g)[c]);
    ChainTest(a.w, a.q, a.probe, g, c);
    DataNow(a.w, s, name);
    if Latest(d, name) != [] {
      var i := LatestSource(d, name);
      AddItem(a.q, g, d, h0, c, out, Item(c, Latest(d, name)));
    } else {
      if Owed(a.q, h0, c) {
        OwedDataThere(a, h0, s, c);
      }
      SkipItem(a.q, g, d, h0, c, out);
    }
  }

  lemma ReadKeeps(a: Ask, h0: seq<Put>, s: State)
    requires Inv(a, h0, s)
    ensures ScanOk(a, h0, Begun(s), Visible(s, Data), ScanNext(a, s))
  {
    if s.scan.AtLabel? {
      LabelNext(a, s, s.scan.c, s.scan.out);
      LabelKeeps(a, h0, s, ScanNext(a, s));
    } else if s.scan.AtFetch? {
      FetchKeeps(a, h0, s, s.(scan := ScanNext(a, s)));
    }
  }

  /** Every step keeps the invariant. */
  lemma NextKeeps(a: Ask, h0: seq<Put>, s: State, s': State)
    requires Inv(a, h0, s) && Next(a, s, s')
    ensures Inv(a, h0, s')
  {
    if WriterStep(a.w, s, s') {
      WriterKeeps(a, h0, s, s');
    } else {
      ReadKeeps(a, h0, s);
    }
  }

  // Whole runs ----------------------------------------------------------

  ghost predicate Stepped(a: Ask, run: seq<State>, i: nat)
    requires i + 1 < |run|
  {
    WriterOk(run[i]) && Next(a, run[i], run[i + 1])
  }

  /** A run that starts with a new scan, at any point of the writer's work. */
  ghost predicate IsRun(a: Ask, run: seq<State>) {
    && |run| > 0 && Fine(a, run[0]) && run[0].scan == AtLabel(0, [])
    && forall i: nat :: i + 1 < |run| ==> Stepped(a, run, i)
  }

  lemma RunStarts(a: Ask, s: State)
    requires Fine(a, s) && s.scan == AtLabel(0, [])
    ensures Inv(a, s.h, s)
  {
  }

  lemma RunKeeps(a: Ask, run: seq<State>, n: nat)
    requires IsRun(a, run) && n < |run|
    ensures Inv(a, run[0].h, run[n])
  {
    RunStarts(a, run[0]);
    for i := 0 to n
      invariant Inv(a, run[0].h, run[i])
    {
      assert Stepped(a, run, i);
      NextKeeps(a, run[0].h, run[i], run[i + 1]);
    }
  }

  /** In every run, however writes and reads interleave: each item is stored data of a matching put, in put order and no
      dangling entry among them; and when the scan has ended, every matching put that was complete when it began was
      found, at the label it was counted under. */
  lemma SearchUnderPut(a: Ask, run: seq<State>, n: nat)
    requires IsRun(a, run) && n < |run|
    ensures WriterOk(run[n])
    ensures ItemsOk(a.q, Begun(run[n]), Visible(run[n], Data), run[n].scan.c, run[n].scan.out)
    ensures run[n].scan.Done? ==> forall j: nat :: j < |run[0].h| && Matches(a.q, run[0].h[j]) ==>
      Answered(run[n].scan.out, |ChainIn(a.q, run[0].h[..j])|)
  {
    RunKeeps(a, run, n);
    var h0 := run[0].h;
    forall j: nat | run[n].scan.Done? && j < |h0| && Matches(a.q, h0[j])
      ensures Answered(run[n].scan.out, |ChainIn(a.q, h0[..j])|)
    {
      ChainIndex(FamilyOf(a.q), TokenOf(a.q), h0, j);
      assert Owed(a.q, h0, |ChainIn(a.q, h0[..j])|);
    }
  }

  lemma SameKeySamePut(g: seq<Put>, i: nat, k: nat)
    requires DistinctKeys(g) && i < |g| && k < |g| && KeyName(g[i]) == KeyName(g[k])
    ensures i == k
  {
  }

  /** With distinct keys an item is the very ciphertext of its put. */
  lemma ItemIsOwnData(q: Query, g: seq<Put>, d: seq<Put>, item: Item)
    requires ItemOk(q, g, d, item) && d <= g && DistinctKeys(g)
    ensures item.data == ChainIn(q, g)[item.c].cipher
  {
    var i: nat :| i < |d| && StoredAs(d, i, KeyName(ChainIn(q, g)[item.c]), item.data);
    var k := ChainPosition(FamilyOf(q), TokenOf(q), g, item.c);
    SameKeySamePut(g, i, k);
  }
}
