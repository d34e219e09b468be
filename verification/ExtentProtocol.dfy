/**
 The updates of one extent (`btier/extent_map.cc`).  Appends, dead marks and
 migrations load and store the metrics word under the extent's lock; `record_io`
 and `set_randomness` swap it without the lock, between any two of those steps.
 */
module ExtentProtocol {
  import opened Options
  import opened ExtentMetrics

  const TwoTo32: nat := 0x1_0000_0000
  const HeaderSize: nat := 4096

  datatype Location = Location(offset: nat, length: nat, tier: nat)

  /** The fields that the lock protects. */
  datatype Entry = Entry(used: nat, live: nat, location: Location)

  /** The locked operations. */
  datatype Op =
    | Append(size: nat)
    | MarkDead(length: nat)
    | Begin
    | Commit(genBefore: nat, newLocation: Location)
    | Abort

  datatype Result =
    | Refused
    | Done
    | SlotAt(offset: nat)
    | Handle(genBefore: nat, source: Location)
    | Moved(from: Location)

  // The operations as single steps.

  datatype Extent = Extent(state: nat, gen: nat, entry: Entry)

  function Bump(gen: nat): nat {
    (gen + 1) % TwoTo32
  }

  function Capacity(e: Entry): nat {
    (e.location.length + TwoTo32 - HeaderSize) % TwoTo32
  }

  /** `used_bytes + size > capacity`, in 32 bits. */
  predicate TooLarge(e: Entry, size: nat) {
    Capacity(e) < (e.used + size) % TwoTo32
  }

  function Appended(e: Entry, size: nat): Entry {
    e.(used := (e.used + size) % TwoTo32, live := (e.live + size) % TwoTo32)
  }

  function Buried(e: Entry, length: nat): Entry {
    e.(live := if length <= e.live then e.live - length else 0)
  }

  function Apply(op: Op, x: Extent): (Extent, Result) {
    match op
    case Append(size) =>
      if x.state != Active || TooLarge(x.entry, size) then (x, Refused)
      else (Extent(x.state, Bump(x.gen), Appended(x.entry, size)), SlotAt(x.entry.used))
    case MarkDead(length) => (Extent(x.state, Bump(x.gen), Buried(x.entry, length)), Done)
    case Begin =>
      if x.state != Active then (x, Refused)
      else (x.(state := Migrating), Handle(x.gen, x.entry.location))
    case Commit(gen, loc) =>
      if x.gen != gen then (x, Refused)
      else (Extent(Active, Bump(gen), x.entry.(location := loc)), Moved(x.entry.location))
    case Abort =>
      if x.state != Migrating then (x, Refused) else (x.(state := Active), Done)
  }

  type History = seq<(Op, Result)>

  /** Executing the operations of `h` one after the other leads from `x` to `y`, with the recorded results. */
  ghost predicate Linear(x: Extent, h: History, y: Extent)
    decreases |h|
  {
    if h == [] then x == y
    else Apply(h[0].0, x).1 == h[0].1 && Linear(Apply(h[0].0, x).0, h[1..], y)
  }

  lemma {:induction false} LinearMore(x: Extent, h: History, y: Extent, op: Op)
    requires Linear(x, h, y)
    ensures Linear(x, h + [(op, Apply(op, y).1)], Apply(op, y).0)
    decreases |h|
  {
    var last := [(op, Apply(op, y).1)];
    if h == [] {
      assert h + last == last && last[1..] == [];
    } else {
      assert (h + last)[0] == h[0] && (h + last)[1..] == h[1..] + last;
      LinearMore(Apply(h[0].0, x).0, h[1..], y, op);
    }
  }

  lemma {:induction false} LinearSplit(x: Extent, a: History, b: History, z: Extent) returns (y: Extent)
    requires Linear(x, a + b, z)
    ensures Linear(x, a, y) && Linear(y, b, z)
    decreases |a|
  {
    if a == [] {
      assert a + b == b;
      return x;
    }
    assert (a + b)[0] == a[0] && (a + b)[1..] == a[1..] + b;
    y := LinearSplit(Apply(a[0].0, x).0, a[1..], b, z);
  }

  // The concurrent machine.

  datatype CasOp = RecordIo(write: bool) | SetRandomness(randomness: nat)

  function Swapped(op: CasOp, m: Metrics): (r: Metrics)
    ensures r.InRange()
    ensures m.InRange() ==> r.state == m.state && r.gen == m.gen
  {
    match op
    case RecordIo(write) => Recorded(m, write)
    case SetRandomness(r) => Randomised(m, r)
  }

  /**
   Where a thread stands.  `Holding` has the lock, `Checked` has loaded the word
   for its state check, `Updated` has changed the entry (which was `before`) but not
   yet loaded the word, `Loaded` is about to store.
   */
  datatype Pc =
    | Idle
    | Looping(cas: CasOp, seen: Metrics)
    | Holding(op: Op)
    | Checked(op: Op, raw: Metrics)
    | Updated(op: Op, before: Entry)
    | Loaded(op: Op, raw: Metrics, before: Entry)

  datatype Conf = Conf(word: Metrics, entry: Entry, threads: map<nat, Pc>, holder: Option<nat>, history: History) {
    function PcOf(t: nat): Pc {
      if t in threads then threads[t] else Idle
    }

    function At(t: nat, pc: Pc): Conf {
      this.(threads := threads[t := pc])
    }

    /** Release the lock and record the result. */
    function Finish(t: nat, op: Op, r: Result): Conf {
      this.(threads := threads[t := Idle], holder := None, history := history + [(op, r)])
    }
  }

  datatype Step =
    | StartCas(t: nat, cas: CasOp)
    | TryCas(t: nat, spurious: bool)
    | Acquire(t: nat, op: Op)
    | Proceed(t: nat)

  predicate Enabled(c: Conf, s: Step) {
    match s
    case StartCas(t, _) => c.PcOf(t).Idle?
    case TryCas(t, _) => c.PcOf(t).Looping?
    case Acquire(t, _) => c.PcOf(t).Idle? && c.holder.None?
    case Proceed(t) => !c.PcOf(t).Idle? && !c.PcOf(t).Looping?
  }

  function Do(c: Conf, s: Step): Conf
    requires Enabled(c, s)
  {
    match s
    case StartCas(t, cas) => c.At(t, Looping(cas, c.word))
    case TryCas(t, spurious) =>
      var pc := c.PcOf(t);
      if c.word == pc.seen && !spurious then c.(word := Swapped(pc.cas, pc.seen)).At(t, Idle)
      else c.At(t, Looping(pc.cas, c.word))
    case Acquire(t, op) => c.(holder := Some(t)).At(t, Holding(op))
    case Proceed(t) => Advance(c, t, c.PcOf(t))
  }

  /** The next step of the thread that holds the lock. */
  function Advance(c: Conf, t: nat, pc: Pc): Conf
    requires !pc.Idle? && !pc.Looping?
  {
    match pc
    case Holding(op) =>
      (match op
       case Append(_) => c.At(t, Checked(op, c.word))
       case MarkDead(length) => c.(entry := Buried(c.entry, length)).At(t, Updated(op, c.entry))
       case _ => c.At(t, Loaded(op, c.word, c.entry)))
    case Checked(op, raw) =>
      if raw.state != Active || !op.Append? || TooLarge(c.entry, op.size) then c.Finish(t, op, Refused)
      else c.(entry := Appended(c.entry, op.size)).At(t, Updated(op, c.entry))
    case Updated(op, before) => c.At(t, Loaded(op, c.word, before))
    case Loaded(op, raw, before) => Store(c, t, op, raw, before)
  }

  function Store(c: Conf, t: nat, op: Op, raw: Metrics, before: Entry): Conf {
    match op
    case Append(_) => c.(word := Marked(raw, raw.state, raw.gen + 1)).Finish(t, op, SlotAt(before.used))
    case MarkDead(_) => c.(word := Marked(raw, raw.state, raw.gen + 1)).Finish(t, op, Done)
    case Begin =>
      if raw.state != Active then c.Finish(t, op, Refused)
      else c.(word := Marked(raw, Migrating, raw.gen)).Finish(t, op, Handle(raw.gen, c.entry.location))
    case Commit(gen, loc) =>
      if raw.gen != gen then c.Finish(t, op, Refused)
      else c.(word := Marked(raw, Active, gen + 1), entry := c.entry.(location := loc)).Finish(t, op, Moved(c.entry.location))
    case Abort =>
      if raw.state != Migrating then c.Finish(t, op, Refused)
      else c.(word := Marked(raw, Active, raw.gen)).Finish(t, op, Done)
  }

  // What every step keeps.

  predicate Inside(pc: Pc) {
    !pc.Idle? && !pc.Looping?
  }

  /** The entry without the update that its holder has not published yet. */
  function Published(c: Conf): Entry {
    if c.holder.Some? && (c.PcOf(c.holder.value).Updated? || c.PcOf(c.holder.value).Loaded?)
    then c.PcOf(c.holder.value).before else c.entry
  }

  /** The extent as the finished operations left it. */
  function Settled(c: Conf): Extent {
    Extent(c.word.state, c.word.gen, Published(c))
  }

  /** What the lock's holder knows. */
  ghost predicate HolderKnows(c: Conf, pc: Pc) {
    match pc
    case Holding(op) => true
    case Checked(op, raw) => op.Append? && SameMark(raw, c.word)
    case Updated(op, before) => Pending(c, op, before)
    case Loaded(op, raw, before) =>
      SameMark(raw, c.word) && if op.Append? || op.MarkDead? then Pending(c, op, before) else before == c.entry
    case _ => false
  }

  /** Word `raw` was loaded under the lock: swaps since then kept its state and generation. */
  predicate SameMark(raw: Metrics, word: Metrics) {
    raw.InRange() && raw.state == word.state && raw.gen == word.gen
  }

  /** The entry already holds the update of an append or a dead mark that will take effect. */
  ghost predicate Pending(c: Conf, op: Op, before: Entry) {
    match op
    case Append(size) => c.word.state == Active && !TooLarge(before, size) && c.entry == Appended(before, size)
    case MarkDead(length) => c.entry == Buried(before, length)
    case _ => false
  }

  ghost predicate Inv(c: Conf, x: Extent) {
    && c.word.InRange()
    && (forall t: nat :: Inside(c.PcOf(t)) <==> c.holder == Some(t))
    && (c.holder.Some? ==> HolderKnows(c, c.PcOf(c.holder.value)))
    && Linear(x, c.history, Settled(c))
  }

  function Init(word: Metrics, entry: Entry): Conf {
    Conf(word, entry, map[], None, [])
  }

  lemma InitInv(word: Metrics, entry: Entry)
    requires word.InRange()
    ensures Inv(Init(word, entry), Extent(word.state, word.gen, entry))
  {
  }

  lemma StartCasKeeps(c: Conf, x: Extent, t: nat, cas: CasOp)
    requires Inv(c, x) && Enabled(c, StartCas(t, cas))
    ensures Inv(Do(c, StartCas(t, cas)), x)
  {
    var c' := Do(c, StartCas(t, cas));
    assert c.holder != Some(t);
    assert Settled(c') == Settled(c);
  }

  lemma TryCasKeeps(c: Conf, x: Extent, t: nat, spurious: bool)
    requires Inv(c, x) && Enabled(c, TryCas(t, spurious))
    ensures Inv(Do(c, TryCas(t, spurious)), x)
    ensures Settled(Do(c, TryCas(t, spurious))) == Settled(c)
  {
    var c' := Do(c, TryCas(t, spurious));
    assert c.holder != Some(t);
    assert c'.word.state == c.word.state && c'.word.gen == c.word.gen;
    assert Settled(c') == Settled(c);
  }

  lemma AcquireKeeps(c: Conf, x: Extent, t: nat, op: Op)
    requires Inv(c, x) && Enabled(c, Acquire(t, op))
    ensures Inv(Do(c, Acquire(t, op)), x)
  {
    assert Settled(Do(c, Acquire(t, op))) == Settled(c);
  }

  /** Until its last step an operation changes nothing that others rely on. */
  lemma InnerKeeps(c: Conf, x: Extent, t: nat)
    requires Inv(c, x) && Enabled(c, Proceed(t)) && Do(c, Proceed(t)).holder == Some(t)
    ensures Inv(Do(c, Proceed(t)), x) && Settled(Do(c, Proceed(t))) == Settled(c)
  {
    assert Inside(c.PcOf(t)) && c.holder == Some(t);
    var c' := Do(c, Proceed(t));
    assert c'.word == c.word && c'.history == c.history;
    assert Settled(c') == Settled(c);
  }

  /** The last step of an operation has the effect and the result of the whole operation. */
  lemma LastStep(c: Conf, t: nat)
    requires c.word.InRange() && c.holder == Some(t) && HolderKnows(c, c.PcOf(t))
    requires Enabled(c, Proceed(t)) && Do(c, Proceed(t)).holder.None?
    ensures var c' := Do(c, Proceed(t)); var op := c.PcOf(t).op;
            && c'.history == c.history + [(op, Apply(op, Settled(c)).1)]
            && Extent(c'.word.state, c'.word.gen, c'.entry) == Apply(op, Settled(c)).0
            && c'.word.InRange()
  {
    var pc := c.PcOf(t);
    if pc.Loaded? {
      StoreIsApply(c, t, pc.op, pc.raw, pc.before);
    }
  }

  lemma StoreIsApply(c: Conf, t: nat, op: Op, raw: Metrics, before: Entry)
    requires c.word.InRange() && HolderKnows(c, Loaded(op, raw, before))
    ensures var c' := Store(c, t, op, raw, before); var x := Extent(c.word.state, c.word.gen, before);
            && c'.history == c.history + [(op, Apply(op, x).1)]
            && Extent(c'.word.state, c'.word.gen, c'.entry) == Apply(op, x).0
            && c'.word.InRange()
  {
    match op
    case Append(size) =>
    case MarkDead(length) =>
    case Begin =>
    case Commit(gen, loc) =>
    case Abort =>
  }

  lemma LastKeeps(c: Conf, x: Extent, t: nat)
    requires Inv(c, x) && Enabled(c, Proceed(t)) && Do(c, Proceed(t)).holder.None?
    ensures Inv(Do(c, Proceed(t)), x)
    ensures Settled(Do(c, Proceed(t))) == Apply(c.PcOf(t).op, Settled(c)).0
  {
    assert Inside(c.PcOf(t)) && c.holder == Some(t);
    var c' := Do(c, Proceed(t));
    LastStep(c, t);
    LinearMore(x, c.history, Settled(c), c.PcOf(t).op);
    forall u: nat ensures Inside(c'.PcOf(u)) <==> c'.holder == Some(u) {
      assert u != t ==> (Inside(c.PcOf(u)) <==> c.holder == Some(u));
    }
  }

  lemma StepKeeps(c: Conf, x: Extent, s: Step)
    requires Inv(c, x) && Enabled(c, s)
    ensures Inv(Do(c, s), x)
  {
    match s
    case StartCas(t, cas) => StartCasKeeps(c, x, t, cas);
    case TryCas(t, spurious) => TryCasKeeps(c, x, t, spurious);
    case Acquire(t, op) => AcquireKeeps(c, x, t, op);
    case Proceed(t) =>
      assert Inside(c.PcOf(t)) && c.holder == Some(t);
      if Do(c, s).holder.None? {
        LastKeeps(c, x, t);
      } else {
        InnerKeeps(c, x, t);
      }
  }

  /** State and generation change only when a locked operation finishes, and then as that operation says. */
  lemma OnlyLockedOperations(c: Conf, x: Extent, s: Step)
    requires Inv(c, x) && Enabled(c, s)
    ensures Do(c, s).history == c.history ==> Do(c, s).word.state == c.word.state && Do(c, s).word.gen == c.word.gen
    ensures Do(c, s).history != c.history ==>
              s.Proceed? && Do(c, s).word.state == Apply(c.PcOf(s.t).op, Settled(c)).0.state
              && Do(c, s).word.gen == Apply(c.PcOf(s.t).op, Settled(c)).0.gen
  {
    match s
    case StartCas(_, _) =>
    case TryCas(t, spurious) => TryCasKeeps(c, x, t, spurious);
    case Acquire(_, _) =>
    case Proceed(t) =>
      assert Inside(c.PcOf(t)) && c.holder == Some(t);
      if Do(c, s).holder.None? {
        LastKeeps(c, x, t);
        LastStep(c, t);
      } else {
        InnerKeeps(c, x, t);
      }
  }

  // Runs.

  ghost predicate Run(c: Conf, ss: seq<Step>, d: Conf)
    decreases |ss|
  {
    if ss == [] then c == d else Enabled(c, ss[0]) && Run(Do(c, ss[0]), ss[1..], d)
  }

  lemma {:induction false} RunKeeps(c: Conf, x: Extent, ss: seq<Step>, d: Conf)
    requires Inv(c, x) && Run(c, ss, d)
    ensures Inv(d, x)
    decreases |ss|
  {
    if ss != [] {
      StepKeeps(c, x, ss[0]);
      RunKeeps(Do(c, ss[0]), x, ss[1..], d);
    }
  }

  /**
   Every interleaving is equivalent to executing the finished locked operations one
   after the other: none of their effects on state, generation and entry is lost.
   */
  lemma EveryRunIsLinear(word: Metrics, entry: Entry, ss: seq<Step>, c: Conf)
    requires word.InRange() && Run(Init(word, entry), ss, c)
    ensures Linear(Extent(word.state, word.gen, entry), c.history, Settled(c))
    ensures c.holder.None? ==> Settled(c) == Extent(c.word.state, c.word.gen, c.entry)
  {
    InitInv(word, entry);
    RunKeeps(Init(word, entry), Extent(word.state, word.gen, entry), ss, c);
  }

  // Generations.

  /** The operation took effect and raised the generation. */
  predicate Bumped(e: (Op, Result)) {
    (e.0.Append? || e.0.MarkDead? || e.0.Commit?) && !e.1.Refused?
  }

  function Bumps(h: History): nat {
    if h == [] then 0 else (if Bumped(h[0]) then 1 else 0) + Bumps(h[1..])
  }

  lemma {:induction false} BumpsConcat(a: History, b: History)
    ensures Bumps(a + b) == Bumps(a) + Bumps(b)
  {
    if a == [] {
      assert a + b == b;
    } else {
      assert (a + b)[0] == a[0] && (a + b)[1..] == a[1..] + b;
      BumpsConcat(a[1..], b);
    }
  }

  lemma {:induction false} NoBumps(h: History)
    ensures Bumps(h) == 0 <==> forall i :: 0 <= i < |h| ==> !Bumped(h[i])
  {
    if h != [] {
      NoBumps(h[1..]);
      assert forall i :: 0 < i < |h| ==> h[i] == h[1..][i - 1];
    }
  }

  /** The generation counts the operations that took effect, modulo 2^32. */
  lemma {:induction false} GenerationCounts(x: Extent, h: History, y: Extent)
    requires Linear(x, h, y) && x.gen < TwoTo32
    ensures y.gen == (x.gen + Bumps(h)) % TwoTo32
    decreases |h|
  {
    if h != [] {
      GenerationCounts(Apply(h[0].0, x).0, h[1..], y);
    }
  }

  /** Without a bump the location stays. */
  lemma {:induction false} LocationStays(x: Extent, h: History, y: Extent)
    requires Linear(x, h, y) && Bumps(h) == 0
    ensures y.entry.location == x.entry.location
    decreases |h|
  {
    if h != [] {
      LocationStays(Apply(h[0].0, x).0, h[1..], y);
    }
  }

  lemma WrapsTo(g: nat, n: nat)
    requires g < TwoTo32
    ensures (g + n) % TwoTo32 == g <==> n % TwoTo32 == 0
  {
  }

  /** The extent right after the first operation of a history. */
  lemma LinearFirst(x: Extent, e: (Op, Result), h: History, z: Extent)
    requires Linear(x, [e] + h, z)
    ensures Apply(e.0, x).1 == e.1 && Linear(Apply(e.0, x).0, h, z)
  {
    assert ([e] + h)[0] == e && ([e] + h)[1..] == h;
  }

  lemma {:induction false} GenBelow(x: Extent, h: History, y: Extent)
    requires Linear(x, h, y) && x.gen < TwoTo32
    ensures y.gen < TwoTo32
    decreases |h|
  {
    if h != [] {
      GenBelow(Apply(h[0].0, x).0, h[1..], y);
    }
  }

  /**
   A migration commits if and only if the operations that took effect since it
   began number a multiple of 2^32.
   */
  lemma CommitIff(x: Extent, pre: History, g: nat, source: Location, mid: History, loc: Location, r: Result, z: Extent)
    requires Linear(x, pre + ([(Begin, Handle(g, source))] + (mid + [(Commit(g, loc), r)])), z) && x.gen < TwoTo32
    ensures r != Refused <==> Bumps(mid) % TwoTo32 == 0
    ensures Bumps(mid) == 0 ==> r == Moved(source)
  {
    var b, c := (Begin, Handle(g, source)), (Commit(g, loc), r);
    var y0 := LinearSplit(x, pre, [b] + (mid + [c]), z);
    GenBelow(x, pre, y0);
    LinearFirst(y0, b, mid + [c], z);
    var y1 := Apply(Begin, y0).0;
    var y2 := LinearSplit(y1, mid, [c], z);
    GenerationCounts(y1, mid, y2);
    assert [c] == [c] + [];
    LinearFirst(y2, c, [], z);
    WrapsTo(g, Bumps(mid));
    if Bumps(mid) == 0 {
      LocationStays(y1, mid, y2);
    }
  }

  /** With fewer than 2^32 bumps in between, a commit means that nothing took effect since the migration began. */
  lemma CommitMeansUntouched(x: Extent, pre: History, g: nat, source: Location, mid: History, loc: Location, r: Result, z: Extent)
    requires Linear(x, pre + ([(Begin, Handle(g, source))] + (mid + [(Commit(g, loc), r)])), z) && x.gen < TwoTo32
    requires r != Refused && Bumps(mid) < TwoTo32
    ensures r == Moved(source) && forall i :: 0 <= i < |mid| ==> !Bumped(mid[i])
  {
    CommitIff(x, pre, g, source, mid, loc, r, z);
    NoBumps(mid);
  }

  /** Two commits with the same starting generation have a multiple of 2^32 bumps from one to the other. */
  lemma SameGenerationCommits(x: Extent, pre: History, g: nat, l1: Location, f1: Location, mid: History, l2: Location, f2: Location, z: Extent)
    requires Linear(x, pre + ([(Commit(g, l1), Moved(f1))] + (mid + [(Commit(g, l2), Moved(f2))])), z) && x.gen < TwoTo32
    ensures (1 + Bumps(mid)) % TwoTo32 == 0
  {
    var a, b := (Commit(g, l1), Moved(f1)), (Commit(g, l2), Moved(f2));
    var y0 := LinearSplit(x, pre, [a] + (mid + [b]), z);
    GenBelow(x, pre, y0);
    LinearFirst(y0, a, mid + [b], z);
    var y1 := Apply(a.0, y0).0;
    var y2 := LinearSplit(y1, mid, [b], z);
    GenerationCounts(y1, mid, y2);
    assert [b] == [b] + [];
    LinearFirst(y2, b, [], z);
    assert y2.gen == g && y1.gen == Bump(g);
    BumpWraps(g, Bumps(mid));
  }

  lemma BumpWraps(g: nat, n: nat)
    requires g < TwoTo32 && (Bump(g) + n) % TwoTo32 == g
    ensures (1 + n) % TwoTo32 == 0
  {
    assert (g + (1 + n)) % TwoTo32 == g;
    WrapsTo(g, 1 + n);
  }

  /** At most one handle per starting generation commits, with fewer than 2^32 bumps overall. */
  lemma AtMostOneCommit(x: Extent, h: History, z: Extent, i: nat, j: nat, g: nat)
    requires Linear(x, h, z) && x.gen < TwoTo32 && Bumps(h) < TwoTo32 && i < |h| && j < |h|
    requires h[i].0.Commit? && h[i].0.genBefore == g && h[i].1.Moved?
    requires h[j].0.Commit? && h[j].0.genBefore == g && h[j].1.Moved?
    ensures i == j
  {
    if i < j {
      CommitsFarApart(x, h, z, i, j, g);
    } else if j < i {
      CommitsFarApart(x, h, z, j, i, g);
    }
  }

  lemma CommitsFarApart(x: Extent, h: History, z: Extent, i: nat, j: nat, g: nat)
    requires Linear(x, h, z) && x.gen < TwoTo32 && i < j < |h|
    requires h[i].0.Commit? && h[i].0.genBefore == g && h[i].1.Moved?
    requires h[j].0.Commit? && h[j].0.genBefore == g && h[j].1.Moved?
    ensures TwoTo32 <= Bumps(h)
  {
    var pre, mid, post := h[..i], h[i + 1..j], h[j + 1..];
    var head := pre + ([h[i]] + (mid + [h[j]]));
    assert h == head + post;
    var y := LinearSplit(x, head, post, z);
    SameGenerationCommits(x, pre, g, h[i].0.newLocation, h[i].1.from, mid, h[j].0.newLocation, h[j].1.from, y);
    BumpsConcat(head, post);
    BumpsConcat(pre, [h[i]] + (mid + [h[j]]));
    BumpsConcat([h[i]], mid + [h[j]]);
    BumpsConcat(mid, [h[j]]);
  }

  // Slots.

  /** The append was accepted. */
  predicate Placed(e: (Op, Result)) {
    e.0.Append? && e.1.SlotAt?
  }

  /** No accepted append ran past 32 bits. */
  ghost predicate NoOverflow(h: History) {
    forall i :: 0 <= i < |h| && Placed(h[i]) ==> h[i].1.offset + h[i].0.size < TwoTo32
  }

  /** The header and the bytes up to `used` fit into the extent's place on disk. */
  predicate FitsPlace(e: Entry, used: nat) {
    4096 + used <= e.location.length
  }

  /** An accepted append lies inside the extent exactly when its 32-bit sum does not overflow. */
  lemma AppendInside(x: Extent, size: nat)
    requires x.state == Active && x.entry.location.length < TwoTo32 && FitsPlace(x.entry, x.entry.used) && size < TwoTo32
    ensures Apply(Append(size), x).1 != Refused ==>
              (FitsPlace(x.entry, x.entry.used + size) <==> x.entry.used + size < TwoTo32)
    ensures x.entry.used + size < TwoTo32 ==>
              (Apply(Append(size), x).1 != Refused <==> FitsPlace(x.entry, x.entry.used + size))
  {
  }

  /** An append of almost 4 GiB to a partly filled extent is accepted, and moves the write position back. */
  lemma AppendOverflows()
    ensures var x := Extent(Active, 0, Entry(4096, 4096, Location(0, 0x40_0000, 0)));
            && Apply(Append(0xFFFF_FFFF), x).1 == SlotAt(4096)
            && Apply(Append(0xFFFF_FFFF), x).0.entry.used == 4095
  {
  }

  /** Without overflow the slots of a history follow one another: no two overlap. */
  lemma {:induction false} SlotsFollow(x: Extent, h: History, y: Extent)
    requires Linear(x, h, y) && NoOverflow(h) && x.entry.used < TwoTo32
    ensures x.entry.used <= y.entry.used < TwoTo32
    ensures forall i :: 0 <= i < |h| && Placed(h[i]) ==>
              x.entry.used <= h[i].1.offset && h[i].1.offset + h[i].0.size <= y.entry.used
    ensures forall i, j :: 0 <= i < j < |h| && Placed(h[i]) && Placed(h[j]) ==>
              h[i].1.offset + h[i].0.size <= h[j].1.offset
    decreases |h|
  {
    if h != [] {
      var x1 := Apply(h[0].0, x).0;
      assert forall i :: 0 < i < |h| ==> h[i] == h[1..][i - 1];
      assert Placed(h[0]) ==> h[0].1.offset == x.entry.used && x1.entry.used == h[0].1.offset + h[0].0.size;
      SlotsFollow(x1, h[1..], y);
      forall i, j | 0 <= i < j < |h| && Placed(h[i]) && Placed(h[j])
        ensures h[i].1.offset + h[i].0.size <= h[j].1.offset
      {
        assert h[j] == h[1..][j - 1];
        assert i != 0 ==> h[i] == h[1..][i - 1];
      }
    }
  }

  // Accounting.

  /** The bytes of the appends that were accepted. */
  function PlacedBytes(h: History): nat {
    if h == [] then 0 else (if Placed(h[0]) then h[0].0.size else 0) + PlacedBytes(h[1..])
  }

  /** The bytes that were marked dead. */
  function DeadBytes(h: History): nat {
    if h == [] then 0 else (if h[0].0.MarkDead? then h[0].0.length else 0) + DeadBytes(h[1..])
  }

  /** From `live` bytes on, no dead mark is longer than what the earlier appends and dead marks left. */
  predicate Covered(h: History, live: nat) {
    if h == [] then true
    else if Placed(h[0]) then Covered(h[1..], live + h[0].0.size)
    else if h[0].0.MarkDead? then h[0].0.length <= live && Covered(h[1..], live - h[0].0.length)
    else Covered(h[1..], live)
  }

  /** The used bytes are the bytes of the accepted appends, modulo 2^32. */
  lemma {:induction false} UsedCounts(x: Extent, h: History, y: Extent)
    requires Linear(x, h, y) && x.entry.used < TwoTo32
    ensures y.entry.used == (x.entry.used + PlacedBytes(h)) % TwoTo32
    decreases |h|
  {
    if h != [] {
      UsedStep(x, h[0].0, PlacedBytes(h[1..]));
      UsedCounts(Apply(h[0].0, x).0, h[1..], y);
    }
  }

  lemma UsedStep(x: Extent, op: Op, n: nat)
    requires x.entry.used < TwoTo32
    ensures var (z, r) := Apply(op, x);
            && z.entry.used < TwoTo32
            && (z.entry.used + n) % TwoTo32 == (x.entry.used + ((if Placed((op, r)) then op.size else 0) + n)) % TwoTo32
  {
  }

  lemma LiveStep(x: Extent, e: (Op, Result))
    requires Apply(e.0, x).1 == e.1 && x.entry.live <= x.entry.used < TwoTo32
    requires Placed(e) ==> e.1.offset + e.0.size < TwoTo32
    ensures var z := Apply(e.0, x).0.entry; var more := if Placed(e) then e.0.size else 0;
            && z.used == x.entry.used + more < TwoTo32
            && z.live == if e.0.MarkDead? && x.entry.live < e.0.length then 0
                         else x.entry.live + more - if e.0.MarkDead? then e.0.length else 0
  {
  }

  lemma NoOverflowRest(h: History)
    requires NoOverflow(h) && h != []
    ensures NoOverflow(h[1..])
  {
    assert forall i :: 0 <= i < |h| - 1 ==> h[1..][i] == h[i + 1];
  }

  /**
   Without overflow, what was live and what was placed is what is live and what was
   marked dead, up to marks longer than the bytes then live: the account balances if
   and only if there was none.
   */
  lemma {:induction false} LiveCounts(x: Extent, h: History, y: Extent)
    requires Linear(x, h, y) && NoOverflow(h) && x.entry.live <= x.entry.used < TwoTo32
    ensures y.entry.used == x.entry.used + PlacedBytes(h) && y.entry.live <= y.entry.used
    ensures x.entry.live + PlacedBytes(h) <= y.entry.live + DeadBytes(h)
    ensures x.entry.live + PlacedBytes(h) == y.entry.live + DeadBytes(h) <==> Covered(h, x.entry.live)
    decreases |h|
  {
    if h != [] {
      NoOverflowRest(h);
      LiveStep(x, h[0]);
      LiveCounts(Apply(h[0].0, x).0, h[1..], y);
    }
  }

  /** A dead mark longer than the live bytes is cut off: the account is then out for good. */
  lemma DeadTooLong(x: Extent) returns (h: History, y: Extent)
    requires x == Extent(Active, 0, Entry(0, 0, Location(0, 0x40_0000, 0)))
    ensures Linear(x, h, y) && h == [(MarkDead(512), Done), (Append(512), SlotAt(0))]
    ensures y.entry.live == 512 && x.entry.live + PlacedBytes(h) < y.entry.live + DeadBytes(h)
  {
    var a, b := (MarkDead(512), Done), (Append(512), SlotAt(0));
    h := [a, b];
    assert PlacedBytes(h) == PlacedBytes(h[1..]) && DeadBytes(h) == 512 + DeadBytes(h[1..]);
    assert PlacedBytes([b]) == 512 + PlacedBytes([b][1..]);
    assert h[1..] == [b] && h[2..] == [] && h[1..][1..] == h[2..];
    y := Apply(b.0, Apply(a.0, x).0).0;
  }
}
