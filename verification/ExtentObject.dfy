/**
 One extent's entry as the map's methods change it (`btier/extent_map.cc`), with
 the history of its locked operations: what the methods promise is said in terms
 of that history.
 */
module ExtentObject {
  import opened ExtentMetrics
  import opened ExtentProtocol

  /** Operation `k` of the history began a migration whose handle has generation `g`. */
  predicate Began(h: History, k: nat, g: nat) {
    k < |h| && h[k].0.Begin? && h[k].1.Handle? && h[k].1.genBefore == g
  }

  /** The operations that took effect after operation `k`. */
  function BumpsSince(h: History, k: nat): nat
    requires k < |h|
  {
    Bumps(h[k + 1..])
  }

  /** The handle of operation `k` is good if and only if the effects since number a multiple of 2^32. */
  lemma HandleIsGood(x: Extent, h: History, y: Extent, k: nat, g: nat)
    requires Linear(x, h, y) && x.gen < TwoTo32 && Began(h, k, g)
    ensures y.gen == g <==> BumpsSince(h, k) % TwoTo32 == 0
    ensures BumpsSince(h, k) == 0 ==> y.entry.location == h[k].1.source
  {
    assert h == h[..k] + ([h[k]] + h[k + 1..]);
    var y0 := LinearSplit(x, h[..k], [h[k]] + h[k + 1..], y);
    GenBelow(x, h[..k], y0);
    LinearFirst(y0, h[k], h[k + 1..], y);
    AfterBegin(y0, h[k], h[k + 1..], y);
  }

  lemma AfterBegin(x: Extent, b: (Op, Result), mid: History, y: Extent)
    requires b.0.Begin? && b.1.Handle? && x.gen < TwoTo32 && Apply(Begin, x).1 == b.1 && Linear(Apply(Begin, x).0, mid, y)
    ensures y.gen == b.1.genBefore <==> Bumps(mid) % TwoTo32 == 0
    ensures Bumps(mid) == 0 ==> y.entry.location == b.1.source
  {
    GenerationCounts(Apply(Begin, x).0, mid, y);
    WrapsTo(x.gen, Bumps(mid));
    if Bumps(mid) == 0 {
      LocationStays(Apply(Begin, x).0, mid, y);
    }
  }

  lemma BumpsMore(h: History, e: (Op, Result), k: nat)
    requires k < |h|
    ensures BumpsSince(h + [e], k) == BumpsSince(h, k) + if Bumped(e) then 1 else 0
    ensures h + [e] != [] && (h + [e])[k] == h[k]
  {
    assert (h + [e])[k + 1..] == h[k + 1..] + [e];
    BumpsConcat(h[k + 1..], [e]);
    assert [e][1..] == [];
  }

  /** A new slot begins after every slot placed before it. */
  lemma SlotIsNew(x: Extent, h: History, y: Extent, e: (Op, Result))
    requires Linear(x, h + [e], y) && x.entry.used < TwoTo32 && NoOverflow(h + [e]) && Placed(e)
    ensures forall i :: 0 <= i < |h| && Placed(h[i]) ==> h[i].1.offset + h[i].0.size <= e.1.offset
  {
    SlotsFollow(x, h + [e], y);
    forall i | 0 <= i < |h| && Placed(h[i]) ensures h[i].1.offset + h[i].0.size <= e.1.offset {
      assert (h + [e])[i] == h[i] && (h + [e])[|h|] == e;
    }
  }

  class ExtentEntry {
    var raw: Metrics
    var entry: Entry
    ghost const start: Extent
    ghost var history: History

    /** The extent as the single-step operations see it. */
    ghost function View(): Extent
      reads this
    {
      Extent(raw.state, raw.gen, entry)
    }

    /** The history leads from the extent's creation to what it is now. */
    ghost predicate Valid()
      reads this
    {
      raw.InRange() && start.gen < TwoTo32 && start.entry.used < TwoTo32 && Linear(start, history, View())
    }

    constructor (location: Location)
      ensures Valid() && raw == Metrics(0, 0, 0, Active, 0) && entry == Entry(0, 0, location) && history == []
    {
      raw, entry, history := Metrics(0, 0, 0, Active, 0), Entry(0, 0, location), [];
      start := Extent(Active, 0, Entry(0, 0, location));
    }

    /** `bump_generation`. */
    method BumpGeneration()
      requires raw.InRange()
      modifies `raw
      ensures raw == old(raw).(gen := Bump(old(raw.gen)))
    {
      var m := raw;
      raw := Masked(m.access, m.write, m.random, m.state, m.gen + 1);
    }

    /** The last operation was `op`, with result `r`: extend the history by it. */
    ghost method Record(op: Op, r: Result, before: Extent)
      requires raw.InRange() && start.gen < TwoTo32 && start.entry.used < TwoTo32
      requires Linear(start, history, before) && (View(), r) == Apply(op, before)
      modifies `history
      ensures Valid() && history == old(history) + [(op, r)]
    {
      LinearMore(start, history, before, op);
      history := history + [(op, r)];
    }

    /**
     `append_slot`: the slot lies after every slot placed before it, unless some
     append ran past 32 bits; a refusal changes nothing.
     */
    method AppendSlot(size: nat) returns (r: Result)
      requires Valid()
      modifies `raw, `entry, `history
      ensures Valid() && history == old(history) + [(Append(size), r)]
      ensures r == Refused <==> old(raw.state) != Active || TooLarge(old(entry), size)
      ensures r == Refused ==> View() == old(View())
      ensures r != Refused ==>
                && r == SlotAt(old(entry.used)) && raw.gen != old(raw.gen) && entry.location == old(entry.location)
                && entry.used == (old(entry.used) + size) % TwoTo32 && entry.live == (old(entry.live) + size) % TwoTo32
      ensures NoOverflow(history) && start.entry.live <= start.entry.used ==>
                entry.used == start.entry.used + PlacedBytes(history)
                && (start.entry.live + PlacedBytes(history) == entry.live + DeadBytes(history)
                    <==> Covered(history, start.entry.live))
      ensures r != Refused && NoOverflow(history) ==>
                forall i :: 0 <= i < |old(history)| && Placed(old(history)[i]) ==>
                  old(history)[i].1.offset + old(history)[i].0.size <= r.offset
    {
      r := Refused;
      if raw.state == Active {
        var capacity := (entry.location.length + TwoTo32 - HeaderSize) % TwoTo32;
        if (entry.used + size) % TwoTo32 <= capacity {
          r := SlotAt(entry.used);
          entry := entry.(used := (entry.used + size) % TwoTo32);
          entry := entry.(live := (entry.live + size) % TwoTo32);
          BumpGeneration();
        }
      }
      Record(Append(size), r, old(View()));
      if NoOverflow(history) && start.entry.live <= start.entry.used {
        LiveCounts(start, history, View());
      }
      if r != Refused && NoOverflow(history) {
        SlotIsNew(start, old(history), View(), (Append(size), r));
      }
    }

    /** `mark_dead_slot`: a handle that was good is good no longer. */
    method MarkDeadSlot(length: nat)
      requires Valid()
      modifies `raw, `entry, `history
      ensures Valid() && history == old(history) + [(MarkDead(length), Done)]
      ensures entry == old(entry).(live := if length <= old(entry.live) then old(entry.live) - length else 0)
      ensures raw.gen != old(raw.gen) && raw.state == old(raw.state)
      ensures forall k, g: nat :: Began(old(history), k, g) && BumpsSince(old(history), k) == 0 ==> raw.gen != g
    {
      forall k, g: nat | Began(history, k, g) && BumpsSince(history, k) == 0 ensures raw.gen == g {
        HandleIsGood(start, history, View(), k, g);
      }
      if entry.live >= length {
        entry := entry.(live := entry.live - length);
      } else {
        entry := entry.(live := 0);
      }
      BumpGeneration();
      Record(MarkDead(length), Done, old(View()));
    }

    /** `begin_migration`: the handle stands for the number of effects so far, and for where the extent lies. */
    method BeginMigration() returns (r: Result)
      requires Valid()
      modifies `raw, `history
      ensures Valid() && history == old(history) + [(Begin, r)]
      ensures r == Refused <==> old(raw.state) != Active
      ensures r != Refused ==> raw.state == Migrating && r == Handle((start.gen + Bumps(history)) % TwoTo32, entry.location)
      ensures r == Refused ==> raw == old(raw)
    {
      GenerationCounts(start, history, View());
      r := Refused;
      if raw.state == Active {
        r := Handle(raw.gen, entry.location);
        raw := Masked(raw.access, raw.write, raw.random, Migrating, raw.gen);
      }
      BumpsConcat(history, [(Begin, r)]);
      assert [(Begin, r)][1..] == [];
      Record(Begin, r, old(View()));
    }

    /**
     `commit_migration`: for every migration of the history that this handle may
     stem from, the commit succeeds if and only if the effects since it began number
     a multiple of 2^32; if there were none, the place left is its source.
     */
    method CommitMigration(genBefore: nat, newLocation: Location) returns (r: Result)
      requires Valid()
      modifies `raw, `entry, `history
      ensures Valid() && history == old(history) + [(Commit(genBefore, newLocation), r)]
      ensures forall k: nat :: Began(old(history), k, genBefore) ==>
                (r != Refused <==> BumpsSince(old(history), k) % TwoTo32 == 0)
      ensures forall k: nat :: Began(old(history), k, genBefore) && BumpsSince(old(history), k) == 0 ==>
                r == Moved(old(history)[k].1.source)
      ensures r != Refused ==> entry == old(entry).(location := newLocation) && raw.state == Active
      ensures r == Refused ==> View() == old(View())
    {
      forall k: nat | Began(history, k, genBefore)
        ensures raw.gen == genBefore <==> BumpsSince(history, k) % TwoTo32 == 0
        ensures BumpsSince(history, k) == 0 ==> entry.location == history[k].1.source
      {
        HandleIsGood(start, history, View(), k, genBefore);
      }
      r := Refused;
      if raw.gen == genBefore {
        r := Moved(entry.location);
        entry := entry.(location := newLocation);
        raw := Masked(raw.access, raw.write, raw.random, Active, genBefore + 1);
      }
      Record(Commit(genBefore, newLocation), r, old(View()));
    }

    /** `abort_migration`: appends are possible again, and no handle becomes better or worse. */
    method AbortMigration() returns (r: Result)
      requires Valid()
      modifies `raw, `history
      ensures Valid() && history == old(history) + [(Abort, r)]
      ensures r == Refused <==> old(raw.state) != Migrating
      ensures r != Refused ==> raw.state == Active
      ensures raw.gen == old(raw.gen)
      ensures forall k: nat :: k < |old(history)| ==> BumpsSince(history, k) == BumpsSince(old(history), k)
    {
      r := Refused;
      if raw.state == Migrating {
        raw := Masked(raw.access, raw.write, raw.random, Active, raw.gen);
        r := Done;
      }
      Record(Abort, r, old(View()));
      forall k: nat | k < |old(history)| ensures BumpsSince(history, k) == BumpsSince(old(history), k) {
        BumpsMore(old(history), (Abort, r), k);
      }
    }

    /** `check_migration`: true exactly while the effects since the migration began number a multiple of 2^32. */
    method CheckMigration(genBefore: nat) returns (ok: bool)
      requires Valid()
      ensures forall k: nat :: Began(history, k, genBefore) ==> (ok <==> BumpsSince(history, k) % TwoTo32 == 0)
    {
      forall k: nat | Began(history, k, genBefore)
        ensures raw.gen == genBefore <==> BumpsSince(history, k) % TwoTo32 == 0
      {
        HandleIsGood(start, history, View(), k, genBefore);
      }
      ok := raw.gen == genBefore;
    }

    /** `record_io` without contention: the counters move, the extent does not. */
    method RecordIo(write: bool)
      requires Valid()
      modifies `raw
      ensures Valid() && View() == old(View()) && raw == Swapped(CasOp.RecordIo(write), old(raw))
      ensures raw.access == (if old(raw.access) < 4095 then old(raw.access) + 1 else 4095) && raw.random == old(raw.random)
      ensures raw.write == if !write then old(raw.write) else if old(raw.write) < 4095 then old(raw.write) + 1 else 4095
    {
      var m := raw;
      var access := Min(m.access + 1, 4095);
      var w := m.write;
      if write {
        w := Min(w + 1, 4095);
      }
      raw := Masked(access, w, m.random, m.state, m.gen);
    }

    /** `set_randomness` without contention: six bits of the argument replace the field, nothing else moves. */
    method SetRandomness(randomness: nat)
      requires Valid()
      modifies `raw
      ensures Valid() && View() == old(View()) && raw == Swapped(CasOp.SetRandomness(randomness), old(raw))
      ensures raw.random == randomness % 64 && raw.access == old(raw.access) && raw.write == old(raw.write)
    {
      raw := Masked(raw.access, raw.write, randomness % 0x40, raw.state, raw.gen);
    }
  }

  /** A migration during which nothing takes effect commits, and frees the place it began from. */
  method Migrate(e: ExtentEntry, newLocation: Location) returns (r: Result)
    requires e.Valid() && e.raw.state == Active
    modifies e`raw, e`entry, e`history
    ensures e.Valid() && r == Moved(old(e.entry.location)) && e.entry.location == newLocation && e.raw.state == Active
  {
    var h := e.BeginMigration();
    e.RecordIo(true);
    ghost var k: nat := |e.history| - 1;
    assert e.history[k + 1..] == [];
    assert Began(e.history, k, h.genBefore) && BumpsSince(e.history, k) == 0;
    r := e.CommitMigration(h.genBefore, newLocation);
  }

  /** A dead mark in the middle makes the commit fail. */
  method MigrateDisturbed(e: ExtentEntry, length: nat, newLocation: Location) returns (r: Result)
    requires e.Valid() && e.raw.state == Active
    modifies e`raw, e`entry, e`history
    ensures e.Valid() && r == Refused && e.entry.location == old(e.entry.location)
  {
    var h := e.BeginMigration();
    ghost var k: nat := |e.history| - 1;
    ghost var before := e.history;
    assert before[k + 1..] == [];
    e.MarkDeadSlot(length);
    BumpsMore(before, (MarkDead(length), Done), k);
    assert Began(e.history, k, h.genBefore);
    r := e.CommitMigration(h.genBefore, newLocation);
  }
}
