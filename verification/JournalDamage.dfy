/**
 What recovery accepts, over every buffer (`btier/journal.cc`): only groups of
 records between a begin and a commit of the same number whose checksum they
 have.  A transaction damaged in one byte is dropped, and no other.
 */
module JournalDamage {
  import opened Options
  import opened Bytes
  import opened JournalCodec
  import opened JournalScan
  import opened Journal
  import Crc32

  // What the loop accepts.

  /** The records the loop reads from `off` on; none if it reads past the end of the buffer. */
  function Tokens(f: Format, b: seq<byte>, off: nat): Option<seq<Record>>
    requires Progress(f)
    decreases |b| - off
  {
    if |b| < off + 9 then Some([])
    else
      var d := f.get(b, off);
      if d.None? then None
      else if PadAt(d) then
        var boundary := (off / Block + 1) * Block;
        if |b| <= boundary then Some([]) else Tokens(f, b, boundary)
      else
        var rest := Tokens(f, b, d.value.1);
        if rest.None? then None else Some([d.value.0] + rest.value)
  }

  /** A transaction begins at `i` and is still open before record `k`. */
  ghost predicate OpenAt(rs: seq<Record>, i: nat, k: nat) {
    i < k <= |rs| && rs[i].TxnBegin? && forall m :: i < m < k ==> !rs[m].TxnBegin? && !rs[m].TxnCommit?
  }

  function WithoutCheckpoints(rs: seq<Record>): seq<Record> {
    if rs == [] then [] else (if rs[0].Checkpoint? then [] else [rs[0]]) + WithoutCheckpoints(rs[1..])
  }

  /** Records `i` and `k` begin and commit the same transaction, and what stands between them has its checksum. */
  ghost predicate Committed(f: Format, rs: seq<Record>, i: nat, k: nat) {
    && k < |rs| && OpenAt(rs, i, k) && rs[k].TxnCommit? && rs[k].txn == rs[i].txn
    && rs[k].crc == f.sum(PutAll(f, WithoutCheckpoints(rs[i + 1..k])))
  }

  ghost function Group(f: Format, rs: seq<Record>, k: nat): seq<Record> {
    if exists i: nat :: Committed(f, rs, i, k) then
      var i: nat :| Committed(f, rs, i, k);
      WithoutCheckpoints(rs[i + 1..k])
    else []
  }

  /** What each record of the log commits. */
  ghost function Groups(f: Format, rs: seq<Record>): (gs: seq<seq<Record>>)
    ensures |gs| == |rs| && forall k :: 0 <= k < |rs| ==> gs[k] == Group(f, rs, k)
  {
    seq(|rs|, k requires 0 <= k < |rs| => Group(f, rs, k))
  }

  function Flat(gs: seq<seq<Record>>, k: nat): seq<Record>
    requires k <= |gs|
  {
    if k == 0 then [] else Flat(gs, k - 1) + gs[k - 1]
  }

  /** The state holds the transaction begun at `i`, and its records so far. */
  ghost predicate Collects(rs: seq<Record>, i: nat, k: nat, s: State) {
    OpenAt(rs, i, k) && s.id == rs[i].txn && s.current == WithoutCheckpoints(rs[i + 1..k])
  }

  /** The loop's state after `k` records, read off the records. */
  ghost predicate StateIs(rs: seq<Record>, k: nat, s: State) {
    && (s.inTxn ==> exists i: nat :: Collects(rs, i, k, s))
    && (!s.inTxn ==> forall i: nat :: !OpenAt(rs, i, k))
  }

  lemma OpenUnique(rs: seq<Record>, i: nat, j: nat, k: nat)
    requires OpenAt(rs, i, k) && OpenAt(rs, j, k)
    ensures i == j
  {
  }

  lemma {:induction false} WithoutMore(rs: seq<Record>, r: Record)
    ensures WithoutCheckpoints(rs + [r]) == WithoutCheckpoints(rs) + if r.Checkpoint? then [] else [r]
  {
    if rs == [] {
      assert rs + [r] == [r] && [r][1..] == [];
    } else {
      assert (rs + [r])[0] == rs[0] && (rs + [r])[1..] == rs[1..] + [r];
      WithoutMore(rs[1..], r);
    }
  }

  lemma StateNext(rs: seq<Record>, k: nat, s: State)
    requires k < |rs| && StateIs(rs, k, s)
    ensures StateIs(rs, k + 1, s.Next(rs[k]))
  {
    var r, n := rs[k], k + 1;
    if r.TxnBegin? {
      assert rs[k + 1..k + 1] == [];
      assert Collects(rs, k, k + 1, s.Next(r));
    } else if r.TxnCommit? {
      forall i: nat ensures !OpenAt(rs, i, n) {
        assert i < k ==> i < k < n;
      }
    } else if s.inTxn {
      var i: nat :| Collects(rs, i, k, s);
      assert rs[i + 1..k + 1] == rs[i + 1..k] + [r];
      WithoutMore(rs[i + 1..k], r);
      assert Collects(rs, i, k + 1, s.Next(r));
    } else {
      forall i: nat ensures !OpenAt(rs, i, n) {
        assert i < k ==> !OpenAt(rs, i, k);
      }
    }
  }

  lemma EmitsGroup(f: Format, rs: seq<Record>, k: nat, s: State)
    requires k < |rs| && StateIs(rs, k, s)
    ensures s.Emits(f, rs[k]) == Group(f, rs, k)
  {
    if s.inTxn {
      var i: nat :| Collects(rs, i, k, s);
      if exists j: nat :: Committed(f, rs, j, k) {
        var j: nat :| Committed(f, rs, j, k) && Group(f, rs, k) == WithoutCheckpoints(rs[j + 1..k]);
        OpenUnique(rs, i, j, k);
      } else {
        assert !Committed(f, rs, i, k);
      }
    } else {
      assert forall i: nat :: !Committed(f, rs, i, k);
    }
  }

  /** The loop's result, from the records it reads. */
  function Fold(f: Format, s: State, acc: seq<Record>, rs: seq<Record>): seq<Record>
    decreases |rs|
  {
    if rs == [] then acc else Fold(f, s.Next(rs[0]), acc + s.Emits(f, rs[0]), rs[1..])
  }

  lemma {:induction false} ScanFolds(f: Format, b: seq<byte>, off: nat, s: State, acc: seq<Record>)
    requires Progress(f)
    ensures Scan(f, b, off, s, acc)
         == if Tokens(f, b, off).None? then PastEnd else Done(Fold(f, s, acc, Tokens(f, b, off).value))
    decreases |b| - off
  {
    if off + 9 <= |b| {
      var d := f.get(b, off);
      if PadAt(d) {
        var boundary := (off / Block + 1) * Block;
        if boundary < |b| {
          ScanFolds(f, b, boundary, s, acc);
        }
      } else if d.Some? {
        var r, next := d.value.0, d.value.1;
        ScanFolds(f, b, next, s.Next(r), acc + s.Emits(f, r));
        if Tokens(f, b, next).Some? {
          FoldFirst(f, s, acc, r, Tokens(f, b, next).value);
        }
      }
    }
  }

  lemma FoldFirst(f: Format, s: State, acc: seq<Record>, r: Record, rest: seq<Record>)
    ensures Fold(f, s, acc, [r] + rest) == Fold(f, s.Next(r), acc + s.Emits(f, r), rest)
  {
    assert ([r] + rest)[1..] == rest;
  }

  /** The loop's state after `k` records, and what it has returned by then. */
  function StateOf(rs: seq<Record>, k: nat): State
    requires k <= |rs|
  {
    if k == 0 then Start else StateOf(rs, k - 1).Next(rs[k - 1])
  }

  function Emitted(f: Format, rs: seq<Record>, k: nat): seq<Record>
    requires k <= |rs|
  {
    if k == 0 then [] else Emitted(f, rs, k - 1) + StateOf(rs, k - 1).Emits(f, rs[k - 1])
  }

  lemma {:induction false} FoldIsEmitted(f: Format, rs: seq<Record>, k: nat)
    requires k <= |rs|
    ensures Fold(f, StateOf(rs, k), Emitted(f, rs, k), rs[k..]) == Emitted(f, rs, |rs|)
    decreases |rs| - k
  {
    if k < |rs| {
      FoldIsEmitted(f, rs, k + 1);
      assert rs[k..] == [rs[k]] + rs[k + 1..];
      FoldFirst(f, StateOf(rs, k), Emitted(f, rs, k), rs[k], rs[k + 1..]);
    }
  }

  lemma {:induction false} StateMeans(rs: seq<Record>, k: nat)
    requires k <= |rs|
    ensures StateIs(rs, k, StateOf(rs, k))
  {
    if k != 0 {
      StateMeans(rs, k - 1);
      StateNext(rs, k - 1, StateOf(rs, k - 1));
    }
  }

  lemma EmitsNext(f: Format, rs: seq<Record>, k: nat)
    requires k < |rs|
    ensures StateOf(rs, k).Emits(f, rs[k]) == Group(f, rs, k)
  {
    StateMeans(rs, k);
    EmitsGroup(f, rs, k, StateOf(rs, k));
  }

  ghost predicate EmitsAt(f: Format, rs: seq<Record>, gs: seq<seq<Record>>, k: nat)
    requires k < |rs| == |gs|
  {
    gs[k] == StateOf(rs, k).Emits(f, rs[k])
  }

  lemma {:induction false} EmittedIsFlat(f: Format, rs: seq<Record>, gs: seq<seq<Record>>, k: nat)
    requires k <= |rs| == |gs| && forall i: nat :: i < |rs| ==> EmitsAt(f, rs, gs, i)
    ensures Emitted(f, rs, k) == Flat(gs, k)
  {
    if k != 0 {
      EmittedIsFlat(f, rs, gs, k - 1);
      assert EmitsAt(f, rs, gs, k - 1);
    }
  }

  /**
   Over every buffer, recovery reads past the end or returns exactly the groups of
   records that stand between a begin and a commit of one number with their checksum.
   */
  lemma RecoveryIsSound(f: Format, b: seq<byte>)
    requires Progress(f)
    ensures Scan(f, b, 0, Start, [])
         == (if Tokens(f, b, 0).None? then PastEnd
             else Done(Flat(Groups(f, Tokens(f, b, 0).value), |Tokens(f, b, 0).value|)))
  {
    var rs := if Tokens(f, b, 0).None? then [] else Tokens(f, b, 0).value;
    assert rs[0..] == rs;
    ScanFolds(f, b, 0, Start, []);
    FoldIsEmitted(f, rs, 0);
    var gs := Groups(f, rs);
    forall k: nat | k < |rs| ensures EmitsAt(f, rs, gs, k) {
      EmitsNext(f, rs, k);
    }
    EmittedIsFlat(f, rs, gs, |rs|);
  }

  // Damage.

  /** An image in which transaction `m` has been replaced by other bytes of a transaction. */
  function Replaced(f: Format, ts: seq<Txn>, m: nat, x: Stored): seq<byte>
    requires m < |ts|
  {
    Image(f, ts[..m]) + (x.Put(f) + Image(f, ts[m + 1..]))
  }

  lemma OwnRest(f: Format, ts: seq<Txn>, m: nat, x: Stored)
    requires m < |ts|
    ensures var xs := Own(f, ts)[m := x];
            if m == 0 then xs[0] == x && xs[1..] == Own(f, ts[1..])
            else xs[0] == Own(f, ts)[0] && xs[1..] == Own(f, ts[1..])[m - 1 := x]
  {
    assert Own(f, ts)[1..] == Own(f, ts[1..]);
  }

  lemma {:induction false} ReplacedImage(f: Format, ts: seq<Txn>, m: nat, x: Stored)
    requires m < |ts|
    ensures StoredImage(f, Own(f, ts)[m := x]) == Replaced(f, ts, m, x)
  {
    OwnRest(f, ts, m, x);
    if m == 0 {
      OwnImage(f, ts[1..]);
      assert ts[..0] == [];
    } else {
      ReplacedImage(f, ts[1..], m - 1, x);
      assert ts[1..][..m - 1] == ts[..m][1..] && ts[1..][m..] == ts[m + 1..];
      Regroup(Pad(Frame(f, ts[0])), Image(f, ts[..m][1..]), x.Put(f) + Image(f, ts[m + 1..]));
    }
  }

  lemma {:induction false} ReplacedYields(f: Format, ts: seq<Txn>, m: nat, x: Stored)
    requires m < |ts|
    ensures Yields(f, Own(f, ts)[m := x]) == Records(ts[..m]) + (Yield(f, x.t, x.number, x.crc) + Records(ts[m + 1..]))
  {
    OwnRest(f, ts, m, x);
    if m == 0 {
      OwnImage(f, ts[1..]);
      assert ts[..0] == [];
    } else {
      ReplacedYields(f, ts[1..], m - 1, x);
      assert ts[1..][..m - 1] == ts[..m][1..] && ts[1..][m..] == ts[m + 1..];
      RegroupRecords(ts[0].records, Records(ts[..m][1..]), Yield(f, x.t, x.number, x.crc) + Records(ts[m + 1..]));
    }
  }

  lemma RegroupRecords(a: seq<Record>, b: seq<Record>, c: seq<Record>)
    ensures a + (b + c) == (a + b) + c
  {
  }

  /**
   Whatever stands in place of a transaction, its records are recovered if and only if
   its commit record has its number and its checksum; the others are recovered anyway.
   */
  lemma DamageIsLocal(f: Format, ts: seq<Txn>, m: nat, x: Stored)
    requires Faithful(f) && AllWellFormed(ts) && m < |ts| && WellFormed(x.t)
    ensures Scan(f, Replaced(f, ts, m, x), 0, Start, [])
         == Done(Records(ts[..m]) + (Yield(f, x.t, x.number, x.crc) + Records(ts[m + 1..])))
  {
    var xs := Own(f, ts)[m := x];
    var b := StoredImage(f, xs);
    ReplacedImage(f, ts, m, x);
    ReplacedYields(f, ts, m, x);
    assert b[0..|b|] == b;
    ScanStored(f, b, 0, Start, [], xs);
    assert [] + Yields(f, xs) == Yields(f, xs);
  }

  /** The image itself, around transaction `m`. */
  lemma ImageSplit(f: Format, ts: seq<Txn>, m: nat)
    requires m < |ts|
    ensures Image(f, ts) == Image(f, ts[..m]) + (Pad(Frame(f, ts[m])) + Image(f, ts[m + 1..]))
  {
    var x := Own(f, ts)[m];
    ReplacedImage(f, ts, m, x);
    OwnImage(f, ts);
    assert Own(f, ts)[m := x] == Own(f, ts);
  }

  lemma {:induction false} RecordsConcat(a: seq<Txn>, b: seq<Txn>)
    ensures Records(a + b) == Records(a) + Records(b)
  {
    if a == [] {
      assert a + b == b;
    } else {
      assert (a + b)[1..] == a[1..] + b;
      RecordsConcat(a[1..], b);
    }
  }

  /** Where the records of transaction `m` begin in the image. */
  function RecordsAt(f: Format, ts: seq<Txn>, m: nat): nat
    requires m < |ts|
  {
    |Image(f, ts[..m])| + |Opening(f, ts[m])|
  }

  lemma {:induction false} PutSplit(f: Format, rs: seq<Record>, k: nat)
    requires k < |rs|
    ensures PutAll(f, rs) == PutAll(f, rs[..k]) + (f.put(rs[k]) + PutAll(f, rs[k + 1..]))
  {
    if k == 0 {
      assert rs[..0] == [];
    } else {
      PutSplit(f, rs[1..], k - 1);
      assert rs[1..][..k - 1] == rs[..k][1..] && rs[1..][k..] == rs[k + 1..];
      Regroup(f.put(rs[0]), PutAll(f, rs[..k][1..]), f.put(rs[k]) + PutAll(f, rs[k + 1..]));
    }
  }

  /** A change of one byte inside the middle of three parts. */
  lemma ChangeInside(a: seq<byte>, x: seq<byte>, c: seq<byte>, p: nat, v: byte)
    requires p < |x|
    ensures (a + (x + c))[|a| + p := v] == a + (x[p := v] + c)
  {
  }

  /** Changing one byte of a record's fields changes that byte of the transaction's records. */
  lemma ChangeRecord(f: Format, rs: seq<Record>, k: nat, p: nat, v: byte, r': Record)
    requires k < |rs| && p < |f.put(rs[k])| && f.put(r') == f.put(rs[k])[p := v]
    ensures PutAll(f, rs[..k]) + f.put(rs[k]) <= PutAll(f, rs)
    ensures PutAll(f, rs[k := r']) == PutAll(f, rs)[|PutAll(f, rs[..k])| + p := v]
  {
    var rs' := rs[k := r'];
    PutSplit(f, rs, k);
    PutSplit(f, rs', k);
    assert rs'[..k] == rs[..k] && rs'[k + 1..] == rs[k + 1..];
    ChangeInside(PutAll(f, rs[..k]), f.put(rs[k]), PutAll(f, rs[k + 1..]), p, v);
  }

  /** The bytes before the records in a transaction's frame. */
  function Opening(f: Format, t: Txn): seq<byte> {
    f.put(TxnBegin(t.id)) + if t.checkpoint then f.put(Checkpoint(t.id)) else []
  }

  lemma FrameIs(f: Format, t: Txn, number: u64, crc: u32)
    ensures FrameWith(f, t, number, crc) == Opening(f, t) + (PutAll(f, t.records) + f.put(TxnCommit(number, crc)))
  {
    Regroup(f.put(TxnBegin(t.id)), if t.checkpoint then f.put(Checkpoint(t.id)) else [],
            PutAll(f, t.records) + f.put(TxnCommit(number, crc)));
  }

  /** Changing one byte among a transaction's records, seen in its frame. */
  lemma ChangeFrame(f: Format, u: Txn, t: Txn, number: u64, crc: u32, p: nat, v: byte)
    requires t.id == u.id && t.checkpoint == u.checkpoint
    requires p < |PutAll(f, u.records)| && PutAll(f, t.records) == PutAll(f, u.records)[p := v]
    ensures |Opening(f, u)| + p < |FrameWith(f, u, number, crc)|
    ensures FrameWith(f, t, number, crc) == FrameWith(f, u, number, crc)[|Opening(f, u)| + p := v]
  {
    FrameIs(f, u, number, crc);
    FrameIs(f, t, number, crc);
    ChangeInside(Opening(f, u), PutAll(f, u.records), f.put(TxnCommit(number, crc)), p, v);
  }

  lemma ChangePadded(x: seq<byte>, q: nat, v: byte)
    requires q < |x|
    ensures Pad(x[q := v]) == Pad(x)[q := v]
  {
  }

  /** The same, seen in the whole image. */
  lemma ChangeImage(f: Format, ts: seq<Txn>, m: nat, t: Txn, p: nat, v: byte)
    requires m < |ts| && t.id == ts[m].id && t.checkpoint == ts[m].checkpoint
    requires p < |PutAll(f, ts[m].records)| && PutAll(f, t.records) == PutAll(f, ts[m].records)[p := v]
    ensures RecordsAt(f, ts, m) + p < |Image(f, ts)|
    ensures Image(f, ts)[RecordsAt(f, ts, m) + p] == PutAll(f, ts[m].records)[p]
    ensures Replaced(f, ts, m, Stored(t, ts[m].id, f.sum(PutAll(f, ts[m].records)))) == Image(f, ts)[RecordsAt(f, ts, m) + p := v]
  {
    var crc := f.sum(PutAll(f, ts[m].records));
    ImageSplit(f, ts, m);
    ChangeStored(f, ts[m], t, crc, p, v);
    ChangeAt(Image(f, ts), Image(f, ts[..m]), Pad(Frame(f, ts[m])), Stored(t, ts[m].id, crc).Put(f), Image(f, ts[m + 1..]),
             |Opening(f, ts[m])| + p, v, RecordsAt(f, ts, m) + p);
  }

  lemma ChangeAt(whole: seq<byte>, a: seq<byte>, x: seq<byte>, x': seq<byte>, c: seq<byte>, q: nat, v: byte, at: nat)
    requires whole == a + (x + c) && q < |x| && x' == x[q := v] && at == |a| + q
    ensures at < |whole| && whole[at] == x[q] && a + (x' + c) == whole[at := v]
  {
    ChangeInside(a, x, c, q, v);
  }

  lemma ChangeStored(f: Format, u: Txn, t: Txn, crc: u32, p: nat, v: byte)
    requires t.id == u.id && t.checkpoint == u.checkpoint && crc == f.sum(PutAll(f, u.records))
    requires p < |PutAll(f, u.records)| && PutAll(f, t.records) == PutAll(f, u.records)[p := v]
    ensures var x, q := Pad(Frame(f, u)), |Opening(f, u)| + p;
            q < |x| && x[q] == PutAll(f, u.records)[p] && Stored(t, u.id, crc).Put(f) == x[q := v]
  {
    var x, q := Frame(f, u), |Opening(f, u)| + p;
    FrameIs(f, u, u.id, crc);
    ChangeFrame(f, u, t, u.id, crc, p, v);
    ChangePadded(x, q, v);
    assert x[q] == PutAll(f, u.records)[p] && Pad(x)[q] == x[q];
  }

  /** A transaction whose commit record is not its own is dropped, and no other. */
  lemma DropsOne(f: Format, ts: seq<Txn>, m: nat, x: Stored)
    requires Faithful(f) && AllWellFormed(ts) && m < |ts| && WellFormed(x.t) && !Closes(f, x.t, x.number, x.crc)
    ensures Scan(f, Replaced(f, ts, m, x), 0, Start, []) == Done(Records(ts[..m] + ts[m + 1..]))
  {
    DamageIsLocal(f, ts, m, x);
    assert [] + Records(ts[m + 1..]) == Records(ts[m + 1..]);
    RecordsConcat(ts[..m], ts[m + 1..]);
  }

  /** A changed byte among the records of transaction `m`, noticed by the checksum. */
  lemma NoticedByteDropsOne(f: Format, ts: seq<Txn>, m: nat, t: Txn, q: nat, v: byte)
    requires Faithful(f) && AllWellFormed(ts) && m < |ts| && WellFormed(t)
    requires t.id == ts[m].id && t.checkpoint == ts[m].checkpoint
    requires q < |PutAll(f, ts[m].records)| && PutAll(f, t.records) == PutAll(f, ts[m].records)[q := v]
    requires f.sum(PutAll(f, t.records)) != f.sum(PutAll(f, ts[m].records))
    ensures RecordsAt(f, ts, m) + q < |Image(f, ts)|
    ensures Image(f, ts)[RecordsAt(f, ts, m) + q] == PutAll(f, ts[m].records)[q]
    ensures Scan(f, Image(f, ts)[RecordsAt(f, ts, m) + q := v], 0, Start, []) == Done(Records(ts[..m] + ts[m + 1..]))
  {
    ChangeImage(f, ts, m, t, q, v);
    DropsOne(f, ts, m, Stored(t, ts[m].id, f.sum(PutAll(f, ts[m].records))));
  }

  // One changed byte.

  /** Changing one byte of a field of a record gives another record's bytes. */
  ghost predicate EditsField(f: Format, r: Record, p: nat, v: byte) {
    r.IsData() && IsField(r, p) && p < |f.put(r)| ==> exists r' :: Edited(f, r, p, v, r')
  }

  ghost predicate Edited(f: Format, r: Record, p: nat, v: byte, r': Record)
    requires p < |f.put(r)|
  {
    r'.IsData() && f.put(r') == f.put(r)[p := v]
  }

  ghost predicate NoticesByte(f: Format, b: seq<byte>, q: nat, v: byte) {
    q < |b| && b[q] != v ==> f.sum(b[q := v]) != f.sum(b)
  }

  /** The format keeps its shape when a byte of a field changes, and its checksum notices any changed byte. */
  ghost predicate Sensitive(f: Format) {
    && (forall r, p: nat, v: byte :: EditsField(f, r, p, v))
    && (forall b, q: nat, v: byte :: NoticesByte(f, b, q, v))
  }

  /** The transaction with the byte changed. */
  lemma ChangeTxn(f: Format, u: Txn, k: nat, p: nat, v: byte) returns (t: Txn)
    requires Sensitive(f) && WellFormed(u) && k < |u.records| && IsField(u.records[k], p)
    requires p < |f.put(u.records[k])| && v != f.put(u.records[k])[p]
    ensures WellFormed(t) && t.id == u.id && t.checkpoint == u.checkpoint
    ensures var q := |PutAll(f, u.records[..k])| + p;
            && q < |PutAll(f, u.records)| && PutAll(f, u.records)[q] == f.put(u.records[k])[p]
            && PutAll(f, t.records) == PutAll(f, u.records)[q := v]
    ensures f.sum(PutAll(f, t.records)) != f.sum(PutAll(f, u.records))
  {
    var r := u.records[k];
    assert EditsField(f, r, p, v);
    var r' :| Edited(f, r, p, v, r');
    ChangeRecord(f, u.records, k, p, v, r');
    assert NoticesByte(f, PutAll(f, u.records), |PutAll(f, u.records[..k])| + p, v);
    t := u.(records := u.records[k := r']);
  }

  /**
   In the image of committed transactions, changing any one byte of a field of any
   record makes recovery drop exactly the transaction that holds it.
   */
  lemma OneByteDropsOne(f: Format, ts: seq<Txn>, m: nat, k: nat, p: nat, v: byte)
    requires Faithful(f) && Sensitive(f) && AllWellFormed(ts) && m < |ts| && k < |ts[m].records|
    requires IsField(ts[m].records[k], p) && p < |f.put(ts[m].records[k])| && v != f.put(ts[m].records[k])[p]
    ensures var at := RecordsAt(f, ts, m) + (|PutAll(f, ts[m].records[..k])| + p);
            && at < |Image(f, ts)| && Image(f, ts)[at] == f.put(ts[m].records[k])[p]
            && Scan(f, Image(f, ts)[at := v], 0, Start, []) == Done(Records(ts[..m] + ts[m + 1..]))
  {
    var t := ChangeTxn(f, ts[m], k, p, v);
    NoticedByteDropsOne(f, ts, m, t, |PutAll(f, ts[m].records[..k])| + p, v);
  }

  /** The same on the device: one byte of a record goes bad, and `recover` loses that transaction alone. */
  lemma BadByteLosesOne(f: Format, d: Disk, ts: seq<Txn>, m: nat, k: nat, p: nat, v: byte)
    requires Faithful(f) && Sensitive(f) && Holds(f, d, ts) && m < |ts| && k < |ts[m].records|
    requires IsField(ts[m].records[k], p) && p < |f.put(ts[m].records[k])| && v != f.put(ts[m].records[k])[p]
    ensures var at := d.sb.checkpointOffset + (RecordsAt(f, ts, m) + (|PutAll(f, ts[m].records[..k])| + p));
            && at < d.sb.writeOffset && d.data[at] == f.put(ts[m].records[k])[p]
            && Recovered(f, d.(data := d.data[at := v])) == Done(Records(ts[..m] + ts[m + 1..]))
  {
    OneByteDropsOne(f, ts, m, k, p, v);
    ChangeRange(d.data, d.sb.checkpointOffset, d.sb.writeOffset, RecordsAt(f, ts, m) + (|PutAll(f, ts[m].records[..k])| + p), v);
  }

  lemma ChangeRange(data: seq<byte>, lo: nat, hi: nat, at: nat, v: byte)
    requires lo <= hi <= |data| && at < hi - lo
    ensures data[lo + at := v][lo..hi] == data[lo..hi][at := v]
  {
  }

  /** The same for the journal's own record format and checksum. */
  lemma JournalBadByteLosesOne(f: Format, d: Disk, ts: seq<Txn>, m: nat, k: nat, p: nat, v: byte)
    requires f == JournalFormat() && Holds(f, d, ts) && m < |ts| && k < |ts[m].records|
    requires IsField(ts[m].records[k], p) && p < |f.put(ts[m].records[k])| && v != f.put(ts[m].records[k])[p]
    ensures Progress(f)
    ensures var at := d.sb.checkpointOffset + (RecordsAt(f, ts, m) + (|PutAll(f, ts[m].records[..k])| + p));
            && at < d.sb.writeOffset && d.data[at] == f.put(ts[m].records[k])[p]
            && Recovered(f, d.(data := d.data[at := v])) == Done(Records(ts[..m] + ts[m + 1..]))
  {
    JournalFormatIsFaithful();
    JournalFormatIsSensitive();
    BadByteLosesOne(f, d, ts, m, k, p, v);
  }

  /** The journal's own record format and checksum are so. */
  lemma JournalFormatIsSensitive()
    ensures Sensitive(JournalFormat())
  {
    var f := JournalFormat();
    forall r, p: nat, v: byte ensures EditsField(f, r, p, v) {
      FormatEdits(f, r, p, v);
    }
    forall b, q: nat, v: byte ensures NoticesByte(f, b, q, v) {
      FormatNotices(f, b, q, v);
    }
  }

  lemma FormatEdits(f: Format, r: Record, p: nat, v: byte)
    requires f == JournalFormat()
    ensures EditsField(f, r, p, v)
  {
    assert f.put(r) == Serialize(r);
    if r.IsData() && IsField(r, p) && p < |Serialize(r)| {
      var r' := FieldByte(r, p, v);
      assert f.put(r') == Serialize(r');
      assert Edited(f, r, p, v, r');
    }
  }

  lemma FormatNotices(f: Format, b: seq<byte>, q: nat, v: byte)
    requires f == JournalFormat()
    ensures NoticesByte(f, b, q, v)
  {
    if q < |b| && b[q] != v {
      ByteChangesChecksum(b, q, v);
    }
  }

  lemma ByteChangesChecksum(b: seq<byte>, q: nat, v: byte)
    requires q < |b| && b[q] != v
    ensures Checksum(b[q := v]) != Checksum(b)
  {
    Crc32.DetectsOneByte(b[..q], b[q], v, b[q + 1..], 0);
    assert b == b[..q] + [b[q]] + b[q + 1..];
    assert b[q := v] == b[..q] + [v] + b[q + 1..];
  }
}
