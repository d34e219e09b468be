/**
 The BlueFS metadata log: its operations, and `_replay`, which rebuilds the
 directory and file maps from them (`bluestore/bluefs.cc`, `bluefs_types.h`).

 Transactions are kept as records; their byte encoding, block padding and the
 device reads of the replay loop are not modelled.  The log's own file (ino 1)
 is not in the file map of the model.
 */
module BluefsLog {
  import opened Options
  import opened BluefsTypes

  type Ino = nat

  datatype Op =
    | OpInit
    | OpDirCreate(dir: string)
    | OpDirRemove(dir: string)
    | OpDirLink(dir: string, name: string, ino: Ino)
    | OpDirUnlink(dir: string, name: string)
    | OpFileUpdate(ino: Ino, size: nat, mtime: nat, extents: seq<Extent>)
    | OpFileUpdateInc(ino: Ino, size: nat, mtime: nat, offset: nat, extents: seq<Extent>)
    | OpFileRemove(ino: Ino)

  datatype Txn = Txn(number: nat, ops: seq<Op>)

  /** A file node together with its link count, as `BlueFS::File` holds them. */
  datatype Node = Node(size: nat, mtime: nat, extents: seq<Extent>, committed: nat, refs: int, deleted: bool)

  type Dirs = map<string, map<string, Ino>>

  datatype Nodes = Nodes(dirs: Dirs, files: map<Ino, Node>, inoLast: nat)

  const FreshNode := Node(0, 0, [], 0, 0, false)

  /** The maps `mount` starts replaying into. */
  const NoNodes := Nodes(map[], map[], 1)

  function Max(a: nat, b: nat): nat {
    if a < b then b else a
  }

  /** `_get_file`: looks the file up, creating an empty one when it is missing. */
  function GetFile(n: Nodes, ino: Ino): Node {
    if ino in n.files then n.files[ino] else FreshNode
  }

  function SetFile(n: Nodes, ino: Ino, f: Node): Nodes {
    n.(files := n.files[ino := f], inoLast := Max(n.inoLast, ino))
  }

  function RemoveEntry(dirs: Dirs, dir: string, name: string): Dirs
    requires dir in dirs
  {
    dirs[dir := dirs[dir] - {name}]
  }

  function AddEntry(dirs: Dirs, dir: string, name: string, ino: Ino): Dirs
    requires dir in dirs
  {
    var entries: map<string, Ino> := dirs[dir][name := ino];
    dirs[dir := entries]
  }

  /**
   One case of the replay switch; `None` where the source aborts.  A directory
   entry whose file has been erased can only name a file without links, so
   unlinking it trips the same assertion on the link count.
   */
  function ApplyOp(n: Nodes, op: Op): Option<Nodes> {
    match op
    case OpInit =>
      Some(n)
    case OpDirCreate(d) =>
      Some(n.(dirs := n.dirs[d := map[]]))
    case OpDirRemove(d) =>
      Some(n.(dirs := n.dirs - {d}))
    case OpDirLink(d, x, i) =>
      var f := GetFile(n, i);
      var m := SetFile(n, i, f.(refs := f.refs + 1));
      Some(if d in n.dirs then m.(dirs := AddEntry(n.dirs, d, x, i)) else m)
    case OpDirUnlink(d, x) =>
      if d in n.dirs && x in n.dirs[d] then
        var i := n.dirs[d][x];
        if i !in n.files || n.files[i].refs <= 0 then None
        else
          var f := n.files[i];
          Some(n.(dirs := RemoveEntry(n.dirs, d, x), files := n.files[i := f.(refs := f.refs - 1)]))
      else Some(n)
    case OpFileUpdate(i, size, mtime, extents) =>
      var f := GetFile(n, i);
      Some(SetFile(n, i, Node(size, mtime, extents, Total(extents), f.refs, f.deleted)))
    case OpFileUpdateInc(i, size, mtime, offset, extents) =>
      var f := GetFile(n, i);
      if offset != Total(f.extents) then None
      else Some(SetFile(n, i, f.(size := size, mtime := mtime, extents := Claim(f.extents, extents))))
    case OpFileRemove(i) =>
      if i !in n.files then Some(n)
      else if 0 < n.files[i].refs then Some(n.(files := n.files[i := n.files[i].(deleted := true)]))
      else Some(n.(files := n.files - {i}))
  }

  function ReplayOps(n: Nodes, ops: seq<Op>): Option<Nodes>
    decreases ops
  {
    if ops == [] then Some(n)
    else
      var r := ApplyOp(n, ops[0]);
      if r.None? then None else ReplayOps(r.value, ops[1..])
  }

  /** The outcome of the transaction loop: the maps and the last sequence number replayed. */
  datatype Replayed = Failed | Replayed(nodes: Nodes, last: nat)

  /** The loop over transactions: a repeated number ends the replay, a gap is an I/O error. */
  function ReplayTxns(n: Nodes, last: nat, log: seq<Txn>): Replayed
    decreases log
  {
    if log == [] then Replayed(n, last)
    else if log[0].number != last + 1 then
      if log[0].number == last then Replayed(n, last) else Failed
    else
      var r := ReplayOps(n, log[0].ops);
      if r.None? then Failed else ReplayTxns(r.value, last + 1, log[1..])
  }

  /** The orphan sweep after replay. */
  function Sweep(files: map<Ino, Node>): map<Ino, Node> {
    map i | i in files && 0 < files[i].refs :: files[i]
  }

  function LogOps(log: seq<Txn>): seq<Op> {
    if log == [] then [] else LogOps(log[..|log| - 1]) + log[|log| - 1].ops
  }

  ghost predicate Numbered(log: seq<Txn>, first: nat) {
    forall i :: 0 <= i < |log| ==> log[i].number == first + i
  }

  lemma {:induction false} ReplayConcat(n: Nodes, a: seq<Op>, b: seq<Op>)
    ensures ReplayOps(n, a + b) ==
            if ReplayOps(n, a).None? then None else ReplayOps(ReplayOps(n, a).value, b)
    decreases a
  {
    if a == [] {
      assert a + b == b;
    } else {
      assert (a + b)[1..] == a[1..] + b;
      var r := ApplyOp(n, a[0]);
      if r.Some? {
        ReplayConcat(r.value, a[1..], b);
      }
    }
  }

  lemma ReplayOne(n: Nodes, op: Op)
    ensures ReplayOps(n, [op]) == ApplyOp(n, op)
  {
    assert [op][1..] == [];
  }

  lemma ReplayTwo(n: Nodes, a: Op, b: Op)
    ensures ReplayOps(n, [a, b]) == if ApplyOp(n, a).None? then None else ApplyOp(ApplyOp(n, a).value, b)
  {
    assert [a, b] == [a] + [b];
    ReplayConcat(n, [a], [b]);
    ReplayOne(n, a);
    if ApplyOp(n, a).Some? {
      ReplayOne(ApplyOp(n, a).value, b);
    }
  }

  lemma {:induction false} LogOpsCons(t: Txn, log: seq<Txn>)
    ensures LogOps([t] + log) == t.ops + LogOps(log)
  {
    if log == [] {
      assert [t] + log == [t];
      assert [t][..0] == [];
      assert t.ops + [] == t.ops == [] + t.ops;
    } else {
      var whole := [t] + log;
      assert whole[..|whole| - 1] == [t] + log[..|log| - 1];
      LogOpsCons(t, log[..|log| - 1]);
    }
  }

  /** On a log numbered without gaps the transaction loop is the replay of all its operations. */
  lemma {:induction false} ReplayTxnsIsReplayOps(n: Nodes, last: nat, log: seq<Txn>)
    requires Numbered(log, last + 1)
    ensures ReplayTxns(n, last, log) ==
            if ReplayOps(n, LogOps(log)).None? then Failed
            else Replayed(ReplayOps(n, LogOps(log)).value, last + |log|)
    decreases log
  {
    if log != [] {
      assert [log[0]] + log[1..] == log;
      LogOpsCons(log[0], log[1..]);
      ReplayConcat(n, log[0].ops, LogOps(log[1..]));
      var r := ReplayOps(n, log[0].ops);
      if r.Some? {
        assert Numbered(log[1..], last + 2);
        ReplayTxnsIsReplayOps(r.value, last + 1, log[1..]);
      }
    }
  }

  lemma LogOpsSnoc(log: seq<Txn>, t: Txn)
    ensures LogOps(log + [t]) == LogOps(log) + t.ops
  {
    assert (log + [t])[..|log|] == log;
  }
}
