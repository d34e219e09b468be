/**
 The metadata dump that log compaction writes (`_compact_log_dump_metadata`):
 directories and links first, then every file, the unlinked ones included.
 */
module BluefsCompact {
  import opened Options
  import opened BluefsTypes
  import opened BluefsLog
  import opened BluefsMachine
  import opened BluefsProofs

  ghost predicate Linked(dirs: Dirs, i: Ino) {
    exists d, x :: Entry(dirs, d, x, i)
  }

  /** Every entry of `a` is an entry of `b`. */
  ghost predicate Within(a: Dirs, b: Dirs) {
    forall d, x, i :: Entry(a, d, x, i) ==> Entry(b, d, x, i)
  }

  /** While the links are replayed: one empty node with one link per entry so far. */
  ghost predicate LinksReplayed(n: Nodes) {
    && (forall i :: i in n.files <==> Linked(n.dirs, i))
    && (forall i :: i in n.files ==> n.files[i] == FreshNode.(refs := 1))
  }

  /** What one file is replayed to: its node as dumped, and one link exactly when it has an entry. */
  ghost predicate FileReplayed(n: Nodes, i: Ino, f: File) {
    && i in n.files
    && n.files[i].size == f.node.size && n.files[i].mtime == f.node.mtime
    && n.files[i].extents == f.node.extents && n.files[i].committed == Total(f.node.extents)
    && n.files[i].refs == (if Linked(n.dirs, i) then 1 else 0)
    && !n.files[i].deleted
  }

  lemma CreateStep(n: Nodes, ops: seq<Op>, d: string)
    requires ReplayOps(NoNodes, ops) == Some(n) && LinksReplayed(n) && d !in n.dirs
    ensures var n' := n.(dirs := n.dirs[d := map[]]);
            ReplayOps(NoNodes, ops + [OpDirCreate(d)]) == Some(n') && LinksReplayed(n')
  {
    var n' := n.(dirs := n.dirs[d := map[]]);
    ReplayConcat(NoNodes, ops, [OpDirCreate(d)]);
    ReplayOne(n, OpDirCreate(d));
    assert forall d1, x1, i :: Entry(n'.dirs, d1, x1, i) <==> Entry(n.dirs, d1, x1, i);
    forall i ensures Linked(n'.dirs, i) <==> Linked(n.dirs, i) {
      if Linked(n.dirs, i) {
        var d1, x1 :| Entry(n.dirs, d1, x1, i);
        assert Entry(n'.dirs, d1, x1, i);
      }
    }
  }

  lemma LinkStep(n: Nodes, ops: seq<Op>, d: string, x: string, i: Ino)
    requires ReplayOps(NoNodes, ops) == Some(n) && LinksReplayed(n)
    requires d in n.dirs && x !in n.dirs[d] && !Linked(n.dirs, i)
    ensures var r := ReplayOps(NoNodes, ops + [OpDirLink(d, x, i)]);
            r.Some? && r.value.dirs == AddEntry(n.dirs, d, x, i) && LinksReplayed(r.value)
  {
    ReplayConcat(NoNodes, ops, [OpDirLink(d, x, i)]);
    ReplayOne(n, OpDirLink(d, x, i));
    var n' := ReplayOps(NoNodes, ops + [OpDirLink(d, x, i)]).value;
    EntriesAdded(n.dirs, d, x, i);
    forall j ensures Linked(n'.dirs, j) <==> j == i || Linked(n.dirs, j) {
      if j == i {
        assert Entry(n'.dirs, d, x, i);
      } else if Linked(n.dirs, j) {
        var d1, x1 :| Entry(n.dirs, d1, x1, j);
        assert Entry(n'.dirs, d1, x1, j);
      }
    }
  }

  lemma FreshEntry(part: Dirs, dirs: Dirs, d: string, x: string, i: Ino)
    requires Within(part, dirs) && Unique(dirs) && Entry(dirs, d, x, i) && (d in part ==> x !in part[d])
    ensures !Linked(part, i)
  {
  }

  /** The inner loop: the links of directory `d`, in any order. */
  method DumpDirectory(dirs: Dirs, d: string, before: seq<Op>, ghost n0: Nodes) returns (ops: seq<Op>)
    requires Unique(dirs) && d in dirs && ReplayOps(NoNodes, before) == Some(n0) && LinksReplayed(n0)
    requires n0.dirs.Keys <= dirs.Keys && d in n0.dirs && n0.dirs[d] == map[]
    requires forall d1 :: d1 in n0.dirs && d1 != d ==> n0.dirs[d1] == dirs[d1]
    ensures var r := ReplayOps(NoNodes, ops);
            r.Some? && LinksReplayed(r.value) && r.value.dirs == n0.dirs[d := dirs[d]]
  {
    ops := before;
    ghost var n := n0;
    var names := dirs[d].Keys;
    while names != {}
      invariant ReplayOps(NoNodes, ops) == Some(n) && LinksReplayed(n) && Dumped(dirs, d, names, n0.dirs.Keys, n)
      decreases names
    {
      var x :| x in names;
      DumpStep(dirs, d, names, n0.dirs.Keys, n, ops, x);
      names := names - {x};
      ops := ops + [OpDirLink(d, x, dirs[d][x])];
      n := ReplayOps(NoNodes, ops).value;
    }
    DumpedAll(dirs, d, n0.dirs, n);
  }

  lemma DumpedAll(dirs: Dirs, d: string, before: Dirs, n: Nodes)
    requires Dumped(dirs, d, {}, before.Keys, n) && forall d1 :: d1 in before && d1 != d ==> before[d1] == dirs[d1]
    ensures n.dirs == before[d := dirs[d]]
  {
    assert n.dirs[d] == dirs[d];
  }

  /** The directories `keys` are complete in the replay, except that `d` still lacks `names`. */
  ghost predicate Dumped(dirs: Dirs, d: string, names: set<string>, keys: set<string>, n: Nodes) {
    && d in dirs && d in keys && keys <= dirs.Keys && names <= dirs[d].Keys && n.dirs.Keys == keys
    && (forall d1 :: d1 in n.dirs && d1 != d ==> n.dirs[d1] == dirs[d1])
    && n.dirs[d].Keys == dirs[d].Keys - names
    && forall x :: x in n.dirs[d] ==> n.dirs[d][x] == dirs[d][x]
  }

  lemma DumpStep(dirs: Dirs, d: string, names: set<string>, keys: set<string>, n: Nodes, ops: seq<Op>, x: string)
    requires Unique(dirs) && Dumped(dirs, d, names, keys, n) && x in names
    requires ReplayOps(NoNodes, ops) == Some(n) && LinksReplayed(n)
    ensures var r := ReplayOps(NoNodes, ops + [OpDirLink(d, x, dirs[d][x])]);
            r.Some? && LinksReplayed(r.value) && Dumped(dirs, d, names - {x}, keys, r.value)
  {
    var i := dirs[d][x];
    assert Within(n.dirs, dirs);
    FreshEntry(n.dirs, dirs, d, x, i);
    LinkStep(n, ops, d, x, i);
  }

  /** The first loop: directories in any order, each followed by its links. */
  method DumpLinks(dirs: Dirs) returns (ops: seq<Op>)
    requires Unique(dirs)
    ensures ReplayOps(NoNodes, ops).Some?
    ensures ReplayOps(NoNodes, ops).value.dirs == dirs && LinksReplayed(ReplayOps(NoNodes, ops).value)
  {
    ops := [];
    ghost var n := NoNodes;
    var todo := dirs.Keys;
    while todo != {}
      invariant todo <= dirs.Keys && ReplayOps(NoNodes, ops) == Some(n) && LinksReplayed(n)
      invariant n.dirs.Keys == dirs.Keys - todo
      invariant forall d :: d in n.dirs ==> n.dirs[d] == dirs[d]
      decreases todo
    {
      var d :| d in todo;
      todo := todo - {d};
      CreateStep(n, ops, d);
      n := n.(dirs := n.dirs[d := map[]]);
      ops := DumpDirectory(dirs, d, ops + [OpDirCreate(d)], n);
      n := ReplayOps(NoNodes, ops).value;
    }
    assert n.dirs == dirs;
  }

  lemma UpdateStep(n: Nodes, ops: seq<Op>, i: Ino, f: File)
    requires ReplayOps(NoNodes, ops) == Some(n)
    requires if Linked(n.dirs, i) then i in n.files && n.files[i] == FreshNode.(refs := 1) else i !in n.files
    ensures var r := ReplayOps(NoNodes, ops + [FullUpdate(i, f.node)]);
            && r.Some? && r.value.dirs == n.dirs && FileReplayed(r.value, i, f)
            && r.value.files.Keys == n.files.Keys + {i}
            && forall j :: j in n.files && j != i ==> r.value.files[j] == n.files[j]
  {
    ReplayConcat(NoNodes, ops, [FullUpdate(i, f.node)]);
    ReplayOne(n, FullUpdate(i, f.node));
  }

  /**
   The whole dump.  Replaying it from empty maps rebuilds the directory tree and,
   after the orphan sweep, exactly the linked files, each with its current node;
   the delta marks in memory then match what was dumped.
   */
  method DumpMetadata(dirs: Dirs, files: map<Ino, File>) returns (ops: seq<Op>, marked: map<Ino, File>)
    requires Unique(dirs) && forall d, x, i :: Entry(dirs, d, x, i) ==> i in files
    ensures marked == map i | i in files :: files[i].(node := ResetDelta(files[i].node))
    ensures ReplayOps(NoNodes, ops).Some?
    ensures var n := ReplayOps(NoNodes, ops).value;
            && n.dirs == dirs
            && (forall i :: i in files ==> FileReplayed(n, i, files[i]))
            && (forall i :: i in Sweep(n.files) <==> Linked(dirs, i))
  {
    ops := DumpLinks(dirs);
    ghost var n := ReplayOps(NoNodes, ops).value;
    var todo := files.Keys;
    while todo != {}
      invariant todo <= files.Keys && ReplayOps(NoNodes, ops) == Some(n) && n.dirs == dirs
      invariant forall i :: i in files && i !in todo ==> FileReplayed(n, i, files[i])
      invariant forall i :: i in todo ==>
                  if Linked(n.dirs, i) then i in n.files && n.files[i] == FreshNode.(refs := 1) else i !in n.files
      invariant n.files.Keys <= files.Keys
      decreases todo
    {
      var i :| i in todo;
      todo := todo - {i};
      UpdateStep(n, ops, i, files[i]);
      ops := ops + [FullUpdate(i, files[i].node)];
      n := ReplayOps(NoNodes, ops).value;
    }
    marked := map i | i in files :: files[i].(node := ResetDelta(files[i].node));
    SweepKeepsLinked(dirs, files, n);
  }

  lemma SweepKeepsLinked(dirs: Dirs, files: map<Ino, File>, n: Nodes)
    requires n.dirs == dirs && n.files.Keys <= files.Keys
    requires forall d, x, i :: Entry(dirs, d, x, i) ==> i in files
    requires forall i :: i in files ==> FileReplayed(n, i, files[i])
    ensures forall i :: i in Sweep(n.files) <==> Linked(dirs, i)
  {
    forall i ensures i in Sweep(n.files) <==> Linked(dirs, i) {
      if Linked(dirs, i) {
        var d, x :| Entry(dirs, d, x, i);
        assert FileReplayed(n, i, files[i]);
      }
    }
  }
}
