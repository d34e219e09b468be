/**
 BlueFS over whole runs: when unmounting and mounting again succeeds, and what
 it then restores.
 */
module BluefsRuns {
  import opened Options
  import opened BluefsTypes
  import opened BluefsLog
  import opened BluefsMachine
  import opened BluefsProofs

  ghost predicate LegalRun(fs: Fs, cs: seq<Cmd>)
    decreases cs
  {
    cs == [] || (Legal(fs, cs[0]) && (Exec(fs, cs[0]).Some? ==> LegalRun(Exec(fs, cs[0]).value, cs[1..])))
  }

  predicate HazardFree(fs: Fs, cs: seq<Cmd>)
    decreases cs
  {
    cs == [] || (!Hazard(fs, cs[0]) && (Exec(fs, cs[0]).Some? ==> HazardFree(Exec(fs, cs[0]).value, cs[1..])))
  }

  lemma FreshOk()
    ensures Inv(Fresh)
  {
    LogOpsSnoc([], Txn(1, [OpInit]));
    assert [] + [Txn(1, [OpInit])] == [Txn(1, [OpInit])];
    assert AllOps(Fresh) == [OpInit];
    ReplayOne(NoNodes, OpInit);
  }

  lemma StepKeeps(fs: Fs, c: Cmd)
    requires Inv(fs) && Legal(fs, c) && !Hazard(fs, c)
    ensures Exec(fs, c).Some? && Inv(Exec(fs, c).value)
  {
    match c
    case CMkdir(d) => MkdirKeeps(fs, d);
    case CRmdir(d) => RmdirKeeps(fs, d);
    case COpen(d, x, o) => OpenKeeps(fs, d, x, o);
    case CUnlink(d, x) => UnlinkKeeps(fs, d, x);
    case CRename(d, x, nd, nx) => RenameKeeps(fs, d, x, nd, nx);
    case CFlush(i, w) => FlushKeeps(fs, i, w);
    case CTruncate(i, size, w) => TruncateKeeps(fs, i, size, w);
    case CPreallocate(i, off, len, got) => PreallocateKeeps(fs, i, off, len, got);
    case CFsync(i, w) => FsyncKeeps(fs, i, w);
    case CSync => SyncKeeps(fs);
    case CRemount => RemountKeeps(fs);
  }

  /** A call keeps memory and replay in agreement if and only if it is not hazardous. */
  lemma StepKeepsIff(fs: Fs, c: Cmd)
    requires Inv(fs) && Legal(fs, c)
    ensures Exec(fs, c).Some? && (Inv(Exec(fs, c).value) <==> !Hazard(fs, c))
  {
    if Hazard(fs, c) {
      HazardBreaks(fs, c);
    } else {
      StepKeeps(fs, c);
    }
  }

  /** In every run without a hazardous call, mounts included, replay rebuilds the memory state. */
  lemma {:induction false} RunKeeps(fs: Fs, cs: seq<Cmd>)
    requires Inv(fs) && LegalRun(fs, cs) && HazardFree(fs, cs)
    ensures Run(fs, cs).Some? && Inv(Run(fs, cs).value)
    decreases cs
  {
    if cs != [] {
      StepKeeps(fs, cs[0]);
      RunKeeps(Exec(fs, cs[0]).value, cs[1..]);
    }
  }

  /** Once replay is lost no later call regains it, and no later mount succeeds. */
  lemma {:induction false} BrokenStays(fs: Fs, cs: seq<Cmd>)
    requires Sequenced(fs) && ReplayAll(fs).None? && LegalRun(fs, cs)
    ensures Run(fs, cs).Some? ==> Sequenced(Run(fs, cs).value) && ReplayAll(Run(fs, cs).value).None?
    decreases cs
  {
    if cs != [] {
      if cs[0].CRemount? {
        BrokenMountFails(fs);
      } else {
        LogGrows(fs, cs[0]);
        var fs' := Exec(fs, cs[0]).value;
        var more := AllOps(fs')[|AllOps(fs)|..];
        assert AllOps(fs') == AllOps(fs) + more;
        ReplayConcat(NoNodes, AllOps(fs), more);
        BrokenStays(fs', cs[1..]);
      }
    }
  }

  lemma BrokenMountFails(fs: Fs)
    requires Sequenced(fs) && ReplayAll(fs).None?
    ensures Remount(fs).None?
  {
    SyncShape(fs);
    var log := FlushLog(fs, 0).log;
    assert LogOps(log) + [] == LogOps(log);
    ReplayTxnsIsReplayOps(NoNodes, 0, log);
  }

  lemma {:induction false} HazardousRunBreaks(fs: Fs, cs: seq<Cmd>)
    requires Inv(fs) && LegalRun(fs, cs) && !HazardFree(fs, cs)
    ensures Run(fs, cs).Some? ==> Sequenced(Run(fs, cs).value) && ReplayAll(Run(fs, cs).value).None?
    decreases cs
  {
    if Hazard(fs, cs[0]) {
      HazardBreaks(fs, cs[0]);
      BrokenStays(Exec(fs, cs[0]).value, cs[1..]);
    } else {
      StepKeeps(fs, cs[0]);
      HazardousRunBreaks(Exec(fs, cs[0]).value, cs[1..]);
    }
  }

  /**
   The replay theorem.  For every run from a freshly made file system: the next
   unmount-and-mount succeeds exactly when the run made no hazardous call, and
   then it restores the directory tree, and every linked file that is not dirty.
   */
  lemma RemountRestores(cs: seq<Cmd>)
    requires LegalRun(Fresh, cs)
    ensures (Run(Fresh, cs).Some? && Remount(Run(Fresh, cs).value).Some?) <==> HazardFree(Fresh, cs)
    ensures HazardFree(Fresh, cs) ==> Restores(Run(Fresh, cs).value, Remount(Run(Fresh, cs).value).value)
  {
    FreshOk();
    if HazardFree(Fresh, cs) {
      RunKeeps(Fresh, cs);
      RemountRestoresAll(Run(Fresh, cs).value);
    } else {
      HazardousRunBreaks(Fresh, cs);
      if Run(Fresh, cs).Some? {
        BrokenMountFails(Run(Fresh, cs).value);
      }
    }
  }

  lemma StepIsSequenced(fs: Fs, c: Cmd)
    requires Sequenced(fs) && Legal(fs, c) && Exec(fs, c).Some?
    ensures Sequenced(Exec(fs, c).value)
  {
    if c.CRemount? {
      SyncShape(fs);
      ReplayTxnsIsReplayOps(NoNodes, 0, FlushLog(fs, 0).log);
    } else {
      LogGrows(fs, c);
    }
  }

  /**
   Over every run, hazardous or not, the log's transactions are numbered 1, 2, 3, ...,
   both live counters are one ahead of the stable one, and no file is left in a dirty list.
   */
  lemma {:induction false} RunIsSequenced(fs: Fs, cs: seq<Cmd>)
    requires Sequenced(fs) && LegalRun(fs, cs) && Run(fs, cs).Some?
    ensures Sequenced(Run(fs, cs).value)
    decreases cs
  {
    if cs != [] {
      StepIsSequenced(fs, cs[0]);
      RunIsSequenced(Exec(fs, cs[0]).value, cs[1..]);
    }
  }

  // ---- the hazards are reachable

  const Piece := Extent(1, 0, 4096)
  const Next := Extent(1, 4096, 4096)

  /** Create a file, write to it and sync it. */
  const Opening := [CMkdir("d"), COpen("d", "x", false)]
  const Writing := CFsync(2, Write(0, 10, Some([Piece])))

  lemma {:induction false} RunSplits(fs: Fs, a: seq<Cmd>, b: seq<Cmd>)
    requires LegalRun(fs, a) && Run(fs, a).Some?
    ensures LegalRun(Run(fs, a).value, b) ==> LegalRun(fs, a + b)
    ensures !HazardFree(Run(fs, a).value, b) ==> !HazardFree(fs, a + b)
    ensures Run(fs, a + b) == Run(Run(fs, a).value, b)
    decreases a
  {
    if a == [] {
      assert a + b == b;
    } else {
      assert (a + b)[1..] == a[1..] + b;
      RunSplits(Exec(fs, a[0]).value, a[1..], b);
    }
  }

  lemma RunOne(fs: Fs, c: Cmd)
    ensures LegalRun(fs, [c]) == Legal(fs, c)
    ensures HazardFree(fs, [c]) == !Hazard(fs, c)
    ensures Run(fs, [c]) == Exec(fs, c)
  {
    assert [c][1..] == [];
  }

  lemma Claims()
    ensures Claim([], [Piece]) == [Piece] && Total([Piece]) == 4096
    ensures Claim([Piece], [Next]) == [Extent(1, 0, 8192)] && Total([Extent(1, 0, 8192)]) == 8192
  {
    assert [Piece][1..] == [] && [Next][1..] == [] && [Extent(1, 0, 8192)][1..] == [];
    assert Append([Piece], Next) == [Extent(1, 0, 8192)];
  }

  /** A file opened and not yet written. */
  ghost predicate Opened(s: Fs) {
    && Inv(s) && 2 in s.writers && 2 in s.files && Entry(s.dirs, "d", "x", 2)
    && s.files[2].node == FreshNode.(refs := 1) && !s.files[2].isDirty
  }

  /** A file written and synced: its space is logged by an incremental update. */
  ghost predicate Synced(s: Fs) {
    && Inv(s) && 2 in s.writers && 2 in s.files && Entry(s.dirs, "d", "x", 2)
    && s.files[2].node.extents == [Piece] && s.files[2].node.committed == 4096
    && !s.files[2].node.deleted && s.files[2].node.refs == 1 && !s.files[2].isDirty
    && 2 in ReplayAll(s).value.files && ReplayAll(s).value.files[2].committed == 0
  }

  lemma OpeningRuns()
    ensures LegalRun(Fresh, Opening) && Run(Fresh, Opening).Some? && Opened(Run(Fresh, Opening).value)
    ensures 2 in ReplayAll(Run(Fresh, Opening).value).value.files
    ensures ReplayAll(Run(Fresh, Opening).value).value.files[2].committed == 0
  {
    FreshOk();
    var s1 := Exec(Fresh, Opening[0]).value;
    var s2 := Exec(s1, Opening[1]).value;
    assert Opening == [Opening[0]] + [Opening[1]];
    RunOne(Fresh, Opening[0]);
    RunOne(s1, Opening[1]);
    RunSplits(Fresh, [Opening[0]], [Opening[1]]);
    MkdirKeeps(Fresh, "d");
    CreateKeeps(s1, "d", "x");
    CreateReplays(ReplayAll(s1).value, 2, "d", "x");
    Extend(s1, s2, [FullUpdate(2, FreshNode.(refs := 1)), OpDirLink("d", "x", 2)]);
  }

  lemma WritingFlush(s: Fs)
    requires 2 in s.files && s.files[2].node == FreshNode.(refs := 1)
    ensures var (s1, r) := Flush(s, 2, Writing.write);
            && r == Ok && 2 in s1.files && s1.files[2].isDirty && s1.files[2].dirtySeq == s.files[2].dirtySeq
            && s1.files[2].node == FreshNode.(refs := 1, size := 10, extents := [Piece])
            && s1.writers == s.writers && s1.dirs == s.dirs && s1.log == s.log && s1.pending == s.pending
  {
    Claims();
  }

  lemma WritingRuns(s: Fs)
    requires Opened(s) && 2 in ReplayAll(s).value.files && ReplayAll(s).value.files[2].committed == 0
    ensures Legal(s, Writing) && Exec(s, Writing).Some? && Synced(Exec(s, Writing).value)
  {
    var w := Writing.write;
    Claims();
    WritingFlush(s);
    FlushKeeps(s, 2, w);
    FsyncShape(s, 2, w);
    var s1 := Flush(s, 2, w).0;
    var f := s1.files[2];
    Extend(s, s1, []);
    var up := LogUpdate(s1, 2, f.(isDirty := false), IncUpdate(2, f.node));
    IncUpdateKeeps(s1, 2, f.(isDirty := false));
    SyncShape(up);
    SyncKeeps(up);
  }

  /** A hazardous last call, wherever the run has got to, ends in a file system that no longer mounts. */
  lemma FatalCall(a: seq<Cmd>, s: Fs, b: seq<Cmd>, c: Cmd)
    requires LegalRun(Fresh, a) && Run(Fresh, a) == Some(s) && LegalRun(s, b) && Run(s, b).Some?
    requires Hazard(Run(s, b).value, c) && Legal(Run(s, b).value, c) && !c.CRemount?
    ensures var cs := a + b + [c];
            LegalRun(Fresh, cs) && Run(Fresh, cs).Some? && Remount(Run(Fresh, cs).value).None?
  {
    RunSplits(Fresh, a, b);
    RunOne(Run(s, b).value, c);
    RunSplits(Fresh, a + b, [c]);
    RemountRestores(a + b + [c]);
  }

  lemma SyncedRuns()
    ensures var a := Opening + [Writing];
            LegalRun(Fresh, a) && Run(Fresh, a).Some? && Synced(Run(Fresh, a).value)
  {
    OpeningRuns();
    var s := Run(Fresh, Opening).value;
    WritingRuns(s);
    RunOne(s, Writing);
    RunSplits(Fresh, Opening, [Writing]);
  }

  /** Write again, then unlink with the writer still open. */
  const Rewriting := CFlush(2, Write(10, 5000, Some([Next])))
  const Unlinking := [Rewriting, CUnlink("d", "x")]

  lemma RewritingRuns(s: Fs)
    requires Sequenced(s) && 2 in s.files && s.files[2].node.extents == [Piece] && !s.files[2].node.deleted
    requires s.files[2].node.committed == 4096 && s.files[2].node.refs == 1
    ensures var s1 := Exec(s, Rewriting).value;
            && Sequenced(s1) && s1.dirs == s.dirs && s1.writers == s.writers && 2 in s1.files
            && s1.files[2].isDirty && s1.files[2].node.committed == 4096 && s1.files[2].node.refs == 1
  {
    Claims();
  }

  lemma UnlinkingRuns(s: Fs)
    requires Synced(s)
    ensures LegalRun(s, Unlinking) && Run(s, Unlinking).Some?
    ensures Hazard(Run(s, Unlinking).value, CFsync(2, NoWrite)) && Legal(Run(s, Unlinking).value, CFsync(2, NoWrite))
  {
    var s1 := Exec(s, Rewriting).value;
    RewritingRuns(s);
    UnlinkShape(s1, "d", "x");
    assert Unlinking == [Rewriting] + [CUnlink("d", "x")];
    RunOne(s, Rewriting);
    RunOne(s1, CUnlink("d", "x"));
    RunSplits(s, [Rewriting], [CUnlink("d", "x")]);
  }

  /** The first hazard is reachable: sync through the open writer of the unlinked file. */
  lemma FsyncAfterUnlinkIsFatal()
    ensures var cs := Opening + [Writing] + Unlinking + [CFsync(2, NoWrite)];
            LegalRun(Fresh, cs) && Run(Fresh, cs).Some? && Remount(Run(Fresh, cs).value).None?
  {
    SyncedRuns();
    var s := Run(Fresh, Opening + [Writing]).value;
    UnlinkingRuns(s);
    FatalCall(Opening + [Writing], s, Unlinking, CFsync(2, NoWrite));
  }

  /** Mounting leaves the delta mark where the last full update put it. */
  lemma MountLeavesStaleMark(s: Fs)
    requires Synced(s)
    ensures Remount(s).Some?
    ensures var last := CPreallocate(2, 0, 8192, Some([Next]));
            Hazard(Remount(s).value, last) && Legal(Remount(s).value, last)
  {
    RemountKeeps(s);
    RemountIsIdentity(s, "d", "x", 2);
    Claims();
    assert Remount(s).value.files[2].node.extents == [Piece];
  }

  /** The second hazard is reachable: remount, then grow the file without opening it for writing. */
  lemma PreallocateAfterMountIsFatal()
    ensures var cs := Opening + [Writing] + [CRemount] + [CPreallocate(2, 0, 8192, Some([Next]))];
            LegalRun(Fresh, cs) && Run(Fresh, cs).Some? && Remount(Run(Fresh, cs).value).None?
  {
    SyncedRuns();
    var s := Run(Fresh, Opening + [Writing]).value;
    MountLeavesStaleMark(s);
    RunOne(s, CRemount);
    FatalCall(Opening + [Writing], s, [CRemount], CPreallocate(2, 0, 8192, Some([Next])));
  }
}
