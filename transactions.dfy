/** The nested transaction coordinator of `DbEventingRepo` (`BeginTransaction`,
    `CommitTransaction`, `RollbackTransaction`), as functions on a value that holds the three
    coordinator fields, the data they protect and a log of the physical actions taken on the
    connection. The data type `D` is left open: a physical transaction remembers the data as
    it was when the transaction was opened, and a physical rollback restores it. */
module Transactions {
  import opened Common

  /** `DbEventingRepo.TranState`. */
  datatype TranState = Unchanged | Committed | Rollbacked

  /** What the coordinator does to the physical `IDbTransaction`. */
  datatype PhysicalAction = PhysBegin | PhysCommit | PhysRollback | PhysDispose

  datatype TranError =
    | NoRunningTransaction   // an ArgumentException: there is no transaction to end
    | AlreadyRolledBack      // an InvalidOperationException: the group was rolled back before
    | PhysicalFault          // the connection threw while beginning or committing

  /** `running` is `_runningTransaction` (carrying the data it would restore), `tranCount` is
      `_tranCount`, `tranState` is `_tranState`; `log` lists every physical action so far. */
  datatype Session<D> = Session(db: D, running: Option<D>, tranCount: int, tranState: TranState,
                                log: seq<PhysicalAction>)

  datatype Step<D> = Step(next: Session<D>, outcome: Outcome<TranError>)

  /** A freshly constructed repository: no transaction, count 0, state `Unchanged`. */
  function Idle<D>(db: D): Session<D>
  {
    Session(db, None, 0, Unchanged, [])
  }

  /** `BeginTransaction` (:89-99), with the state reset the nesting discipline needs: a new
      physical transaction starts a new group in state `Unchanged`. `fault` says that
      `_conn.BeginTransaction` throws. */
  function Begin<D>(s: Session<D>, fault: bool): (r: Step<D>)
    ensures r.outcome.Pass? <==> s.running.Some? || !fault
    ensures r.outcome.Fail? ==> r == Step(s, Fail(PhysicalFault))
    ensures r.outcome.Pass? ==> r.next.tranCount == s.tranCount + 1 && r.next.db == s.db
    ensures r.outcome.Pass? && s.running.Some? ==>
              r.next.running == s.running && r.next.tranState == s.tranState && r.next.log == s.log
    ensures r.outcome.Pass? && s.running.None? ==>
              r.next.running == Some(s.db) && r.next.tranState == Unchanged && r.next.log == s.log + [PhysBegin]
  {
    if s.running.None? then
      if fault then Step(s, Fail(PhysicalFault))
      else Step(s.(running := Some(s.db), tranCount := s.tranCount + 1, tranState := Unchanged,
                   log := s.log + [PhysBegin]), Pass)
    else
      Step(s.(tranCount := s.tranCount + 1), Pass)
  }

  /** `BeginTransaction` exactly as written: `_tranState` keeps whatever the previous group
      left in it. */
  function BeginAsWritten<D>(s: Session<D>, fault: bool): (r: Step<D>)
    ensures r.next.tranState == s.tranState
  {
    if s.running.None? then
      if fault then Step(s, Fail(PhysicalFault))
      else Step(s.(running := Some(s.db), tranCount := s.tranCount + 1, log := s.log + [PhysBegin]), Pass)
    else
      Step(s.(tranCount := s.tranCount + 1), Pass)
  }

  /** `RollbackTransaction` (:105-130). The first rollback of a group is physical at once,
      whatever the depth, and restores the data the transaction started from; the
      transaction is disposed when the count reaches 0. */
  function Rollback<D>(s: Session<D>): (r: Step<D>)
    ensures s.running.None? <==> r.outcome.Fail?
    ensures r.outcome.Fail? ==> r == Step(s, Fail(NoRunningTransaction))
    ensures r.outcome.Pass? ==> r.next.tranCount == s.tranCount - 1 && r.next.tranState == Rollbacked
    ensures r.outcome.Pass? ==> r.next.db == if s.tranState == Rollbacked then s.db else s.running.value
    ensures r.outcome.Pass? ==> (r.next.running.None? <==> s.tranCount == 1)
    ensures r.outcome.Pass? && s.tranCount != 1 ==> r.next.running == s.running
    ensures r.outcome.Pass? ==>
              r.next.log == s.log + (if s.tranState == Rollbacked then [] else [PhysRollback])
                                  + (if s.tranCount == 1 then [PhysDispose] else [])
  {
    if s.running.None? then Step(s, Fail(NoRunningTransaction))
    else
      var undone := if s.tranState != Rollbacked
                    then s.(db := s.running.value, tranState := Rollbacked, log := s.log + [PhysRollback])
                    else s;
      var dec := undone.(tranCount := s.tranCount - 1);
      if dec.tranCount == 0 then Step(dec.(running := None, log := dec.log + [PhysDispose]), Pass)
      else Step(dec, Pass)
  }

  /** `CommitTransaction` (:136-160), with a failing physical commit leaving the coordinator as
      it was, so that the caller's rollback closes the group. `fault` says that the physical
      `Commit()` throws. */
  function Commit<D>(s: Session<D>, fault: bool): (r: Step<D>)
    ensures s.running.None? ==> r == Step(s, Fail(NoRunningTransaction))
    ensures s.running.Some? && s.tranState == Rollbacked ==> r == Step(s, Fail(AlreadyRolledBack))
    ensures r.outcome.Pass? <==> s.running.Some? && s.tranState != Rollbacked && !(s.tranCount == 1 && fault)
    ensures r.outcome.Fail? ==> r.next == s
    ensures r.outcome.Pass? ==> r.next.tranCount == s.tranCount - 1 && r.next.db == s.db && r.next.tranState == Committed
    ensures r.outcome.Pass? ==> (r.next.running.None? <==> s.tranCount == 1)
    ensures r.outcome.Pass? && s.tranCount != 1 ==> r.next.running == s.running
    ensures r.outcome.Pass? ==> r.next.log == s.log + (if s.tranCount == 1 then [PhysCommit, PhysDispose] else [])
  {
    if s.running.None? then Step(s, Fail(NoRunningTransaction))
    else if s.tranState == Rollbacked then Step(s, Fail(AlreadyRolledBack))
    else if s.tranCount - 1 == 0 then
      if fault then Step(s, Fail(PhysicalFault))
      else Step(s.(running := None, tranCount := 0, tranState := Committed,
                   log := s.log + [PhysCommit, PhysDispose]), Pass)
    else
      Step(s.(tranCount := s.tranCount - 1, tranState := Committed), Pass)
  }

  /** `CommitTransaction` exactly as written: the state and the count change before the
      physical commit, which may then throw. */
  function CommitAsWritten<D>(s: Session<D>, fault: bool): (r: Step<D>)
    ensures s.running.Some? && s.tranState != Rollbacked ==> r.next.tranCount == s.tranCount - 1
  {
    if s.running.None? then Step(s, Fail(NoRunningTransaction))
    else if s.tranState == Rollbacked then Step(s, Fail(AlreadyRolledBack))
    else
      var dec := s.(tranState := Committed, tranCount := s.tranCount - 1);
      if dec.tranCount == 0 then
        if fault then Step(dec, Fail(PhysicalFault))
        else Step(dec.(running := None, log := dec.log + [PhysCommit, PhysDispose]), Pass)
      else Step(dec, Pass)
  }

  // ---------------------------------------------------------------------------------------
  // The shape of the physical log

  /** One finished group: opened once, then committed or rolled back once, then disposed. */
  ghost predicate IsGroup(g: seq<PhysicalAction>)
  {
    g == [PhysBegin, PhysCommit, PhysDispose] || g == [PhysBegin, PhysRollback, PhysDispose]
  }

  /** A log made of finished groups only. */
  ghost predicate Closed(log: seq<PhysicalAction>)
    decreases |log|
  {
    log == [] || (|log| >= 3 && IsGroup(log[..3]) && Closed(log[3..]))
  }

  /** The coordinator invariant: the count is 0 exactly when no transaction runs, every
      finished group has the shape of `IsGroup`, and an open group has been rolled back
      physically exactly when the state says `Rollbacked`. */
  ghost predicate Inv<D>(s: Session<D>)
  {
    && s.tranCount >= 0
    && (s.running.None? <==> s.tranCount == 0)
    && (s.running.None? ==> Closed(s.log))
    && (s.running.Some? && s.tranState == Rollbacked ==>
          |s.log| >= 2 && Closed(s.log[..|s.log| - 2]) && s.log[|s.log| - 2..] == [PhysBegin, PhysRollback])
    && (s.running.Some? && s.tranState != Rollbacked ==>
          |s.log| >= 1 && Closed(s.log[..|s.log| - 1]) && s.log[|s.log| - 1] == PhysBegin)
  }

  lemma {:induction false} ClosedAppend(log: seq<PhysicalAction>, g: seq<PhysicalAction>)
    requires Closed(log) && IsGroup(g)
    ensures Closed(log + g)
    decreases |log|
  {
    if log == [] {
      assert log + g == g;
      assert g[..3] == g && g[3..] == [];
    } else {
      assert (log + g)[..3] == log[..3];
      assert (log + g)[3..] == log[3..] + g;
      ClosedAppend(log[3..], g);
    }
  }

  lemma IdleInv<D>(db: D)
    ensures Inv(Idle(db))
  {
  }

  lemma BeginKeepsInv<D>(s: Session<D>, fault: bool)
    requires Inv(s)
    ensures Inv(Begin(s, fault).next)
  {
    var n := Begin(s, fault).next;
    if s.running.None? && !fault {
      assert n.log[..|n.log| - 1] == s.log;
    }
  }

  lemma RollbackKeepsInv<D>(s: Session<D>)
    requires Inv(s)
    ensures Inv(Rollback(s).next)
  {
    if s.running.Some? {
      if s.tranState == Rollbacked {
        RepeatedRollbackKeepsInv(s);
      } else {
        FirstRollbackKeepsInv(s);
      }
    }
  }

  /** A rollback of a group already rolled back only counts down. */
  lemma RepeatedRollbackKeepsInv<D>(s: Session<D>)
    requires Inv(s) && s.running.Some? && s.tranState == Rollbacked
    ensures Inv(Rollback(s).next)
  {
    var n := Rollback(s).next;
    var pre := s.log[..|s.log| - 2];
    assert s.log == pre + [PhysBegin, PhysRollback];
    if s.tranCount == 1 {
      assert n.log == pre + [PhysBegin, PhysRollback, PhysDispose];
      ClosedAppend(pre, [PhysBegin, PhysRollback, PhysDispose]);
    } else {
      assert n.log == s.log;
    }
  }

  /** The first rollback of a group rolls back physically. */
  lemma FirstRollbackKeepsInv<D>(s: Session<D>)
    requires Inv(s) && s.running.Some? && s.tranState != Rollbacked
    ensures Inv(Rollback(s).next)
  {
    var n := Rollback(s).next;
    var pre := s.log[..|s.log| - 1];
    assert s.log == pre + [PhysBegin];
    if s.tranCount == 1 {
      assert n.log == pre + [PhysBegin, PhysRollback, PhysDispose];
      ClosedAppend(pre, [PhysBegin, PhysRollback, PhysDispose]);
    } else {
      assert n.log == pre + [PhysBegin, PhysRollback];
      assert n.log[..|n.log| - 2] == pre;
    }
  }

  lemma CommitKeepsInv<D>(s: Session<D>, fault: bool)
    requires Inv(s)
    ensures Inv(Commit(s, fault).next)
  {
    var r := Commit(s, fault);
    if r.outcome.Pass? {
      var pre := s.log[..|s.log| - 1];
      assert s.log == pre + [PhysBegin];
      if s.tranCount == 1 {
        assert r.next.log == pre + [PhysBegin, PhysCommit, PhysDispose];
        ClosedAppend(pre, [PhysBegin, PhysCommit, PhysDispose]);
      }
    }
  }

  // ---------------------------------------------------------------------------------------
  // Properties of the protocol

  /** The physical log, read position by position: every group is Begin, then one Commit or
      one Rollback, then Dispose. */
  ghost predicate Slotted(log: seq<PhysicalAction>)
  {
    forall k :: 0 <= k < |log| ==> SlotOk(log, k)
  }

  /** Position `k` of the log holds what its place in a group calls for. */
  ghost predicate SlotOk(log: seq<PhysicalAction>, k: int)
    requires 0 <= k < |log|
  {
    && (k % 3 == 0 ==> log[k] == PhysBegin)
    && (k % 3 == 1 ==> log[k] == PhysCommit || log[k] == PhysRollback)
    && (k % 3 == 2 ==> log[k] == PhysDispose)
  }

  lemma {:induction false} ClosedSlotted(log: seq<PhysicalAction>)
    requires Closed(log)
    ensures Slotted(log) && |log| % 3 == 0
    decreases |log|
  {
    if log != [] {
      var rest := log[3..];
      ClosedSlotted(rest);
      assert log == log[..3] + rest;
      forall k | 0 <= k < |log|
        ensures SlotOk(log, k)
      {
        if k < 3 {
          assert log[k] == log[..3][k];
        } else {
          ShiftMod3(k);
          assert log[k] == rest[k - 3];
          assert SlotOk(rest, k - 3);
        }
      }
    }
  }

  /** Moving back by one group keeps the position within a group. */
  lemma ShiftMod3(k: int)
    ensures (k - 3) % 3 == k % 3
  {
  }

  lemma SlottedAppendOpen(pre: seq<PhysicalAction>, tail: seq<PhysicalAction>)
    requires Slotted(pre) && |pre| % 3 == 0
    requires tail == [PhysBegin] || tail == [PhysBegin, PhysRollback]
    ensures Slotted(pre + tail)
  {
    var log := pre + tail;
    forall k | 0 <= k < |log|
      ensures SlotOk(log, k)
    {
      if k < |pre| {
        assert log[k] == pre[k];
        assert SlotOk(pre, k);
      } else {
        assert (k - |pre|) % 3 == k % 3;
      }
    }
  }

  lemma InvSlotted<D>(s: Session<D>)
    requires Inv(s)
    ensures Slotted(s.log)
  {
    if s.running.None? {
      ClosedSlotted(s.log);
    } else if s.tranState == Rollbacked {
      var pre := s.log[..|s.log| - 2];
      assert s.log == pre + [PhysBegin, PhysRollback];
      ClosedSlotted(pre);
      SlottedAppendOpen(pre, [PhysBegin, PhysRollback]);
    } else {
      var pre := s.log[..|s.log| - 1];
      assert s.log == pre + [PhysBegin];
      ClosedSlotted(pre);
      SlottedAppendOpen(pre, [PhysBegin]);
    }
  }

  /** The physical rollback is issued at most once per group: between any two physical
      rollbacks (or a commit and a rollback) a new physical transaction was begun. */
  lemma AtMostOneEndPerGroup<D>(s: Session<D>, i: int, j: int)
    requires Inv(s)
    requires 0 <= i < j < |s.log|
    requires s.log[i] in {PhysCommit, PhysRollback} && s.log[j] in {PhysCommit, PhysRollback}
    ensures i + 2 < j && s.log[i + 2] == PhysBegin
  {
    InvSlotted(s);
    assert SlotOk(s.log, i) && SlotOk(s.log, j);
    assert i % 3 == 1 && j % 3 == 1;
    SameSlotApart(i, j);
    assert SlotOk(s.log, i + 2);
  }

  /** Two positions with the same place in their groups are a whole group apart, and the
      position two after the middle of a group starts the next one. */
  lemma SameSlotApart(i: int, j: int)
    requires 0 <= i < j && i % 3 == 1 && j % 3 == 1
    ensures i + 3 <= j && (i + 2) % 3 == 0
  {
    assert i == 3 * (i / 3) + 1;
    assert j == 3 * (j / 3) + 1;
    assert i + 2 == 3 * (i / 3 + 1);
  }

  /** A physical commit is never issued in a group that was rolled back, and a group that
      was rolled back cannot commit any more: the outer `Commit` fails with "already rolled
      back", leaving the count as it was. */
  lemma DoomedGroupCannotCommit<D>(s: Session<D>, fault: bool)
    requires Inv(s) && s.running.Some?
    requires s.log[|s.log| - 1] == PhysRollback
    ensures Commit(s, fault) == Step(s, Fail(AlreadyRolledBack))
  {
  }

  /** Begin then Rollback, at any depth: exactly one group member is undone, the count is
      back, and when the Begin opened the physical transaction the data is back too. */
  lemma BeginRollbackRestores<D>(s: Session<D>)
    requires Inv(s) && (s.running.None? || s.tranState != Rollbacked)
    ensures var b := Begin(s, false).next;
            var r := Rollback(b);
            r.outcome.Pass? && r.next.tranCount == s.tranCount &&
            (s.running.None? ==> r.next.db == s.db && r.next.running.None?) &&
            (s.running.Some? ==> r.next.db == s.running.value && r.next.running == s.running)
  {
  }

  /** A member that begins inside a live group and writes `w` takes part in the caller's
      group: its commit only marks the group committed, and its rollback puts back the
      caller's snapshot and dooms the group, logging one physical rollback. Either way the
      count and the running transaction are the caller's again. */
  lemma NestedMemberInLiveGroup<D>(s: Session<D>, w: D, beginFault: bool, commitFault: bool)
    requires Inv(s) && s.running.Some? && s.tranState != Rollbacked
    ensures var written := Begin(s, beginFault).next.(db := w);
            && Begin(s, beginFault).outcome.Pass?
            && Commit(written, commitFault) == Step(s.(db := w, tranState := Committed), Pass)
            && Rollback(written) == Step(s.(db := s.running.value, tranState := Rollbacked,
                                            log := s.log + [PhysRollback]), Pass)
  {
  }

  /** A member of a live group that commits keeps the coordinator invariant. */
  lemma LiveMemberCommitKeepsInv<D>(s: Session<D>, w: D)
    requires Inv(s) && s.running.Some? && s.tranState != Rollbacked
    ensures Inv(s.(db := w, tranState := Committed))
  {
  }

  /** A member of a live group that rolls back keeps the coordinator invariant. */
  lemma LiveMemberRollbackKeepsInv<D>(s: Session<D>)
    requires Inv(s) && s.running.Some? && s.tranState != Rollbacked
    ensures Inv(s.(db := s.running.value, tranState := Rollbacked, log := s.log + [PhysRollback]))
  {
    var pre := s.log[..|s.log| - 1];
    assert s.log == pre + [PhysBegin];
    var log := s.log + [PhysRollback];
    assert log == pre + [PhysBegin, PhysRollback];
    assert log[..|log| - 2] == pre;
  }

  /** A member that begins inside a group already rolled back cannot commit, and its rollback
      changes nothing but the count: whatever it wrote stays, and nothing is logged. */
  lemma NestedMemberInDoomedGroup<D>(s: Session<D>, w: D, beginFault: bool, commitFault: bool)
    requires Inv(s) && s.running.Some? && s.tranState == Rollbacked
    ensures var written := Begin(s, beginFault).next.(db := w);
            && Begin(s, beginFault).outcome.Pass?
            && Commit(written, commitFault) == Step(written, Fail(AlreadyRolledBack))
            && Rollback(written) == Step(s.(db := w), Pass)
            && Inv(s.(db := w))
  {
  }

  /** Nested transaction atomicity: whatever an inner group member wrote (`write`) and
      committed at depth 2 is undone by the outer rollback. */
  lemma OuterRollbackUndoesInnerCommit<D>(s: Session<D>, write: D -> D)
    requires Inv(s) && s.running.None?
    ensures var outer := Begin(s, false).next;
            var inner := Begin(outer, false).next;
            var written := inner.(db := write(inner.db));
            var committed := Commit(written, false);
            var undone := Rollback(committed.next);
            committed.outcome.Pass? && undone.outcome.Pass? &&
            undone.next.db == s.db && undone.next.running.None? && undone.next.tranCount == 0
  {
  }

  /** After a finished group the next one starts afresh: with the state reset, an
      immediately committed group commits physically. */
  lemma FreshGroupCommits<D>(s: Session<D>)
    requires Inv(s) && s.running.None?
    ensures var b := Begin(s, false).next;
            Commit(b, false).outcome.Pass? && Commit(b, false).next.log == s.log + [PhysBegin, PhysCommit, PhysDispose]
  {
  }

  /** A physical commit that fails leaves the group open; the caller's rollback then closes
      it, rolls the data back and leaves the coordinator idle and consistent. */
  lemma FailedCommitRollsBackCleanly<D>(s: Session<D>)
    requires Inv(s) && s.running.Some? && s.tranCount == 1 && s.tranState != Rollbacked
    ensures var c := Commit(s, true);
            var r := Rollback(c.next);
            c.outcome == Fail(PhysicalFault) && r.outcome.Pass? &&
            r.next.running.None? && r.next.tranCount == 0 && r.next.db == s.running.value && Inv(r.next)
  {
    RollbackKeepsInv(s);
  }

  // ---------------------------------------------------------------------------------------
  // The coordinator as written

  /** As written, the state of a rolled back group survives into the next group: Begin,
      Rollback, Begin then Commit fails with "already rolled back" although the second group
      never rolled back. */
  lemma StaleStateDoomsNextGroup<D>(db: D)
    ensures var first := BeginAsWritten(Idle(db), false).next;
            var closed := Rollback(first).next;
            var second := BeginAsWritten(closed, false).next;
            closed.running.None? && closed.tranCount == 0 &&
            second.log == [PhysBegin, PhysRollback, PhysDispose, PhysBegin] &&
            Commit(second, false) == Step(second, Fail(AlreadyRolledBack))
  {
  }

  /** As written, a physical commit that throws has already brought the count to 0 while the
      transaction is still referenced; the caller's rollback brings it to -1, so the
      transaction is never disposed and the invariant is broken. */
  lemma FailedCommitUnbalancesCount<D>(db: D)
    ensures var begun := Begin(Idle(db), false).next;
            var c := CommitAsWritten(begun, true);
            var r := Rollback(c.next);
            c.outcome == Fail(PhysicalFault) && c.next.tranCount == 0 && c.next.running.Some? &&
            r.outcome.Pass? && r.next.tranCount == -1 && r.next.running.Some? && !Inv(r.next)
  {
  }
}
