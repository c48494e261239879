/**
 The transaction manager as an object whose operations run one at a time: each operation is exactly the
 steps it is made of, taken without an interruption.
 */
module TransactionManager {
  import opened Transactions

  const CHECKPOINT_CYCLE := 50000

  // ---- what the uninterrupted operations do to the state ----

  function AfterBegin(m: Manager, t: nat): Manager
    requires Enabled(m, BeginLatch(t))
  {
    Apply(Apply(Apply(m, BeginLatch(t)), BeginNumber(t)), BeginRun(t))
  }

  function CommitApplying(m: Manager, t: nat): Manager
    requires At(m, t, Running)
  {
    Apply(Apply(Apply(m, CommitCheck(t)), CommitNumber(t)), CommitApply(t))
  }

  function CommitFinishing(m: Manager, t: nat): Manager
    requires At(m, t, CommitApplied)
  {
    Apply(Apply(Apply(m, CommitState(t)), CommitDirty(t)), CommitUnlock(t))
  }

  function AfterCommit(m: Manager, t: nat): Manager
    requires At(m, t, Running)
  {
    CommitFinishing(CommitApplying(m, t), t)
  }

  function AfterRollback(m: Manager, t: nat): Manager
    requires Enabled(m, AbortRollback(t))
  {
    Apply(Apply(Apply(m, AbortRollback(t)), AbortState(t)), AbortUnlock(t))
  }

  function AfterCheckpoint(m: Manager): Manager
    requires Enabled(m, CheckpointLock)
  {
    Apply(Apply(Apply(m, CheckpointLock), CheckpointClean), CheckpointUnlock)
  }

  /** Between two operations nobody holds the latch exclusively, and every transaction is running or done. */
  ghost predicate Quiet(m: Manager) {
    && LatchInvariant(m) && NumberInvariant(m) && !m.exclusive
    && (forall t :: t in m.txns ==> t < m.cnt)
    && (forall t :: t in m.txns ==> m.txns[t].phase.Running? || m.txns[t].phase.CommitDone? || m.txns[t].phase.AbortDone?)
  }

  lemma QuietInitial()
    ensures Quiet(Initial())
  {
    assert Holders(Initial()) == {};
    forall key ensures !CountedKey(Initial(), key) {
      assert forall t :: !Counts(Initial(), t, key);
    }
  }

  lemma BothStep(m: Manager, step: Step)
    requires LatchInvariant(m) && NumberInvariant(m) && Enabled(m, step)
    ensures LatchInvariant(Apply(m, step)) && NumberInvariant(Apply(m, step))
  {
    LatchStep(m, step);
    NumberStep(m, step);
  }

  lemma BegunSteps(m: Manager, t: nat)
    requires Enabled(m, BeginLatch(t))
    ensures AfterBegin(m, t) == m.(txns := m.txns[t := Txn(Running, m.cnt, m.cnt, {})], cnt := m.cnt + 1, shared := m.shared + 1)
  {
  }

  lemma BegunKeeps(m: Manager, t: nat)
    requires Enabled(m, BeginLatch(t)) && LatchInvariant(m) && NumberInvariant(m)
    ensures LatchInvariant(AfterBegin(m, t)) && NumberInvariant(AfterBegin(m, t))
  {
    var latched := Apply(m, BeginLatch(t));
    BothStep(m, BeginLatch(t));
    var numbered := Apply(latched, BeginNumber(t));
    BothStep(latched, BeginNumber(t));
    BothStep(numbered, BeginRun(t));
  }

  lemma QuietBegun(m: Manager)
    requires Quiet(m)
    ensures Enabled(m, BeginLatch(m.cnt)) && Quiet(AfterBegin(m, m.cnt))
  {
    BegunSteps(m, m.cnt);
    BegunKeeps(m, m.cnt);
  }

  lemma Applying(m: Manager, t: nat)
    requires At(m, t, Running)
    ensures CommitApplying(m, t) == m.(txns := m.txns[t := m.txns[t].(phase := CommitApplied, cid := m.cnt)])
    ensures LatchInvariant(m) && NumberInvariant(m) ==> LatchInvariant(CommitApplying(m, t)) && NumberInvariant(CommitApplying(m, t))
  {
    var checked := Apply(m, CommitCheck(t));
    var numbered := Apply(checked, CommitNumber(t));
    if LatchInvariant(m) && NumberInvariant(m) {
      BothStep(m, CommitCheck(t));
      BothStep(checked, CommitNumber(t));
      BothStep(numbered, CommitApply(t));
    }
  }

  lemma Finishing(m: Manager, t: nat)
    requires At(m, t, CommitApplied)
    ensures CommitFinishing(m, t) ==
              Unlock(m.(txns := m.txns[t := m.txns[t].(phase := CommitDone)], dirtyKeys := m.dirtyKeys + m.txns[t].writeSet))
  {
  }

  lemma FinishingKeeps(m: Manager, t: nat)
    requires At(m, t, CommitApplied) && LatchInvariant(m) && NumberInvariant(m)
    ensures LatchInvariant(CommitFinishing(m, t)) && NumberInvariant(CommitFinishing(m, t))
  {
    var committed := Apply(m, CommitState(t));
    BothStep(m, CommitState(t));
    var dirty := Apply(committed, CommitDirty(t));
    BothStep(committed, CommitDirty(t));
    BothStep(dirty, CommitUnlock(t));
  }

  lemma QuietCommitted(m: Manager, t: nat)
    requires Quiet(m) && At(m, t, Running)
    ensures Quiet(AfterCommit(m, t))
    ensures AfterCommit(m, t) ==
              Unlock(m.(txns := m.txns[t := m.txns[t].(phase := CommitDone, cid := m.cnt)], dirtyKeys := m.dirtyKeys + m.txns[t].writeSet))
  {
    Applying(m, t);
    Finishing(CommitApplying(m, t), t);
    FinishingKeeps(CommitApplying(m, t), t);
    assert CommitApplying(m, t).txns[t := CommitApplying(m, t).txns[t].(phase := CommitDone)] ==
           m.txns[t := m.txns[t].(phase := CommitDone, cid := m.cnt)];
  }

  lemma UndoneSteps(m: Manager, t: nat)
    requires Enabled(m, AbortRollback(t))
    ensures AfterRollback(m, t) == Unlock(WithPhase(m, t, AbortDone))
  {
  }

  lemma UndoneKeeps(m: Manager, t: nat)
    requires Enabled(m, AbortRollback(t)) && LatchInvariant(m) && NumberInvariant(m)
    ensures LatchInvariant(AfterRollback(m, t)) && NumberInvariant(AfterRollback(m, t))
  {
    var rolled := Apply(m, AbortRollback(t));
    BothStep(m, AbortRollback(t));
    var aborted := Apply(rolled, AbortState(t));
    BothStep(rolled, AbortState(t));
    BothStep(aborted, AbortUnlock(t));
  }

  lemma QuietRolledBack(m: Manager, t: nat)
    requires Quiet(m) && At(m, t, Running)
    ensures Quiet(AfterRollback(m, t))
  {
    UndoneSteps(m, t);
    UndoneKeeps(m, t);
  }

  /** What a rollback changes: the transaction is aborted and no longer holds the latch; no key becomes dirty. */
  ghost predicate UndoneFor(m: Manager, t: nat, after: Manager) {
    && t in after.txns && after.txns[t].phase.State() == ABORTED && Holders(after) == Holders(m) - {t} && after.dirtyKeys == m.dirtyKeys
  }

  lemma RollbackUndoes(m: Manager, t: nat)
    requires Quiet(m) && At(m, t, Running)
    ensures UndoneFor(m, t, AfterRollback(m, t))
  {
    UndoneSteps(m, t);
  }

  lemma QuietFailed(m: Manager, t: nat)
    requires Quiet(m) && At(m, t, Running)
    ensures Quiet(AfterRollback(Apply(m, FailQuery(t)), t))
  {
    BothStep(m, FailQuery(t));
    UndoneSteps(Apply(m, FailQuery(t)), t);
    UndoneKeeps(Apply(m, FailQuery(t)), t);
  }

  lemma QuietUpdated(m: Manager, t: nat, keys: set<Key>)
    requires Quiet(m) && At(m, t, Running)
    ensures Quiet(Apply(m, Update(t, keys)))
  {
    BothStep(m, Update(t, keys));
  }

  lemma QuietCheckpointed(m: Manager)
    requires Quiet(m) && m.shared == 0
    ensures AfterCheckpoint(m) == m.(cleaned := m.dirtyKeys) && Quiet(AfterCheckpoint(m))
  {
    var locked := Apply(m, CheckpointLock);
    BothStep(m, CheckpointLock);
    var cleaned := Apply(locked, CheckpointClean);
    BothStep(locked, CheckpointClean);
    BothStep(cleaned, CheckpointUnlock);
  }

  /** Without a database a commit only numbers its transaction, which goes on running, and gives up its hold of the latch. */
  function LostCommit(m: Manager, t: nat): Manager
    requires At(m, t, Running)
  {
    Unlock(m.(txns := m.txns[t := m.txns[t].(cid := m.cnt)]))
  }

  /** After a commit without a database a checkpoint waits for one transaction fewer than are running. */
  lemma LostCommitBreaksLatch(m: Manager, t: nat)
    requires Quiet(m) && At(m, t, Running)
    ensures At(LostCommit(m, t), t, Running) && Holders(LostCommit(m, t)) == Holders(m)
    ensures LostCommit(m, t).shared == |Holders(m)| - 1 && !LatchInvariant(LostCommit(m, t))
  {
    assert t in Holders(m) && {t} <= Holders(m);
    assert |Holders(m)| == |Holders(m) - {t}| + 1;
  }

  class TxnManager {
    const hasDatabase: bool
    var state: Manager
    var committedNum: nat

    constructor (hasDatabase: bool)
      ensures this.hasDatabase == hasDatabase
      ensures state == Initial() && committedNum == 0 && Quiet(state)
    {
      QuietInitial();
      this.hasDatabase := hasDatabase;
      state := Initial();
      committedNum := 0;
    }

    /** Numbers a new transaction and starts it, holding the latch shared until it is over. */
    method Begin() returns (tid: nat)
      requires Quiet(state)
      modifies `state
      ensures tid == old(state.cnt) && Enabled(old(state), BeginLatch(tid))
      ensures state == AfterBegin(old(state), tid) && Quiet(state)
      ensures At(state, tid, Running) && state.txns[tid].tid == tid && state.txns[tid].writeSet == {}
    {
      QuietBegun(state);
      tid := state.cnt;
      state := state.(shared := state.shared + 1);
      state := state.(cnt := state.cnt + 1);
      state := state.(txns := state.txns[tid := Txn(Running, tid, tid, {})]);
    }

    /**
     Commits a running transaction; the checkpoint that every CHECKPOINT_CYCLE-th commit asks for waits
     until nobody is running, so here it is left to the caller. On a transaction that is unknown or over the call fails and gives up
     somebody else's hold of the latch; without a database it fails and gives up the transaction's own.
     */
    method Commit(t: nat) returns (code: int, checkpoint: bool)
      requires Quiet(state)
      modifies this
      ensures code == 0 <==> hasDatabase && At(old(state), t, Running)
      ensures code == 0 ==> state == AfterCommit(old(state), t) && Quiet(state)
      ensures code == 0 ==> state.txns[t].phase.State() == COMMITTED && Holders(state) == Holders(old(state)) - {t}
                            && state.dirtyKeys == old(state).dirtyKeys + old(state).txns[t].writeSet
      ensures code == 1 <==> t in old(state).txns && !At(old(state), t, Running)
      ensures code == 0 || code == -1 || code == 1
      ensures !At(old(state), t, Running) ==> state == WrongCommit(old(state))
      ensures At(old(state), t, Running) && !hasDatabase ==> state == LostCommit(old(state), t)
      ensures code != 0 ==> !checkpoint && committedNum == old(committedNum)
      ensures code == 0 ==> checkpoint == (old(committedNum) + 1 == CHECKPOINT_CYCLE)
      ensures code == 0 ==> committedNum == if checkpoint then 0 else old(committedNum) + 1
    {
      checkpoint := false;
      if t !in state.txns {
        state := Unlock(state);
        return -1, false;
      }
      if state.txns[t].phase.State() != RUNNING {
        state := Unlock(state);
        return 1, false;
      }
      ghost var before := state;
      state := state.(txns := state.txns[t := state.txns[t].(cid := state.cnt)]);
      if !hasDatabase {
        state := Unlock(state);
        return -1, false;
      }
      QuietCommitted(before, t);
      FinishCommit(before, t);
      committedNum := committedNum + 1;
      if committedNum == CHECKPOINT_CYCLE {
        committedNum := 0;
        checkpoint := true;
      }
      code := 0;
    }

    /** The rest of a commit once the database has taken the updates over. */
    method FinishCommit(ghost before: Manager, t: nat)
      requires At(before, t, Running) && state == before.(txns := before.txns[t := before.txns[t].(cid := before.cnt)])
      modifies `state
      ensures state == Unlock(before.(txns := before.txns[t := before.txns[t].(phase := CommitDone, cid := before.cnt)],
                                      dirtyKeys := before.dirtyKeys + before.txns[t].writeSet))
    {
      state := WithPhase(state, t, CommitDone);
      assert state.txns == before.txns[t := before.txns[t].(phase := CommitDone, cid := before.cnt)];
      state := state.(dirtyKeys := state.dirtyKeys + state.txns[t].writeSet);
      state := Unlock(state);
    }

    /** Undoes a transaction that is running or whose query failed; without a database nothing is done. */
    method Abort(t: nat) returns (code: int)
      requires Enabled(state, AbortRollback(t))
      modifies `state
      ensures code == if hasDatabase then 0 else -1
      ensures state == if hasDatabase then AfterRollback(old(state), t) else old(state)
    {
      if !hasDatabase {
        return -1;
      }
      UndoneSteps(state, t);
      state := WithPhase(state, t, AbortDone);
      state := Unlock(state);
      code := 0;
    }

    /** Gives up a running transaction; anything else is refused and nothing changes. */
    method Rollback(t: nat) returns (code: int)
      requires Quiet(state)
      modifies `state
      ensures code == 0 <==> hasDatabase && At(old(state), t, Running)
      ensures code == 0 ==> state == AfterRollback(old(state), t)
      ensures code == 0 ==> UndoneFor(old(state), t, state)
      ensures code == 1 <==> t in old(state).txns && !At(old(state), t, Running)
      ensures code == 0 || code == -1 || code == 1
      ensures code != 0 ==> state == old(state)
      ensures Quiet(state)
    {
      if t !in state.txns {
        return -1;
      }
      if state.txns[t].phase.State() != RUNNING {
        return 1;
      }
      code := RollbackRunning(t);
    }

    method RollbackRunning(t: nat) returns (code: int)
      requires Quiet(state) && At(state, t, Running)
      modifies `state
      ensures code == if hasDatabase then 0 else -1
      ensures state == if hasDatabase then AfterRollback(old(state), t) else old(state)
      ensures hasDatabase ==> UndoneFor(old(state), t, state)
      ensures Quiet(state)
    {
      QuietRolledBack(state, t);
      RollbackUndoes(state, t);
      code := Abort(t);
    }

    /** Runs a statement that writes the given keys; one that fails on a conflict takes its transaction down with it. */
    method Query(t: nat, keys: set<Key>, conflict: bool, answer: int) returns (code: int)
      requires Quiet(state)
      modifies `state
      ensures Quiet(state)
      ensures t !in old(state).txns ==> code == -1 && state == old(state)
      ensures t in old(state).txns && !At(old(state), t, Running) ==> code == -99 && state == old(state)
      ensures At(old(state), t, Running) && !hasDatabase ==> code == -10 && state == old(state)
      ensures At(old(state), t, Running) && hasDatabase && !conflict ==> code == answer && state == Apply(old(state), Update(t, keys))
      ensures At(old(state), t, Running) && hasDatabase && conflict ==>
                code == -20 && state == AfterRollback(Apply(Apply(old(state), Update(t, keys)), FailQuery(t)), t)
      ensures At(old(state), t, Running) && hasDatabase ==>
                t in state.txns && state.txns[t].writeSet == old(state).txns[t].writeSet + keys
                && state.txns[t].phase.State() == (if conflict then ABORTED else RUNNING)
    {
      if t !in state.txns {
        return -1;
      }
      if state.txns[t].phase.State() != RUNNING {
        return -99;
      }
      if !hasDatabase {
        return -10;
      }
      QuietUpdated(state, t, keys);
      state := state.(txns := state.txns[t := state.txns[t].(writeSet := state.txns[t].writeSet + keys)]);
      if !conflict {
        return answer;
      }
      FailStatement(t);
      code := -20;
    }

    /** A statement has failed on a conflict: its transaction is aborted. */
    method FailStatement(t: nat)
      requires Quiet(state) && At(state, t, Running) && hasDatabase
      modifies `state
      ensures Quiet(state) && state == AfterRollback(Apply(old(state), FailQuery(t)), t)
      ensures t in state.txns && state.txns[t].writeSet == old(state).txns[t].writeSet && state.txns[t].phase.State() == ABORTED
    {
      QuietFailed(state, t);
      UndoneSteps(Apply(state, FailQuery(t)), t);
      state := WithPhase(state, t, QueryFailed);
      var _ := Abort(t);
    }

    /** Cleans the versions of every dirty key, once no transaction holds the latch. Without a database nothing is cleaned. */
    method Checkpoint()
      requires Quiet(state) && state.shared == 0
      modifies `state
      ensures Quiet(state)
      ensures hasDatabase ==> state == AfterCheckpoint(old(state))
      ensures hasDatabase ==> Holders(state) == {} && forall key :: key in state.cleaned <==> CountedKey(state, key)
      ensures !hasDatabase ==> state == old(state)
    {
      QuietCheckpointed(state);
      state := state.(exclusive := true);
      if hasDatabase {
        state := state.(cleaned := state.dirtyKeys);
      }
      state := Unlock(state);
      assert |Holders(state)| == 0;
    }
  }
}
