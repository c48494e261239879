/**
 The transaction manager as interleaved steps: every transaction runs Begin, queries, and Commit or
 Rollback one latch, counter or state operation at a time; checkpoints take the latch exclusively.
 */
module Transactions {

  datatype TransactionState = WAITING | RUNNING | COMMITTED | ABORTED

  /** How far a transaction has got. */
  datatype Phase =
    | Latched | Numbered | Running | QueryFailed
    | CommitChecked | CommitNumbered | CommitApplied | CommittedState | DirtyAdded | CommitDone
    | RolledBack(failed: bool) | AbortedState | AbortDone
  {
    function State(): TransactionState {
      match this
      case Latched => WAITING
      case Numbered => WAITING
      case Running => RUNNING
      case QueryFailed => ABORTED
      case CommitChecked => RUNNING
      case CommitNumbered => RUNNING
      case CommitApplied => RUNNING
      case CommittedState => COMMITTED
      case DirtyAdded => COMMITTED
      case CommitDone => COMMITTED
      case RolledBack(failed) => if failed then ABORTED else RUNNING
      case AbortedState => ABORTED
      case AbortDone => ABORTED
    }

    /** Begun and not finished. */
    predicate Unfinished() {
      !CommitDone? && !AbortDone?
    }

    predicate HasTid() {
      !Latched?
    }

    predicate HasCid() {
      CommitNumbered? || CommitApplied? || CommittedState? || DirtyAdded? || CommitDone?
    }

    /** Its keys have been added to the dirty keys. */
    predicate Counted() {
      DirtyAdded? || CommitDone?
    }
  }

  /** A key written by a transaction: a subject, a predicate or an object of one of its triples. */
  datatype Key = Subject(id: nat) | Predicate(id: nat) | Object(id: nat)

  datatype Txn = Txn(phase: Phase, tid: nat, cid: nat, writeSet: set<Key>)

  /** The checkpoint latch as a read-write lock: how many hold it shared, and whether one holds it exclusively. */
  datatype Manager = Manager(txns: map<nat, Txn>, cnt: nat, shared: nat, exclusive: bool, dirtyKeys: set<Key>, cleaned: set<Key>)

  datatype Step =
    | BeginLatch(t: nat) | BeginNumber(t: nat) | BeginRun(t: nat)
    | Update(t: nat, keys: set<Key>) | FailQuery(t: nat)
    | CommitCheck(t: nat) | CommitNumber(t: nat) | CommitApply(t: nat) | CommitState(t: nat) | CommitDirty(t: nat) | CommitUnlock(t: nat)
    | AbortRollback(t: nat) | AbortState(t: nat) | AbortUnlock(t: nat)
    | CheckpointLock | CheckpointClean | CheckpointUnlock

  function Initial(): Manager {
    Manager(map[], 1, 0, false, {}, {})
  }

  function WithPhase(m: Manager, t: nat, phase: Phase): Manager
    requires t in m.txns
  {
    m.(txns := m.txns[t := m.txns[t].(phase := phase)])
  }

  predicate At(m: Manager, t: nat, phase: Phase) {
    t in m.txns && m.txns[t].phase == phase
  }

  /** Whether a step can be taken. A commit is only started on a running transaction. */
  predicate Enabled(m: Manager, step: Step) {
    match step
    case BeginLatch(t) => t !in m.txns && !m.exclusive
    case BeginNumber(t) => At(m, t, Latched)
    case BeginRun(t) => At(m, t, Numbered)
    case Update(t, _) => At(m, t, Running)
    case FailQuery(t) => At(m, t, Running)
    case CommitCheck(t) => At(m, t, Running)
    case CommitNumber(t) => At(m, t, CommitChecked)
    case CommitApply(t) => At(m, t, CommitNumbered)
    case CommitState(t) => At(m, t, CommitApplied)
    case CommitDirty(t) => At(m, t, CommittedState)
    case CommitUnlock(t) => At(m, t, DirtyAdded)
    case AbortRollback(t) => At(m, t, Running) || At(m, t, QueryFailed)
    case AbortState(t) => t in m.txns && m.txns[t].phase.RolledBack?
    case AbortUnlock(t) => At(m, t, AbortedState)
    case CheckpointLock => m.shared == 0 && !m.exclusive
    case CheckpointClean => m.exclusive
    case CheckpointUnlock => m.exclusive
  }

  /** Unlocking gives up the exclusive hold if there is one, and otherwise one shared hold. */
  function Unlock(m: Manager): Manager {
    if m.exclusive then m.(exclusive := false) else if m.shared == 0 then m else m.(shared := m.shared - 1)
  }

  function Apply(m: Manager, step: Step): Manager
    requires Enabled(m, step)
  {
    match step
    case BeginLatch(t) => m.(txns := m.txns[t := Txn(Latched, 0, 0, {})], shared := m.shared + 1)
    case BeginNumber(t) => m.(txns := m.txns[t := m.txns[t].(phase := Numbered, tid := m.cnt)], cnt := m.cnt + 1)
    case BeginRun(t) => m.(txns := m.txns[t := m.txns[t].(phase := Running, cid := m.txns[t].tid)])
    case Update(t, keys) => m.(txns := m.txns[t := m.txns[t].(writeSet := m.txns[t].writeSet + keys)])
    case FailQuery(t) => WithPhase(m, t, QueryFailed)
    case CommitCheck(t) => WithPhase(m, t, CommitChecked)
    case CommitNumber(t) => m.(txns := m.txns[t := m.txns[t].(phase := CommitNumbered, cid := m.cnt)])
    case CommitApply(t) => WithPhase(m, t, CommitApplied)
    case CommitState(t) => WithPhase(m, t, CommittedState)
    case CommitDirty(t) => WithPhase(m, t, DirtyAdded).(dirtyKeys := m.dirtyKeys + m.txns[t].writeSet)
    case CommitUnlock(t) => Unlock(WithPhase(m, t, CommitDone))
    case AbortRollback(t) => WithPhase(m, t, RolledBack(m.txns[t].phase.QueryFailed?))
    case AbortState(t) => WithPhase(m, t, AbortedState)
    case AbortUnlock(t) => Unlock(WithPhase(m, t, AbortDone))
    case CheckpointLock => m.(exclusive := true)
    case CheckpointClean => m.(cleaned := m.dirtyKeys)
    case CheckpointUnlock => Unlock(m)
  }

  predicate Leads(before: Manager, step: Step, after: Manager) {
    Enabled(before, step) && after == Apply(before, step)
  }

  ghost predicate Follows(before: Manager, after: Manager) {
    exists step :: Leads(before, step, after)
  }

  ghost predicate FollowsAt(run: seq<Manager>, i: nat)
    requires 0 < i < |run|
  {
    Follows(run[i - 1], run[i])
  }

  /** A run: every state follows from the one before by an enabled step. */
  ghost predicate IsRun(run: seq<Manager>) {
    |run| > 0 && run[0] == Initial() && forall i :: 0 < i < |run| ==> FollowsAt(run, i)
  }

  // ---- the latch and the dirty keys ----

  function Holders(m: Manager): set<nat> {
    set t | t in m.txns && m.txns[t].phase.Unfinished()
  }

  ghost predicate CommittedKey(m: Manager, key: Key) {
    exists t :: t in m.txns && m.txns[t].phase.State() == COMMITTED && key in m.txns[t].writeSet
  }

  predicate Counts(m: Manager, t: nat, key: Key) {
    t in m.txns && m.txns[t].phase.Counted() && key in m.txns[t].writeSet
  }

  ghost predicate CountedKey(m: Manager, key: Key) {
    exists t :: Counts(m, t, key)
  }

  /** The latch is held shared once by every unfinished transaction, never together with an exclusive holder, and the dirty keys are those of the counted transactions. */
  ghost predicate LatchInvariant(m: Manager) {
    && m.shared == |Holders(m)| && (m.exclusive ==> m.shared == 0)
    && (forall key :: key in m.dirtyKeys <==> CountedKey(m, key))
  }

  ghost predicate NumberInvariant(m: Manager) {
    && (forall t :: t in m.txns && m.txns[t].phase.HasTid() ==> m.txns[t].tid < m.cnt)
    && (forall t :: t in m.txns && m.txns[t].phase.HasCid() ==> m.txns[t].tid < m.txns[t].cid <= m.cnt)
  }

  lemma HoldersAfter(m: Manager, step: Step)
    requires Enabled(m, step)
    ensures Holders(Apply(m, step)) ==
              if step.BeginLatch? then Holders(m) + {step.t}
              else if step.CommitUnlock? || step.AbortUnlock? then Holders(m) - {step.t}
              else Holders(m)
    ensures step.BeginLatch? ==> step.t !in Holders(m)
    ensures step.CommitUnlock? || step.AbortUnlock? ==> step.t in Holders(m)
  {
  }

  lemma CountsAfter(m: Manager, step: Step, t: nat, key: Key)
    requires Enabled(m, step)
    ensures Counts(Apply(m, step), t, key) <==>
              Counts(m, t, key) || (step.CommitDirty? && t == step.t && key in m.txns[t].writeSet)
  {
  }

  lemma DirtyKeysAfter(m: Manager, step: Step, key: Key)
    requires Enabled(m, step)
    ensures CountedKey(Apply(m, step), key) <==> CountedKey(m, key) || (step.CommitDirty? && key in m.txns[step.t].writeSet)
  {
    if CountedKey(m, key) {
      var t :| Counts(m, t, key);
      CountsAfter(m, step, t, key);
    }
    if CountedKey(Apply(m, step), key) {
      var t :| Counts(Apply(m, step), t, key);
      CountsAfter(m, step, t, key);
    }
    if step.CommitDirty? {
      CountsAfter(m, step, step.t, key);
    }
  }

  lemma SharedAfter(m: Manager, step: Step)
    requires m.shared == |Holders(m)| && (m.exclusive ==> m.shared == 0) && Enabled(m, step)
    ensures Apply(m, step).shared == |Holders(Apply(m, step))|
    ensures Apply(m, step).exclusive ==> Apply(m, step).shared == 0
  {
    HoldersAfter(m, step);
    if step.BeginLatch? {
      AddedSize(Holders(m), step.t);
    } else if step.CommitUnlock? || step.AbortUnlock? {
      RemovedSize(Holders(m), step.t);
    }
  }

  lemma AddedSize(s: set<nat>, t: nat)
    requires t !in s
    ensures |s + {t}| == |s| + 1
  {
  }

  lemma RemovedSize(s: set<nat>, t: nat)
    requires t in s
    ensures |s| > 0 && |s - {t}| == |s| - 1
  {
  }

  lemma LatchStep(m: Manager, step: Step)
    requires LatchInvariant(m) && Enabled(m, step)
    ensures LatchInvariant(Apply(m, step))
  {
    SharedAfter(m, step);
    forall key ensures key in Apply(m, step).dirtyKeys <==> CountedKey(Apply(m, step), key) {
      DirtyKeysAfter(m, step, key);
    }
  }

  lemma NumberStep(m: Manager, step: Step)
    requires NumberInvariant(m) && Enabled(m, step)
    ensures NumberInvariant(Apply(m, step))
  {
    forall t | t in Apply(m, step).txns
      ensures Apply(m, step).txns[t].phase.HasTid() ==> Apply(m, step).txns[t].tid < Apply(m, step).cnt
      ensures Apply(m, step).txns[t].phase.HasCid() ==> Apply(m, step).txns[t].tid < Apply(m, step).txns[t].cid <= Apply(m, step).cnt
    {
      NumbersOfOne(m, step, t);
    }
  }

  lemma NumbersOfOne(m: Manager, step: Step, t: nat)
    requires NumberInvariant(m) && Enabled(m, step) && t in Apply(m, step).txns
    ensures Apply(m, step).txns[t].phase.HasTid() ==> Apply(m, step).txns[t].tid < Apply(m, step).cnt
    ensures Apply(m, step).txns[t].phase.HasCid() ==> Apply(m, step).txns[t].tid < Apply(m, step).txns[t].cid <= Apply(m, step).cnt
  {
  }

  lemma StepTo(run: seq<Manager>, i: nat) returns (step: Step)
    requires IsRun(run) && 0 < i < |run|
    ensures Enabled(run[i - 1], step) && run[i] == Apply(run[i - 1], step)
  {
    assert FollowsAt(run, i);
    step :| Leads(run[i - 1], step, run[i]);
  }

  lemma {:induction false} RunInvariant(run: seq<Manager>, i: nat)
    requires IsRun(run) && i < |run|
    ensures LatchInvariant(run[i]) && NumberInvariant(run[i])
  {
    if i == 0 {
      assert Holders(Initial()) == {};
    } else {
      RunInvariant(run, i - 1);
      var step := StepTo(run, i);
      LatchStep(run[i - 1], step);
      NumberStep(run[i - 1], step);
    }
  }

  /**
   Whenever a checkpoint holds the latch, no transaction is unfinished and the dirty keys it reads are
   exactly the keys written by the committed transactions.
   */
  lemma CheckpointSeesAllCommitted(run: seq<Manager>, i: nat)
    requires IsRun(run) && i < |run| && run[i].exclusive
    ensures Holders(run[i]) == {}
    ensures forall key :: key in run[i].dirtyKeys <==> CommittedKey(run[i], key)
  {
    var m := run[i];
    RunInvariant(run, i);
    assert |Holders(m)| == 0;
    forall key ensures CountedKey(m, key) <==> CommittedKey(m, key) {
      if CountedKey(m, key) {
        var t :| Counts(m, t, key);
        assert m.txns[t].phase.State() == COMMITTED;
      }
      if CommittedKey(m, key) {
        var t :| t in m.txns && m.txns[t].phase.State() == COMMITTED && key in m.txns[t].writeSet;
        assert t !in Holders(m);
        assert Counts(m, t, key);
      }
    }
  }

  // ---- what a run has written ----

  /** A run together with the steps that were taken. */
  ghost predicate IsTrace(run: seq<Manager>, steps: seq<Step>) {
    && |run| == |steps| + 1 && run[0] == Initial()
    && forall i :: 0 <= i < |steps| ==> StepLeads(run, steps, i)
  }

  ghost predicate StepLeads(run: seq<Manager>, steps: seq<Step>, i: nat)
    requires i < |steps| && |run| == |steps| + 1
  {
    Leads(run[i], steps[i], run[i + 1])
  }

  lemma TraceIsRun(run: seq<Manager>, steps: seq<Step>)
    requires IsTrace(run, steps)
    ensures IsRun(run)
  {
    forall i | 0 < i < |run| ensures FollowsAt(run, i) {
      assert StepLeads(run, steps, i - 1);
    }
  }

  /** A step writes a key for a transaction. */
  predicate Writes(step: Step, t: nat, key: Key) {
    step.Update? && step.t == t && key in step.keys
  }

  /** One of the first steps has written the key for the transaction. */
  ghost predicate Wrote(steps: seq<Step>, n: nat, t: nat, key: Key) {
    exists i :: 0 <= i < n && i < |steps| && Writes(steps[i], t, key)
  }

  /** One of the first steps has made the transaction committed. */
  ghost predicate Committed(steps: seq<Step>, n: nat, t: nat) {
    exists i :: 0 <= i < n && i < |steps| && steps[i] == CommitState(t)
  }

  lemma WroteNext(steps: seq<Step>, n: nat, t: nat, key: Key)
    requires n < |steps|
    ensures Wrote(steps, n + 1, t, key) <==> Wrote(steps, n, t, key) || Writes(steps[n], t, key)
  {
    if Wrote(steps, n + 1, t, key) {
      var i :| 0 <= i < n + 1 && Writes(steps[i], t, key);
    }
  }

  lemma CommittedNext(steps: seq<Step>, n: nat, t: nat)
    requires n < |steps|
    ensures Committed(steps, n + 1, t) <==> Committed(steps, n, t) || steps[n] == CommitState(t)
  {
    if Committed(steps, n + 1, t) {
      var i :| 0 <= i < n + 1 && steps[i] == CommitState(t);
    }
  }

  /** What a transaction's record says of the steps taken so far. */
  ghost predicate Recorded(m: Manager, steps: seq<Step>, n: nat, t: nat, key: Key) {
    && (Wrote(steps, n, t, key) <==> t in m.txns && key in m.txns[t].writeSet)
    && (Committed(steps, n, t) <==> t in m.txns && m.txns[t].phase.State() == COMMITTED)
  }

  lemma RecordedNext(run: seq<Manager>, steps: seq<Step>, n: nat, t: nat, key: Key)
    requires |run| == |steps| + 1 && n < |steps| && StepLeads(run, steps, n) && Recorded(run[n], steps, n, t, key)
    ensures Recorded(run[n + 1], steps, n + 1, t, key)
  {
    WroteNext(steps, n, t, key);
    CommittedNext(steps, n, t);
    RecordAfter(run[n], steps[n], t, key);
  }

  lemma RecordAfter(m: Manager, step: Step, t: nat, key: Key)
    requires Enabled(m, step)
    ensures var after := Apply(m, step);
            && (t in after.txns && key in after.txns[t].writeSet <==> (t in m.txns && key in m.txns[t].writeSet) || Writes(step, t, key))
            && (t in after.txns && after.txns[t].phase.State() == COMMITTED <==>
                (t in m.txns && m.txns[t].phase.State() == COMMITTED) || step == CommitState(t))
  {
  }

  /** The records are right at every moment of every run: nothing written is forgotten, and nothing else is recorded. */
  lemma {:induction false} RecordsRight(run: seq<Manager>, steps: seq<Step>, n: nat, t: nat, key: Key)
    requires IsTrace(run, steps) && n < |run|
    ensures Recorded(run[n], steps, n, t, key)
  {
    if n > 0 {
      RecordsRight(run, steps, n - 1, t, key);
      assert StepLeads(run, steps, n - 1);
      RecordedNext(run, steps, n - 1, t, key);
    }
  }

  /** Some step so far has written the key, for a transaction that has committed. */
  ghost predicate WrittenAndCommitted(steps: seq<Step>, n: nat, key: Key) {
    exists t :: Wrote(steps, n, t, key) && Committed(steps, n, t)
  }

  /**
   Whenever a checkpoint holds the latch, the dirty keys are exactly those that some earlier step has
   written for a transaction that has committed by then.
   */
  lemma CheckpointFindsWrites(run: seq<Manager>, steps: seq<Step>, n: nat)
    requires IsTrace(run, steps) && n < |run| && run[n].exclusive
    ensures forall key :: key in run[n].dirtyKeys <==> WrittenAndCommitted(steps, n, key)
  {
    TraceIsRun(run, steps);
    CheckpointSeesAllCommitted(run, n);
    forall key ensures CommittedKey(run[n], key) <==> WrittenAndCommitted(steps, n, key) {
      if CommittedKey(run[n], key) {
        var t :| t in run[n].txns && run[n].txns[t].phase.State() == COMMITTED && key in run[n].txns[t].writeSet;
        RecordsRight(run, steps, n, t, key);
        assert Wrote(steps, n, t, key) && Committed(steps, n, t);
      }
      if WrittenAndCommitted(steps, n, key) {
        var t :| Wrote(steps, n, t, key) && Committed(steps, n, t);
        RecordsRight(run, steps, n, t, key);
      }
    }
  }

  /** And these are the keys it cleans. */
  lemma CheckpointCleansWrites(run: seq<Manager>, steps: seq<Step>, n: nat)
    requires IsTrace(run, steps) && n < |steps| && steps[n].CheckpointClean?
    ensures forall key :: key in run[n + 1].cleaned <==> WrittenAndCommitted(steps, n, key)
  {
    assert StepLeads(run, steps, n);
    CheckpointFindsWrites(run, steps, n);
  }

  // ---- final states ----

  predicate Final(s: TransactionState) {
    s == COMMITTED || s == ABORTED
  }

  lemma FinalStep(m: Manager, step: Step, t: nat)
    requires Enabled(m, step) && t in m.txns
    ensures t in Apply(m, step).txns
    ensures Final(m.txns[t].phase.State()) ==> Apply(m, step).txns[t].phase.State() == m.txns[t].phase.State()
    ensures m.txns[t].phase.State() == COMMITTED ==> Apply(m, step).txns[t].writeSet == m.txns[t].writeSet
  {
  }

  /** What may become of a transaction from one state of a run to a later one. */
  predicate FinalKept(before: Manager, after: Manager, t: nat)
    requires t in before.txns
  {
    && t in after.txns
    && (Final(before.txns[t].phase.State()) ==> after.txns[t].phase.State() == before.txns[t].phase.State())
    && (before.txns[t].phase.State() == COMMITTED ==> after.txns[t].writeSet == before.txns[t].writeSet)
  }

  lemma FinalAtStep(run: seq<Manager>, i: nat, t: nat)
    requires IsRun(run) && 0 < i < |run| && t in run[i - 1].txns
    ensures FinalKept(run[i - 1], run[i], t)
  {
    var step := StepTo(run, i);
    FinalStep(run[i - 1], step, t);
  }

  /** Once committed or aborted, a transaction stays so; a committed one writes nothing more. */
  lemma {:induction false} FinalForever(run: seq<Manager>, i: nat, j: nat, t: nat)
    requires IsRun(run) && i <= j < |run| && t in run[i].txns
    ensures FinalKept(run[i], run[j], t)
    decreases j - i
  {
    if i < j {
      FinalForever(run, i, j - 1, t);
      FinalAtStep(run, j, t);
    }
  }

  // ---- counter order is history ----

  predicate HasTid(m: Manager, t: nat) {
    t in m.txns && m.txns[t].phase.HasTid()
  }

  predicate HasCid(m: Manager, t: nat) {
    t in m.txns && m.txns[t].phase.HasCid()
  }

  lemma NumbersStay(m: Manager, step: Step, t: nat)
    requires Enabled(m, step)
    ensures m.cnt <= Apply(m, step).cnt
    ensures HasTid(m, t) ==> HasTid(Apply(m, step), t) && Apply(m, step).txns[t].tid == m.txns[t].tid
    ensures HasCid(m, t) ==> HasCid(Apply(m, step), t) && Apply(m, step).txns[t].cid == m.txns[t].cid
    ensures !HasTid(m, t) && HasTid(Apply(m, step), t) ==> Apply(m, step).txns[t].tid == m.cnt
    ensures !HasCid(m, t) && HasCid(Apply(m, step), t) ==> Apply(m, step).txns[t].cid == m.cnt
  {
  }

  /** What was numbered keeps its number; what is numbered later gets at least the counter of now. */
  predicate NumbersKept(before: Manager, after: Manager, t: nat) {
    && before.cnt <= after.cnt
    && (HasTid(before, t) ==> HasTid(after, t) && after.txns[t].tid == before.txns[t].tid)
    && (HasCid(before, t) ==> HasCid(after, t) && after.txns[t].cid == before.txns[t].cid)
    && (!HasTid(before, t) && HasTid(after, t) ==> after.txns[t].tid >= before.cnt)
    && (!HasCid(before, t) && HasCid(after, t) ==> after.txns[t].cid >= before.cnt)
  }

  lemma NumbersAtStep(run: seq<Manager>, i: nat, t: nat)
    requires IsRun(run) && 0 < i < |run|
    ensures NumbersKept(run[i - 1], run[i], t)
  {
    var step := StepTo(run, i);
    NumbersStay(run[i - 1], step, t);
  }

  lemma NumbersKeptTwice(first: Manager, second: Manager, third: Manager, t: nat)
    requires NumbersKept(first, second, t) && NumbersKept(second, third, t)
    ensures NumbersKept(first, third, t)
  {
  }

  lemma {:induction false} NumbersLater(run: seq<Manager>, i: nat, j: nat, t: nat)
    requires IsRun(run) && i <= j < |run|
    ensures NumbersKept(run[i], run[j], t)
    decreases j - i
  {
    if i < j {
      NumbersLater(run, i, j - 1, t);
      NumbersAtStep(run, j, t);
      NumbersKeptTwice(run[i], run[j - 1], run[j], t);
    }
  }

  /** At some moment the first transaction had its commit id and the second did not have its id yet. */
  ghost predicate CommittedBeforeBegin(run: seq<Manager>, t1: nat, t2: nat) {
    exists i :: 0 <= i < |run| && HasCid(run[i], t1) && !HasTid(run[i], t2)
  }

  /** The first moment at which the second transaction has its id: before it, nobody had overtaken. */
  lemma {:induction false} FirstNumbered(run: seq<Manager>, j: nat, t: nat) returns (i: nat)
    requires IsRun(run) && j < |run| && HasTid(run[j], t)
    ensures 0 < i <= j && !HasTid(run[i - 1], t) && HasTid(run[i], t)
  {
    assert !HasTid(Initial(), t);
    if HasTid(run[j - 1], t) {
      i := FirstNumbered(run, j - 1, t);
    } else {
      i := j;
    }
  }

  lemma OneAtATime(m: Manager, step: Step, t1: nat, t2: nat)
    requires Enabled(m, step) && !HasTid(m, t2) && HasTid(Apply(m, step), t2)
    ensures HasCid(Apply(m, step), t1) ==> HasCid(m, t1)
  {
  }

  /**
   The counters tell history: in any run in which both have their numbers, the first transaction took its
   commit id before the second began exactly if its commit id is at most the second one's id. And a
   transaction's commit id is above its own id.
   */
  lemma CounterOrderIsHistory(run: seq<Manager>, t1: nat, t2: nat)
    requires IsRun(run) && HasCid(run[|run| - 1], t1) && HasTid(run[|run| - 1], t2)
    ensures CommittedBeforeBegin(run, t1, t2) <==> run[|run| - 1].txns[t1].cid <= run[|run| - 1].txns[t2].tid
    ensures run[|run| - 1].txns[t1].tid < run[|run| - 1].txns[t1].cid
  {
    var last := |run| - 1;
    RunInvariant(run, last);
    if CommittedBeforeBegin(run, t1, t2) {
      var i :| 0 <= i < |run| && HasCid(run[i], t1) && !HasTid(run[i], t2);
      NumbersLater(run, i, last, t1);
      NumbersLater(run, i, last, t2);
      RunInvariant(run, i);
    } else {
      var i := FirstNumbered(run, last, t2);
      assert !HasCid(run[i - 1], t1);
      var step := StepTo(run, i);
      OneAtATime(run[i - 1], step, t1, t2);
      RunInvariant(run, i);
      NumbersLater(run, i, last, t1);
      NumbersLater(run, i, last, t2);
    }
  }

  // ---- the error exits of commit ----

  /** Committing a transaction that is unknown or not running reports an error, and unlocks the latch all the same. */
  function WrongCommit(m: Manager): Manager {
    Unlock(m)
  }

  /**
   A wrong commit leaves the latch invariant standing exactly if no transaction is unfinished, and it is
   harmless exactly if nobody at all holds the latch: otherwise it ends the hold of somebody else.
   */
  lemma WrongCommitBreaksLatch(m: Manager)
    requires LatchInvariant(m)
    ensures LatchInvariant(WrongCommit(m)) <==> Holders(m) == {}
    ensures WrongCommit(m) == m <==> Holders(m) == {} && !m.exclusive
  {
    assert Holders(WrongCommit(m)) == Holders(m);
    forall key ensures CountedKey(WrongCommit(m), key) <==> CountedKey(m, key) {
      assert forall t :: Counts(WrongCommit(m), t, key) <==> Counts(m, t, key);
    }
    if Holders(m) != {} {
      var t :| t in Holders(m);
      assert |Holders(m)| >= 1 by {
        assert {t} <= Holders(m);
      }
    }
  }

  /** One running transaction and one wrong commit: a checkpoint may now start beside the running transaction. */
  lemma WrongCommitLetsCheckpointIn()
    ensures var m := Apply(Apply(Apply(Initial(), BeginLatch(1)), BeginNumber(1)), BeginRun(1));
            !Enabled(m, CheckpointLock) && Enabled(WrongCommit(m), CheckpointLock) && Holders(WrongCommit(m)) == {1}
  {
    var m := Apply(Apply(Apply(Initial(), BeginLatch(1)), BeginNumber(1)), BeginRun(1));
    assert Holders(WrongCommit(m)) == {1};
  }
}
