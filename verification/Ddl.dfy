/**
 Collection DDL on a stable leader: any number of concurrent create and drop calls, each of which
 takes the DDL lock, checks the applied catalog, proposes its command, and answers once that
 command is applied, unless its caller goes away. Document commands reach the log at any time, without the lock.
 */
module Ddl {
  import opened Outcome
  import opened Mappings
  import opened Commands

  type Caller = int

  datatype Request = CreateRequest(name: Name, uuid: Uuid, mapping: Mapping) | DropRequest(name: Name)

  datatype Reply = Created(at: nat) | Existing | Conflicting | Missing | Dropped(at: nat)

  /** Where a call stands; `at` is the log position of its command. */
  datatype Progress = Calling | Admitting | Proposing | Waiting(at: nat) | Answered(reply: Reply) | Gone

  /** The leader: its log, how much of it is applied, the lock's holder, and every call. */
  datatype Leader = Leader(log: Log, applied: nat, holder: Option<Caller>, calls: map<Caller, Progress>)

  datatype Step =
    | Lock(c: Caller)
    | Admit(c: Caller)          // `build_create_command` or `build_drop_command`
    | Propose(c: Caller)
    | Apply
    | Answer(c: Caller)
    | Leave(c: Caller)          // the call is cancelled, which releases the lock
    | Other(cmd: Command)       // a document command or a blank entry of someone else

  predicate IsDdl(cmd: Command) {
    cmd.Create? || cmd.Drop?
  }

  function CommandOf(r: Request): Command {
    match r
    case CreateRequest(n, u, m) => Create(n, u, m)
    case DropRequest(n) => Drop(n)
  }

  /** The admission check against the applied catalog: nothing when the command should be proposed. */
  function Refusal(r: Request, c: Collections): Option<Reply> {
    match r
    case CreateRequest(n, _, m) => if n !in c then None else if c[n].mapping == m then Some(Existing) else Some(Conflicting)
    case DropRequest(n) => if n in c then None else Some(Missing)
  }

  function Release(s: Leader, c: Caller): Option<Caller> {
    if s.holder == Some(c) then None else s.holder
  }

  /** One step; with `locked` false the lock is taken without waiting for it to be free. */
  predicate Next(reqs: map<Caller, Request>, locked: bool, s: Leader, step: Step, t: Leader)
    requires s.applied <= |s.log|
  {
    match step
    case Lock(c) =>
      && Get(s.calls, c) == Some(Calling) && (locked ==> s.holder.None?)
      && t == s.(holder := Some(c), calls := s.calls[c := Admitting])
    case Admit(c) =>
      && Get(s.calls, c) == Some(Admitting) && c in reqs
      && var refusal := Refusal(reqs[c], Fold(s.log, s.applied));
         t == if refusal.Some? then s.(holder := Release(s, c), calls := s.calls[c := Answered(refusal.value)])
              else s.(calls := s.calls[c := Proposing])
    case Propose(c) =>
      && Get(s.calls, c) == Some(Proposing) && c in reqs
      && t == s.(log := s.log + [CommandOf(reqs[c])], calls := s.calls[c := Waiting(|s.log| + 1)])
    case Apply => s.applied < |s.log| && t == s.(applied := s.applied + 1)
    case Answer(c) =>
      && c in s.calls && s.calls[c].Waiting? && s.calls[c].at <= s.applied && c in reqs
      && t == s.(holder := Release(s, c),
                 calls := s.calls[c := Answered(if reqs[c].CreateRequest? then Created(s.calls[c].at) else Dropped(s.calls[c].at))])
    case Leave(c) =>
      && c in s.calls && !s.calls[c].Answered? && !s.calls[c].Gone?
      && t == s.(holder := Release(s, c), calls := s.calls[c := Gone])
    case Other(cmd) => !IsDdl(cmd) && t == s.(log := s.log + [cmd])
  }

  /** No caller leaves between the proposal of its command and its application. */
  predicate Patient(s: Leader, step: Step) {
    step.Leave? && step.c in s.calls && s.calls[step.c].Waiting? ==> s.calls[step.c].at <= s.applied
  }

  // ---------------------------------------------------------------- invariant

  predicate InProgress(p: Progress) {
    p.Admitting? || p.Proposing? || p.Waiting?
  }

  /** The command at position `at` is the caller's and took effect there. */
  predicate TookEffect(log: Log, r: Request, at: nat) {
    1 <= at <= |log| && log[at - 1] == CommandOf(r) && Refusal(r, Fold(log, at - 1)).None?
  }

  predicate CallOk(reqs: map<Caller, Request>, s: Leader, c: Caller)
    requires c in s.calls
  {
    && c in reqs && (InProgress(s.calls[c]) ==> s.holder == Some(c))
    && (s.calls[c].Waiting? ==> 1 <= s.calls[c].at <= |s.log| && s.log[s.calls[c].at - 1] == CommandOf(reqs[c]))
  }

  /**
   The lock: the one call between taking it and being answered holds it, and waits for its own
   command; with no such call it is free.
   */
  ghost predicate Ok(reqs: map<Caller, Request>, s: Leader) {
    && s.applied <= |s.log|
    && (s.holder.Some? ==> s.holder.value in s.calls && InProgress(s.calls[s.holder.value]))
    && forall c {:trigger CallOk(reqs, s, c)} :: c in s.calls ==> CallOk(reqs, s, c)
  }

  /** If the command at `i` is DDL and not applied yet, it belongs to the lock's holder, who waits for it. */
  predicate PendingOk(s: Leader, i: nat)
    requires i < |s.log|
  {
    s.applied <= i && IsDdl(s.log[i]) ==>
      s.holder.Some? && s.holder.value in s.calls && s.calls[s.holder.value] == Waiting(i + 1)
  }

  ghost predicate Owned(s: Leader) {
    forall i {:trigger PendingOk(s, i)} :: 0 <= i < |s.log| ==> PendingOk(s, i)
  }

  // ---------------------------------------------------------------- what document commands leave alone

  /** Commands that are not DDL change no collection's existence or mapping. */
  lemma {:induction false} NamesStay(log: Log, lo: nat, hi: nat, r: Request)
    requires lo <= hi <= |log| && forall i :: lo <= i < hi ==> !IsDdl(log[i])
    ensures Refusal(r, Fold(log, hi)) == Refusal(r, Fold(log, lo))
    decreases hi
  {
    if lo < hi {
      NamesStay(log, lo, hi - 1, r);
    }
  }

  /** A caller who holds the lock and is not waiting leaves nothing pending. */
  lemma NothingPending(reqs: map<Caller, Request>, s: Leader, c: Caller)
    requires Ok(reqs, s) && Owned(s) && c in s.calls && InProgress(s.calls[c]) && !s.calls[c].Waiting?
    ensures forall i :: s.applied <= i < |s.log| ==> !IsDdl(s.log[i])
  {
    assert CallOk(reqs, s, c);
    forall i | s.applied <= i < |s.log| ensures !IsDdl(s.log[i]) {
      assert PendingOk(s, i);
    }
  }

  // ---------------------------------------------------------------- steps

  lemma StepKeeps(reqs: map<Caller, Request>, s: Leader, step: Step, t: Leader)
    requires Ok(reqs, s) && Next(reqs, true, s, step, t)
    ensures Ok(reqs, t)
  {
    hide Fold, Refusal;
    forall c | c in t.calls ensures CallOk(reqs, t, c) {
      assert c in s.calls && CallOk(reqs, s, c);
      assert !step.Apply? && !step.Other? ==> step.c in s.calls && CallOk(reqs, s, step.c);
    }
  }

  /**
   A call may be cancelled at any time but one and leave the pending DDL to the lock's holder: while
   its own command is in the log and not yet applied.
   */
  lemma LeaveKeepsIff(reqs: map<Caller, Request>, s: Leader, c: Caller, t: Leader)
    requires Ok(reqs, s) && Owned(s) && Next(reqs, true, s, Leave(c), t)
    ensures Owned(t) <==> Patient(s, Leave(c))
  {
    assert CallOk(reqs, s, c);
    if Patient(s, Leave(c)) {
      forall i | 0 <= i < |t.log| ensures PendingOk(t, i) {
        assert PendingOk(s, i);
      }
    } else {
      assert !PendingOk(t, s.calls[c].at - 1);
    }
  }

  lemma PatientStep(reqs: map<Caller, Request>, s: Leader, step: Step, t: Leader)
    requires Ok(reqs, s) && Owned(s) && Next(reqs, true, s, step, t) && Patient(s, step)
    ensures Owned(t)
  {
    hide Fold, Refusal;
    if step.Propose? || step.Admit? {
      NothingPending(reqs, s, step.c);
    }
    forall i | 0 <= i < |t.log| ensures PendingOk(t, i) {
      assert i < |s.log| ==> PendingOk(s, i);
      assert !step.Apply? && !step.Other? ==> step.c in s.calls && CallOk(reqs, s, step.c);
    }
  }

  // ---------------------------------------------------------------- every run

  /** A leader that has applied its log and has not served any of the calls yet. */
  predicate Starts(reqs: map<Caller, Request>, s: Leader) {
    s.applied == |s.log| && s.holder.None? && s.calls.Keys == reqs.Keys && forall c :: c in s.calls ==> s.calls[c] == Calling
  }

  ghost predicate IsRun(reqs: map<Caller, Request>, locked: bool, states: seq<Leader>, steps: seq<Step>) {
    && |states| == |steps| + 1 && Starts(reqs, states[0])
    && forall i :: 0 <= i < |steps| ==> states[i].applied <= |states[i].log| && Next(reqs, locked, states[i], steps[i], states[i + 1])
  }

  /** No caller of the run goes away while its command is in the log and not yet applied. */
  predicate AllPatient(states: seq<Leader>, steps: seq<Step>)
    requires |states| == |steps| + 1
  {
    forall i :: 0 <= i < |steps| ==> Patient(states[i], steps[i])
  }

  lemma {:induction false} RunOk(reqs: map<Caller, Request>, states: seq<Leader>, steps: seq<Step>, i: nat)
    requires IsRun(reqs, true, states, steps) && i < |states|
    ensures Ok(reqs, states[i])
  {
    if i > 0 {
      RunOk(reqs, states, steps, i - 1);
      StepKeeps(reqs, states[i - 1], steps[i - 1], states[i]);
    }
  }

  lemma {:induction false} PatientRun(reqs: map<Caller, Request>, states: seq<Leader>, steps: seq<Step>, i: nat)
    requires IsRun(reqs, true, states, steps) && AllPatient(states, steps) && i < |states|
    ensures Owned(states[i])
  {
    if i > 0 {
      RunOk(reqs, states, steps, i - 1);
      PatientRun(reqs, states, steps, i - 1);
      PatientStep(reqs, states[i - 1], steps[i - 1], states[i]);
    }
  }

  /** The lock is never left behind: in every run a call that waits for it can take it, or another one is in progress. */
  lemma LockComesFree(reqs: map<Caller, Request>, states: seq<Leader>, steps: seq<Step>, i: nat, c: Caller)
    requires IsRun(reqs, true, states, steps) && i < |states| && Get(states[i].calls, c) == Some(Calling)
    ensures states[i].applied <= |states[i].log|
    ensures (exists t :: Next(reqs, true, states[i], Lock(c), t)) <==>
            forall c' :: c' in states[i].calls ==> !InProgress(states[i].calls[c'])
  {
    RunOk(reqs, states, steps, i);
    var s := states[i];
    if s.holder.None? {
      assert Next(reqs, true, s, Lock(c), s.(holder := Some(c), calls := s.calls[c := Admitting]));
      forall c' | c' in s.calls ensures !InProgress(s.calls[c']) {
        assert CallOk(reqs, s, c');
      }
    } else {
      var holder := s.holder.value;
      assert holder in s.calls && InProgress(s.calls[holder]);
      assert forall t :: !Next(reqs, true, s, Lock(c), t);
    }
  }

  // ---------------------------------------------------------------- one call, from its admission to its reply

  /** What the admission check would say of the whole log, of which it only sees the applied part. */
  function WholeLog(r: Request, log: Log): Option<Reply> {
    Refusal(r, Fold(log, |log|))
  }

  /** The request's command is at `at`, and it took effect there if and only if the admission log `log0` allows it. */
  predicate Placed(r: Request, log0: Log, log: Log, at: nat) {
    && 1 <= at <= |log| && log[at - 1] == CommandOf(r)
    && (TookEffect(log, r, at) <==> WholeLog(r, log0).None?)
  }

  /** The admission check of the request passes. */
  predicate Passes(r: Request, s: Leader) {
    s.applied <= |s.log| && Refusal(r, Fold(s.log, s.applied)).None?
  }

  /** Where a call admitted in the state `s0` stands later. */
  ghost predicate Since(r: Request, s0: Leader, s: Leader, c: Caller) {
    && s0.log <= s.log && c in s.calls
    && match s.calls[c]
       case Calling => false
       case Admitting => false
       case Proposing => Passes(r, s0) && forall i :: |s0.log| <= i < |s.log| ==> !IsDdl(s.log[i])
       case Waiting(at) => Passes(r, s0) && Placed(r, s0.log, s.log, at)
       case Answered(Created(at)) => Passes(r, s0) && r.CreateRequest? && Placed(r, s0.log, s.log, at) && at <= s.applied
       case Answered(Dropped(at)) => Passes(r, s0) && r.DropRequest? && Placed(r, s0.log, s.log, at) && at <= s.applied
       case _ => true
  }

  lemma StillPlaced(r: Request, log0: Log, log: Log, cmd: Command, at: nat)
    requires Placed(r, log0, log, at)
    ensures Placed(r, log0, log + [cmd], at)
  {
    FoldPrefix(log, cmd, at - 1);
  }

  /** Nothing but document commands entered since the admission: the command takes effect as the whole log then allowed. */
  lemma NewlyPlaced(r: Request, log0: Log, log: Log)
    requires log0 <= log && forall i :: |log0| <= i < |log| ==> !IsDdl(log[i])
    ensures Placed(r, log0, log + [CommandOf(r)], |log| + 1)
  {
    NamesStay(log, |log0|, |log|, r);
    FoldTake(log, |log0|, |log0|);
    assert log[..|log0|] == log0;
    FoldPrefix(log, CommandOf(r), |log|);
  }

  /** Only the lock's holder proposes, so no other call's command comes between an admission and its proposal. */
  lemma SinceStep(reqs: map<Caller, Request>, s0: Leader, s: Leader, step: Step, t: Leader, c: Caller)
    requires Ok(reqs, s) && c in reqs && Since(reqs[c], s0, s, c) && Next(reqs, true, s, step, t)
    ensures Since(reqs[c], s0, t, c)
  {
    hide Fold, Refusal, Placed, Passes;
    assert CallOk(reqs, s, c);
    assert !step.Apply? && !step.Other? ==> step.c in s.calls && CallOk(reqs, s, step.c);
    if step == Propose(c) {
      NewlyPlaced(reqs[c], s0.log, s.log);
    } else if step.Propose? || step.Other? {
      var cmd := t.log[|s.log|];
      match s.calls[c]
      case Waiting(at) => StillPlaced(reqs[c], s0.log, s.log, cmd, at);
      case Answered(Created(at)) => StillPlaced(reqs[c], s0.log, s.log, cmd, at);
      case Answered(Dropped(at)) => StillPlaced(reqs[c], s0.log, s.log, cmd, at);
      case _ =>
    }
  }

  lemma SinceAdmit(reqs: map<Caller, Request>, s: Leader, t: Leader, c: Caller)
    requires s.applied <= |s.log| && Next(reqs, true, s, Admit(c), t)
    ensures Since(reqs[c], s, t, c)
  {
    hide Fold;
  }

  lemma {:induction false} SinceAdmitted(reqs: map<Caller, Request>, states: seq<Leader>, steps: seq<Step>, j: nat, i: nat, c: Caller)
    requires IsRun(reqs, true, states, steps) && j < i < |states| && steps[j] == Admit(c)
    ensures c in reqs && Since(reqs[c], states[j], states[i], c)
    decreases i
  {
    hide Since, Ok, Fold;
    assert Next(reqs, true, states[j], steps[j], states[j + 1]);
    if i == j + 1 {
      SinceAdmit(reqs, states[j], states[i], c);
    } else {
      SinceAdmitted(reqs, states, steps, j, i - 1, c);
      RunOk(reqs, states, steps, i - 1);
      SinceStep(reqs, states[j], states[i - 1], steps[i - 1], states[i], c);
    }
  }

  /** A call past its admission was admitted at some step. */
  lemma {:induction false} AdmittedAt(reqs: map<Caller, Request>, states: seq<Leader>, steps: seq<Step>, i: nat, c: Caller) returns (j: nat)
    requires IsRun(reqs, true, states, steps) && i < |states| && c in states[i].calls
    requires states[i].calls[c].Proposing? || states[i].calls[c].Waiting? || states[i].calls[c].Answered?
    ensures j < i && steps[j] == Admit(c)
  {
    hide Fold, Refusal;
    assert i > 0;
    assert Next(reqs, true, states[i - 1], steps[i - 1], states[i]);
    if steps[i - 1] == Admit(c) {
      j := i - 1;
    } else {
      j := AdmittedAt(reqs, states, steps, i - 1, c);
    }
  }

  /**
   In every run, whoever leaves and when: a create reported created installed its own mapping, at its
   own place in the log, if and only if the whole log had no such collection when the create was
   admitted. The admission check itself only looks at the applied part.
   */
  lemma CreatedIff(reqs: map<Caller, Request>, states: seq<Leader>, steps: seq<Step>, j: nat, i: nat, c: Caller, at: nat)
    requires IsRun(reqs, true, states, steps) && j < i < |states| && steps[j] == Admit(c)
    requires Get(states[i].calls, c) == Some(Answered(Created(at)))
    ensures c in reqs && reqs[c].CreateRequest? && 1 <= at <= states[i].applied <= |states[i].log|
    ensures var r, after := reqs[c], Fold(states[i].log, at);
            && r.name in after
            && (after[r.name] == Coll(r.uuid, at, r.mapping, map[]) <==> r.name !in Fold(states[j].log, |states[j].log|))
  {
    SinceAdmitted(reqs, states, steps, j, i, c);
    RunOk(reqs, states, steps, i);
    var log, n := states[i].log, reqs[c].name;
    if n in Fold(log, at - 1) {
      FoldOwner(log, at - 1, n);
    }
  }

  /** The same of a drop: it removed the collection if and only if the whole log still had it at the admission. */
  lemma DroppedIff(reqs: map<Caller, Request>, states: seq<Leader>, steps: seq<Step>, j: nat, i: nat, c: Caller, at: nat)
    requires IsRun(reqs, true, states, steps) && j < i < |states| && steps[j] == Admit(c)
    requires Get(states[i].calls, c) == Some(Answered(Dropped(at)))
    ensures c in reqs && reqs[c].DropRequest? && 1 <= at <= states[i].applied <= |states[i].log|
    ensures var n, log := reqs[c].name, states[i].log;
            && n !in Fold(log, at)
            && (n in Fold(log, at - 1) <==> n in Fold(states[j].log, |states[j].log|))
  {
    SinceAdmitted(reqs, states, steps, j, i, c);
    RunOk(reqs, states, steps, i);
  }

  // ---------------------------------------------------------------- refused calls

  /** What the applied catalog `c` answers a request at once, if anything. */
  predicate RefusedWith(r: Request, c: Collections, reply: Reply) {
    match reply
    case Existing => r.CreateRequest? && r.name in c && c[r.name].mapping == r.mapping
    case Conflicting => r.CreateRequest? && r.name in c && c[r.name].mapping != r.mapping
    case Missing => r.DropRequest? && r.name !in c
    case _ => false
  }

  /** A call is answered at its admission exactly as the catalog says, and keeps that answer; any other is answered later. */
  ghost predicate Replied(r: Request, c: Collections, p: Progress) {
    && (forall reply :: RefusedWith(r, c, reply) ==> p == Answered(reply))
    && (p.Answered? ==> RefusedWith(r, c, p.reply) || p.reply.Created? || p.reply.Dropped?)
    && !p.Calling? && !p.Admitting?
  }

  lemma RepliedAtAdmit(reqs: map<Caller, Request>, s: Leader, t: Leader, c: Caller)
    requires s.applied <= |s.log| && Next(reqs, true, s, Admit(c), t)
    ensures Replied(reqs[c], Fold(s.log, s.applied), t.calls[c]) && t.log == s.log
  {
    hide Fold;
  }

  lemma RepliedStep(reqs: map<Caller, Request>, cat: Collections, s: Leader, step: Step, t: Leader, c: Caller)
    requires c in reqs && c in s.calls && Replied(reqs[c], cat, s.calls[c]) && s.applied <= |s.log| && Next(reqs, true, s, step, t)
    ensures c in t.calls && Replied(reqs[c], cat, t.calls[c])
  {
    hide Fold, Refusal, RefusedWith;
  }

  lemma {:induction false} RepliedSince(reqs: map<Caller, Request>, states: seq<Leader>, steps: seq<Step>, j: nat, i: nat, c: Caller)
    requires IsRun(reqs, true, states, steps) && j < i < |states| && steps[j] == Admit(c)
    ensures c in reqs && c in states[i].calls && Replied(reqs[c], Fold(states[j].log, states[j].applied), states[i].calls[c])
    decreases i
  {
    hide Replied, Fold;
    assert Next(reqs, true, states[j], steps[j], states[j + 1]);
    if i == j + 1 {
      RepliedAtAdmit(reqs, states[j], states[i], c);
    } else {
      RepliedSince(reqs, states, steps, j, i - 1, c);
      assert Next(reqs, true, states[i - 1], steps[i - 1], states[i]);
      RepliedStep(reqs, Fold(states[j].log, states[j].applied), states[i - 1], steps[i - 1], states[i], c);
    }
  }

  /**
   Refusals, in every run: a create is answered that its collection exists if and only if the applied
   catalog had it with the same mapping at its admission, and that it conflicts if and only if it had
   it with another; a drop is answered that it is missing if and only if the catalog did not have it.
   */
  lemma RefusedIff(reqs: map<Caller, Request>, states: seq<Leader>, steps: seq<Step>, j: nat, i: nat, c: Caller)
    requires IsRun(reqs, true, states, steps) && j < i < |states| && steps[j] == Admit(c)
    ensures c in reqs && states[j].applied <= |states[j].log| && c in states[i].calls
    ensures var r, applied, p := reqs[c], Fold(states[j].log, states[j].applied), states[i].calls[c];
            && (p == Answered(Existing) <==> r.CreateRequest? && r.name in applied && applied[r.name].mapping == r.mapping)
            && (p == Answered(Conflicting) <==> r.CreateRequest? && r.name in applied && applied[r.name].mapping != r.mapping)
            && (p == Answered(Missing) <==> r.DropRequest? && r.name !in applied)
  {
    RepliedSince(reqs, states, steps, j, i, c);
    hide Fold;
    var r, applied := reqs[c], Fold(states[j].log, states[j].applied);
    assert RefusedWith(r, applied, Existing) || RefusedWith(r, applied, Conflicting) || RefusedWith(r, applied, Missing) ||
           forall reply :: !RefusedWith(r, applied, reply);
  }

  /** A call that is refused proposes nothing, at any time of the run. */
  lemma RefusedAddsNothing(reqs: map<Caller, Request>, states: seq<Leader>, steps: seq<Step>, i: nat, c: Caller, reply: Reply, t: nat)
    requires IsRun(reqs, true, states, steps) && i < |states| && Get(states[i].calls, c) == Some(Answered(reply))
    requires reply == Existing || reply == Conflicting || reply == Missing
    requires t < |steps|
    ensures steps[t] != Propose(c)
  {
    var j := AdmittedAt(reqs, states, steps, i, c);
    RepliedSince(reqs, states, steps, j, i, c);
    if steps[t] == Propose(c) {
      hide Fold;
      assert Next(reqs, true, states[t], steps[t], states[t + 1]);
      var j' := AdmittedAt(reqs, states, steps, t, c);
      assert Next(reqs, true, states[j], steps[j], states[j + 1]) && Next(reqs, true, states[j'], steps[j'], states[j' + 1]);
      if j < j' {
        RepliedSince(reqs, states, steps, j, j', c);
      } else if j' < j {
        RepliedSince(reqs, states, steps, j', j, c);
      }
      RepliedSince(reqs, states, steps, j, t, c);
    }
  }

  /** If no caller leaves a pending command, what was admitted is what the whole log allows. */
  lemma PatientAdmit(reqs: map<Caller, Request>, states: seq<Leader>, steps: seq<Step>, j: nat, c: Caller)
    requires IsRun(reqs, true, states, steps) && AllPatient(states, steps) && j < |steps| && steps[j] == Admit(c)
    ensures c in reqs && WholeLog(reqs[c], states[j].log) == Refusal(reqs[c], Fold(states[j].log, states[j].applied))
  {
    var s := states[j];
    assert Next(reqs, true, s, steps[j], states[j + 1]);
    RunOk(reqs, states, steps, j);
    PatientRun(reqs, states, steps, j);
    NothingPending(reqs, s, c);
    NamesStay(s.log, s.applied, |s.log|, reqs[c]);
  }

  /** So then every create reported created installed its own mapping, at its own place in the log. */
  lemma EveryCreateInstalls(reqs: map<Caller, Request>, states: seq<Leader>, steps: seq<Step>, i: nat, c: Caller, at: nat)
    requires IsRun(reqs, true, states, steps) && AllPatient(states, steps)
    requires i < |states| && Get(states[i].calls, c) == Some(Answered(Created(at)))
    ensures c in reqs && reqs[c].CreateRequest? && 1 <= at <= |states[i].log|
    ensures var r, after := reqs[c], Fold(states[i].log, at);
            r.name in after && after[r.name] == Coll(r.uuid, at, r.mapping, map[])
  {
    var j := AdmittedAt(reqs, states, steps, i, c);
    SinceAdmitted(reqs, states, steps, j, i, c);
    PatientAdmit(reqs, states, steps, j, c);
    CreatedIff(reqs, states, steps, j, i, c, at);
  }

  /**
   Serialized DDL: in every interleaving, of two different creates of one name that are both reported
   created, the second took effect only with a drop of that name committed between them.
   */
  lemma CreatesNeedDrop(reqs: map<Caller, Request>, states: seq<Leader>, steps: seq<Step>, i: nat, c: Caller, at: nat, j: nat, c': Caller, at': nat)
    requires IsRun(reqs, true, states, steps) && j < i < |states| && steps[j] == Admit(c') && at <= at'
    requires Get(states[i].calls, c) == Some(Answered(Created(at))) && Get(states[i].calls, c') == Some(Answered(Created(at')))
    requires c in reqs && c' in reqs && reqs[c].name == reqs[c'].name && reqs[c] != reqs[c']
    ensures at < at'
    ensures reqs[c].name !in Fold(states[j].log, |states[j].log|) ==>
              exists k :: at <= k < at' - 1 && k < |states[i].log| && states[i].log[k] == Drop(reqs[c].name)
  {
    var log, n := states[i].log, reqs[c].name;
    var j0 := AdmittedAt(reqs, states, steps, i, c);
    SinceAdmitted(reqs, states, steps, j0, i, c);
    SinceAdmitted(reqs, states, steps, j, i, c');
    assert n in Fold(log, at);
    if n !in Fold(states[j].log, |states[j].log|) && NoDrop(log, n, at, at' - 1) {
      FoldKeeps(log, n, at, at' - 1);
    }
  }

  // ---------------------------------------------------------------- why the lock is there

  /** A run in which the lock is taken without waiting for it. */
  function LocklessRun(n: Name, u: Uuid, m: Mapping, u': Uuid, m': Mapping): seq<Leader> {
    var a, b := Create(n, u, m), Create(n, u', m');
    [Leader([], 0, None, map[1 := Calling, 2 := Calling]),
     Leader([], 0, Some(1), map[1 := Admitting, 2 := Calling]),
     Leader([], 0, Some(2), map[1 := Admitting, 2 := Admitting]),
     Leader([], 0, Some(2), map[1 := Proposing, 2 := Admitting]),
     Leader([], 0, Some(2), map[1 := Proposing, 2 := Proposing]),
     Leader([a], 0, Some(2), map[1 := Waiting(1), 2 := Proposing]),
     Leader([a, b], 0, Some(2), map[1 := Waiting(1), 2 := Waiting(2)]),
     Leader([a, b], 1, Some(2), map[1 := Waiting(1), 2 := Waiting(2)]),
     Leader([a, b], 2, Some(2), map[1 := Waiting(1), 2 := Waiting(2)]),
     Leader([a, b], 2, Some(2), map[1 := Answered(Created(1)), 2 := Waiting(2)]),
     Leader([a, b], 2, None, map[1 := Answered(Created(1)), 2 := Answered(Created(2))])]
  }

  const LOCKLESS_STEPS := [Lock(1), Lock(2), Admit(1), Admit(2), Propose(1), Propose(2), Apply, Apply, Answer(1), Answer(2)]

  /** Without the lock, two conflicting creates can both be reported created with no drop at all. */
  lemma LockNeeded(n: Name, u: Uuid, m: Mapping, u': Uuid, m': Mapping)
    requires m != m'
    ensures var states, reqs := LocklessRun(n, u, m, u', m'), map[1 := CreateRequest(n, u, m), 2 := CreateRequest(n, u', m')];
            && IsRun(reqs, false, states, LOCKLESS_STEPS)
            && states[10].calls == map[1 := Answered(Created(1)), 2 := Answered(Created(2))]
            && states[10].log == [Create(n, u, m), Create(n, u', m')]
  {
    LocklessFirst(n, u, m, u', m');
    LocklessLast(n, u, m, u', m');
    hide Next;
  }

  lemma LocklessFirst(n: Name, u: Uuid, m: Mapping, u': Uuid, m': Mapping)
    ensures var states, reqs := LocklessRun(n, u, m, u', m'), map[1 := CreateRequest(n, u, m), 2 := CreateRequest(n, u', m')];
            forall i :: 0 <= i < 5 ==> Next(reqs, false, states[i], LOCKLESS_STEPS[i], states[i + 1])
  {
  }

  lemma LocklessLast(n: Name, u: Uuid, m: Mapping, u': Uuid, m': Mapping)
    ensures var states, reqs := LocklessRun(n, u, m, u', m'), map[1 := CreateRequest(n, u, m), 2 := CreateRequest(n, u', m')];
            forall i :: 5 <= i < 10 ==> Next(reqs, false, states[i], LOCKLESS_STEPS[i], states[i + 1])
  {
  }

  /** A run with the lock, in which a caller goes away while its create is pending. */
  function ImpatientRun(n: Name, u: Uuid, m: Mapping, u': Uuid, m': Mapping): seq<Leader> {
    var a, b := Create(n, u, m), Create(n, u', m');
    [Leader([], 0, None, map[1 := Calling, 2 := Calling]),
     Leader([], 0, Some(1), map[1 := Admitting, 2 := Calling]),
     Leader([], 0, Some(1), map[1 := Proposing, 2 := Calling]),
     Leader([a], 0, Some(1), map[1 := Waiting(1), 2 := Calling]),
     Leader([a], 0, None, map[1 := Gone, 2 := Calling]),
     Leader([a], 0, Some(2), map[1 := Gone, 2 := Admitting]),
     Leader([a], 0, Some(2), map[1 := Gone, 2 := Proposing]),
     Leader([a, b], 0, Some(2), map[1 := Gone, 2 := Waiting(2)]),
     Leader([a, b], 1, Some(2), map[1 := Gone, 2 := Waiting(2)]),
     Leader([a, b], 2, Some(2), map[1 := Gone, 2 := Waiting(2)]),
     Leader([a, b], 2, None, map[1 := Gone, 2 := Answered(Created(2))])]
  }

  const IMPATIENT_STEPS := [Lock(1), Admit(1), Propose(1), Leave(1), Lock(2), Admit(2), Propose(2), Apply, Apply, Answer(2)]

  /** The conflicting create is reported created though it installed nothing. */
  lemma PatienceNeeded(n: Name, u: Uuid, m: Mapping, u': Uuid, m': Mapping)
    requires m != m'
    ensures var states, reqs := ImpatientRun(n, u, m, u', m'), map[1 := CreateRequest(n, u, m), 2 := CreateRequest(n, u', m')];
            && IsRun(reqs, true, states, IMPATIENT_STEPS) && !AllPatient(states, IMPATIENT_STEPS)
            && Get(states[10].calls, 2) == Some(Answered(Created(2))) && Fold(states[10].log, 2) == map[n := Coll(u, 1, m, map[])]
  {
    var states := ImpatientRun(n, u, m, u', m');
    PatienceFold(n, u, m, u', m');
    PatienceFirst(n, u, m, u', m');
    PatienceLast(n, u, m, u', m');
    assert !Patient(states[3], IMPATIENT_STEPS[3]);
    hide Next, Patient, Fold;
  }

  lemma PatienceFirst(n: Name, u: Uuid, m: Mapping, u': Uuid, m': Mapping)
    ensures var states, reqs := ImpatientRun(n, u, m, u', m'), map[1 := CreateRequest(n, u, m), 2 := CreateRequest(n, u', m')];
            forall i :: 0 <= i < 5 ==> Next(reqs, true, states[i], IMPATIENT_STEPS[i], states[i + 1])
  {
  }

  lemma PatienceLast(n: Name, u: Uuid, m: Mapping, u': Uuid, m': Mapping)
    ensures var states, reqs := ImpatientRun(n, u, m, u', m'), map[1 := CreateRequest(n, u, m), 2 := CreateRequest(n, u', m')];
            forall i :: 5 <= i < 10 ==> Next(reqs, true, states[i], IMPATIENT_STEPS[i], states[i + 1])
  {
    assert Fold([Create(n, u, m)], 0) == map[];
  }

  lemma PatienceFold(n: Name, u: Uuid, m: Mapping, u': Uuid, m': Mapping)
    ensures Fold([Create(n, u, m), Create(n, u', m')], 2) == map[n := Coll(u, 1, m, map[])]
  {
    var log := [Create(n, u, m), Create(n, u', m')];
    assert Fold(log, 0) == map[];
    assert Fold(log, 1) == map[n := Coll(u, 1, m, map[])];
  }
}
