/** Ending a session from outside: the registry, the terminating calls of the control API, and the
    bridge and relay tasks, step by step in any order. */
module Sessions {
  type SessionId = string
  type CallId = nat

  datatype Status = Started | Ok | Failed | Terminated

  /** Who explained the status in the record's error text. */
  datatype Note = Nothing | TaskError | ByManagement | ByControlApi

  datatype Record = Record(status: Status, note: Note)

  /** A handle on the termination channel of one session's task. */
  datatype Sender = Sender(session: SessionId)

  /** Where a task is: before it registered; connecting or relaying; past its loop; unregistered;
      past writing its record; returned, its receiver dropped. */
  datatype Phase =
    | Opening
    | Relaying
    | Leaving(ok: bool)
    | Unregistered(ok: bool)
    | Recorded(ok: bool, written: bool)
    | Ended(ok: bool, written: bool)

  datatype Task = Task(phase: Phase, signals: nat, terminated: bool) {
    predicate Listed() {
      phase.Relaying? || phase.Leaving?
    }

    predicate Finished() {
      phase.Recorded? || phase.Ended?
    }

    predicate Wrote() {
      Finished() && phase.written
    }

    /** What a task writes when it finishes. */
    function Verdict(): Record
      requires phase.Unregistered? || phase.Recorded? || phase.Ended?
    {
      if terminated then Record(Terminated, ByManagement)
      else if phase.ok then Record(Ok, Nothing) else Record(Failed, TaskError)
    }
  }

  /** Where a terminating call is; `Answered` and `Errored` are its ends. */
  datatype Stage = Asking | Holding(sender: Sender) | Signaled | Undelivered | Answered(terminated: bool) | Errored

  datatype Call = Call(session: SessionId, stage: Stage) {
    predicate Sent() {
      stage == Signaled || stage == Answered(true) || stage == Errored
    }
  }

  datatype World = World(
    registry: map<SessionId, Sender>,
    tasks: map<SessionId, Task>,
    calls: map<CallId, Call>,
    records: map<SessionId, Record>)

  const QUIET := World(map[], map[], map[], map[])

  datatype Step =
    | Start(s: SessionId)
    | Register(s: SessionId)
    | Receive(s: SessionId)
    | Stop(s: SessionId, ok: bool)
    | Unregister(s: SessionId)
    | Finish(s: SessionId, written: bool)
    | Return(s: SessionId)
    | Ask(c: CallId, s: SessionId)
    | LookUp(c: CallId)
    | Send(c: CallId)
    | Forget(c: CallId)
    | Mark(c: CallId, written: bool)

  predicate InPhase(w: World, s: SessionId, phase: Phase) {
    s in w.tasks && w.tasks[s].phase == phase
  }

  /** Session ids are new, and each party takes its steps in order. */
  predicate Enabled(w: World, step: Step) {
    match step
    case Start(s) => s !in w.tasks && s !in w.records && s !in w.registry
    case Register(s) => InPhase(w, s, Opening)
    case Receive(s) => InPhase(w, s, Relaying) && w.tasks[s].signals > 0
    case Stop(s, _) => InPhase(w, s, Relaying)
    case Unregister(s) => s in w.tasks && w.tasks[s].phase.Leaving?
    case Finish(s, _) => s in w.tasks && w.tasks[s].phase.Unregistered?
    case Return(s) => s in w.tasks && w.tasks[s].phase.Recorded?
    case Ask(c, _) => c !in w.calls
    case LookUp(c) => c in w.calls && w.calls[c].stage == Asking
    case Send(c) => c in w.calls && w.calls[c].stage.Holding?
    case Forget(c) => c in w.calls && w.calls[c].stage == Undelivered
    case Mark(c, _) => c in w.calls && w.calls[c].stage == Signaled
  }

  /** The receiver of a session's channel lives as long as its task. */
  predicate Delivers(w: World, sender: Sender) {
    sender.session in w.tasks && !w.tasks[sender.session].phase.Ended?
  }

  function AtPhase(w: World, s: SessionId, phase: Phase): World
    requires s in w.tasks
  {
    w.(tasks := w.tasks[s := w.tasks[s].(phase := phase)])
  }

  function AtStage(w: World, c: CallId, stage: Stage): World
    requires c in w.calls
  {
    w.(calls := w.calls[c := w.calls[c].(stage := stage)])
  }

  /** An UPDATE by id: it changes a record that is there and nothing else. */
  function Written(records: map<SessionId, Record>, s: SessionId, record: Record): map<SessionId, Record> {
    if s in records then records[s := record] else records
  }

  function Do(w: World, step: Step): World
    requires Enabled(w, step)
  {
    match step
    case Start(s) => w.(tasks := w.tasks[s := Task(Opening, 0, false)], records := w.records[s := Record(Started, Nothing)])
    case Register(s) => AtPhase(w, s, Relaying).(registry := w.registry[s := Sender(s)])
    case Receive(s) => w.(tasks := w.tasks[s := Task(Leaving(true), w.tasks[s].signals - 1, true)])
    case Stop(s, ok) => AtPhase(w, s, Leaving(ok))
    case Unregister(s) => AtPhase(w, s, Unregistered(w.tasks[s].phase.ok)).(registry := w.registry - {s})
    case Finish(s, written) =>
      AtPhase(w, s, Recorded(w.tasks[s].phase.ok, written))
        .(records := if written then Written(w.records, s, w.tasks[s].Verdict()) else w.records)
    case Return(s) => AtPhase(w, s, Ended(w.tasks[s].phase.ok, w.tasks[s].phase.written))
    case Ask(c, s) => w.(calls := w.calls[c := Call(s, Asking)])
    case LookUp(c) =>
      var s := w.calls[c].session;
      AtStage(w, c, if s in w.registry then Holding(w.registry[s]) else Answered(false))
    case Send(c) =>
      var sender := w.calls[c].stage.sender;
      if Delivers(w, sender) then
        AtStage(w, c, Signaled)
          .(tasks := w.tasks[sender.session := w.tasks[sender.session].(signals := w.tasks[sender.session].signals + 1)])
      else AtStage(w, c, Undelivered)
    case Forget(c) => AtStage(w, c, Answered(false)).(registry := w.registry - {w.calls[c].session})
    case Mark(c, written) =>
      if written then
        AtStage(w, c, Answered(true)).(records := Written(w.records, w.calls[c].session, Record(Terminated, ByControlApi)))
      else AtStage(w, c, Errored)
  }

  // ---------- The invariant ----------

  ghost function SentTo(w: World, s: SessionId): set<CallId> {
    set c | c in w.calls && w.calls[c].session == s && w.calls[c].Sent()
  }

  /** A session's entry, its signals and its record. */
  ghost predicate TaskInv(w: World, s: SessionId) {
    s in w.tasks ==>
      var t := w.tasks[s];
      && s in w.records
      && (s in w.registry <==> t.Listed())
      && (s in w.registry ==> w.registry[s] == Sender(s))
      && |SentTo(w, s)| == t.signals + (if t.terminated then 1 else 0)
      && (t.terminated ==> !t.phase.Opening? && !t.phase.Relaying?)
      && (t.terminated || !t.Finished() ==> w.records[s].status in {Started, Terminated})
      && (t.Wrote() ==> w.records[s] == t.Verdict()
                        || (w.records[s] == Record(Terminated, ByControlApi) && SentTo(w, s) != {}))
  }

  ghost predicate CallInv(w: World, c: CallId) {
    c in w.calls ==>
      var s := w.calls[c].session;
      match w.calls[c].stage
      case Asking => true
      case Holding(sender) => sender == Sender(s) && s in w.tasks && !w.tasks[s].phase.Opening?
      case Signaled => s in w.tasks
      case Undelivered => s in w.tasks && w.tasks[s].phase.Ended?
      case Answered(terminated) => terminated ==> s in w.tasks
      case Errored => s in w.tasks
  }

  ghost predicate Inv(w: World) {
    && (forall s :: TaskInv(w, s))
    && (forall c :: CallInv(w, c))
    && (forall s :: s in w.registry ==> s in w.tasks)
    && w.records.Keys == w.tasks.Keys
  }

  predicate TaskStep(step: Step) {
    step.Start? || step.Register? || step.Receive? || step.Stop? || step.Unregister? || step.Finish? || step.Return?
  }

  lemma TaskStepInv(w: World, step: Step, s: SessionId)
    requires Inv(w) && Enabled(w, step) && TaskStep(step)
    ensures TaskInv(Do(w, step), s)
  {
    hide SentTo, CallInv;
    assert TaskInv(w, s);
    SentAfter(w, step, s);
  }

  lemma CallStepInv(w: World, step: Step, s: SessionId)
    requires Inv(w) && Enabled(w, step) && !TaskStep(step)
    ensures TaskInv(Do(w, step), s)
  {
    hide SentTo;
    assert TaskInv(w, s);
    SentAfter(w, step, s);
    match step
    case Send(c) => assert CallInv(w, c);
    case Mark(c, written) => assert CallInv(w, c);
    case Forget(c) =>
      assert CallInv(w, c);
      assert TaskInv(w, w.calls[c].session);
    case _ =>
  }

  /** Only a delivered signal adds to the calls that reached a session. */
  lemma SentAfter(w: World, step: Step, s: SessionId)
    requires Inv(w) && Enabled(w, step)
    ensures SentTo(Do(w, step), s) == SentTo(w, s) +
      if step.Send? && w.calls[step.c].stage.sender.session == s && Delivers(w, Sender(s)) then {step.c} else {}
    ensures step.Send? ==> step.c !in SentTo(w, s)
    ensures s !in w.tasks ==> SentTo(w, s) == {}
    ensures step.Mark? && w.calls[step.c].session == s ==> step.c in SentTo(w, s)
  {
    hide TaskInv;
    forall c | c in SentTo(w, s) ensures s in w.tasks { assert CallInv(w, c); }
    if step.Send? || step.Mark? { assert CallInv(w, step.c); }
  }

  lemma StepCallInv(w: World, step: Step, c: CallId)
    requires Inv(w) && Enabled(w, step)
    ensures CallInv(Do(w, step), c)
  {
    assert CallInv(w, c);
    if step.LookUp? { assert TaskInv(w, w.calls[step.c].session); }
    if step.Send? { assert CallInv(w, step.c); }
  }

  /** Every step of every party keeps the invariant. */
  lemma StepKeepsInv(w: World, step: Step)
    requires Inv(w) && Enabled(w, step)
    ensures Inv(Do(w, step))
  {
    var w' := Do(w, step);
    forall s ensures TaskInv(w', s) {
      if TaskStep(step) { TaskStepInv(w, step, s); } else { CallStepInv(w, step, s); }
    }
    forall c ensures CallInv(w', c) { StepCallInv(w, step, c); }
    if step.Mark? { assert CallInv(w, step.c); }
  }

  /** An interleaving: the worlds before, between and after its steps. */
  ghost predicate Interleaving(worlds: seq<World>, steps: seq<Step>) {
    && |worlds| == |steps| + 1 && worlds[0] == QUIET
    && forall i :: 0 <= i < |steps| ==> Enabled(worlds[i], steps[i]) && worlds[i + 1] == Do(worlds[i], steps[i])
  }

  lemma {:induction false} AlwaysInv(worlds: seq<World>, steps: seq<Step>, i: nat)
    requires Interleaving(worlds, steps) && i < |worlds|
    ensures Inv(worlds[i])
  {
    hide Enabled, Do;
    if i > 0 {
      AlwaysInv(worlds, steps, i - 1);
      StepKeepsInv(worlds[i - 1], steps[i - 1]);
    }
  }

  // ---------- What holds in every interleaving ----------

  /** Once its task has ended a session is not in the registry, and while it relays it is. */
  lemma RegistryFollowsTasks(worlds: seq<World>, steps: seq<Step>, i: nat, s: SessionId)
    requires Interleaving(worlds, steps) && i < |worlds| && s in worlds[i].tasks
    ensures s in worlds[i].registry <==> worlds[i].tasks[s].Listed()
  {
    hide Interleaving;
    AlwaysInv(worlds, steps, i);
    assert TaskInv(worlds[i], s);
  }

  /** A task that consumed a signal and wrote its record leaves it "terminated", whichever writer came
      last, and no later step of anyone changes that. */
  lemma {:induction false} ConsumedMeansTerminated(worlds: seq<World>, steps: seq<Step>, i: nat, j: nat, s: SessionId)
    requires Interleaving(worlds, steps) && i <= j < |worlds| && s in worlds[i].tasks
    requires worlds[i].tasks[s].terminated && worlds[i].tasks[s].Wrote()
    ensures s in worlds[j].tasks && worlds[j].tasks[s].terminated && worlds[j].tasks[s].Wrote()
    ensures s in worlds[j].records && worlds[j].records[s].status == Terminated
    decreases j
  {
    hide Do, Enabled;
    if i < j {
      ConsumedMeansTerminated(worlds, steps, i, j - 1, s);
      VerdictStays(worlds[j - 1], steps[j - 1], s);
    }
    AlwaysInv(worlds, steps, j);
    assert TaskInv(worlds[j], s);
  }

  lemma VerdictStays(w: World, step: Step, s: SessionId)
    requires Enabled(w, step) && s in w.tasks && w.tasks[s].Wrote()
    ensures s in Do(w, step).tasks && Do(w, step).tasks[s].terminated == w.tasks[s].terminated && Do(w, step).tasks[s].Wrote()
    ensures Do(w, step).tasks[s].Verdict() == w.tasks[s].Verdict()
  {
  }

  /** The record of a finished task is its own verdict, or a call that reached it wrote last. */
  lemma RecordExplained(worlds: seq<World>, steps: seq<Step>, i: nat, s: SessionId)
    requires Interleaving(worlds, steps) && i < |worlds| && s in worlds[i].tasks && worlds[i].tasks[s].Wrote()
    ensures s in worlds[i].records
    ensures worlds[i].records[s] == worlds[i].tasks[s].Verdict()
      || (worlds[i].records[s] == Record(Terminated, ByControlApi)
          && exists c :: c in worlds[i].calls && worlds[i].calls[c].session == s && worlds[i].calls[c].Sent())
  {
    hide Interleaving;
    AlwaysInv(worlds, steps, i);
    assert TaskInv(worlds[i], s);
    if SentTo(worlds[i], s) != {} {
      var c :| c in SentTo(worlds[i], s);
    }
  }

  /** The step is the write of a call that reports the session terminated. */
  predicate Marks(w: World, step: Step, s: SessionId) {
    step.Mark? && step.written && step.c in w.calls && w.calls[step.c].session == s
  }

  ghost predicate MarkedSince(worlds: seq<World>, steps: seq<Step>, f: nat, j: nat, s: SessionId)
    requires |worlds| == |steps| + 1 && j < |worlds|
  {
    exists m :: f < m < j && Marks(worlds[m], steps[m], s)
  }

  lemma StepRecord(w: World, step: Step, s: SessionId)
    requires Inv(w) && Enabled(w, step) && s in w.tasks
    ensures var w' := Do(w, step);
      && s in w.records && s in w'.tasks && s in w'.records
      && (w'.tasks[s].terminated <==> w.tasks[s].terminated || step == Receive(s))
    ensures Do(w, step).records[s] ==
      if step == Finish(s, true) then w.tasks[s].Verdict()
      else if Marks(w, step, s) then Record(Terminated, ByControlApi)
      else w.records[s]
  {
    hide SentTo, CallInv;
    assert TaskInv(w, s);
  }

  lemma {:induction false} WroteSince(worlds: seq<World>, steps: seq<Step>, f: nat, j: nat, s: SessionId)
    requires Interleaving(worlds, steps) && f < j < |worlds| && steps[f] == Finish(s, true)
    ensures s in worlds[f].tasks && worlds[f].tasks[s].phase.Unregistered?
    ensures s in worlds[j].tasks && worlds[j].tasks[s].Wrote()
    ensures worlds[j].tasks[s].Verdict() == worlds[f].tasks[s].Verdict()
  {
    hide Do;
    if f + 1 < j {
      WroteSince(worlds, steps, f, j - 1, s);
      VerdictStays(worlds[j - 1], steps[j - 1], s);
    } else {
      VerdictWritten(worlds[f], s);
    }
  }

  lemma VerdictWritten(w: World, s: SessionId)
    requires Enabled(w, Finish(s, true))
    ensures s in Do(w, Finish(s, true)).tasks
    ensures var t := Do(w, Finish(s, true)).tasks[s]; t.Wrote() && t.Verdict() == w.tasks[s].Verdict()
  {
  }

  /** Once a task has written its record, the record is the task's verdict until a call marks it, and
      the mark of a call from then on; so it reads "terminated" if and only if the task consumed a
      signal or a call wrote after it. */
  lemma {:induction false} TerminatedExactly(worlds: seq<World>, steps: seq<Step>, f: nat, j: nat, s: SessionId)
    requires Interleaving(worlds, steps) && f < j < |worlds| && steps[f] == Finish(s, true)
    ensures s in worlds[j].tasks && worlds[j].tasks[s].Wrote() && s in worlds[j].records
    ensures worlds[j].records[s] == if MarkedSince(worlds, steps, f, j, s) then Record(Terminated, ByControlApi)
                                    else worlds[j].tasks[s].Verdict()
    ensures worlds[j].records[s].status == Terminated <==>
      worlds[j].tasks[s].terminated || MarkedSince(worlds, steps, f, j, s)
  {
    hide Do, Enabled, Inv;
    WroteSince(worlds, steps, f, j, s);
    AlwaysInv(worlds, steps, j - 1);
    if f + 1 < j {
      TerminatedExactly(worlds, steps, f, j - 1, s);
      WroteSince(worlds, steps, f, j - 1, s);
      FinishedOnce(worlds[j - 1], steps[j - 1], s);
    }
    StepRecord(worlds[j - 1], steps[j - 1], s);
  }

  lemma FinishedOnce(w: World, step: Step, s: SessionId)
    requires Enabled(w, step) && s in w.tasks && w.tasks[s].Wrote()
    ensures step != Finish(s, true) && step != Receive(s)
  {
  }

  /** A call that wrote "terminated" is right at any later time if and only if the task consumed a
      signal, or each record the task wrote since was marked again by a call. */
  lemma {:induction false} AnswerHoldsExactly(worlds: seq<World>, steps: seq<Step>, m: nat, j: nat, s: SessionId)
    requires Interleaving(worlds, steps) && m < j < |worlds| && Marks(worlds[m], steps[m], s)
    ensures s in worlds[j].tasks && s in worlds[j].records
    ensures worlds[j].records[s].status == Terminated <==>
      || worlds[j].tasks[s].terminated
      || forall f :: m < f < j && steps[f] == Finish(s, true) ==> MarkedSince(worlds, steps, f, j, s)
    decreases j
  {
    hide Do, Enabled, Inv;
    AlwaysInv(worlds, steps, j - 1);
    if f :| m < f < j && steps[f] == Finish(s, true) {
      TerminatedExactly(worlds, steps, f, j, s);
      forall g | m < g < j && steps[g] == Finish(s, true) ensures g == f { FinishOnlyOnce(worlds, steps, f, g, s); }
    } else if m + 1 < j {
      AnswerHoldsExactly(worlds, steps, m, j - 1, s);
      StepRecord(worlds[j - 1], steps[j - 1], s);
    } else {
      MarkedTask(worlds[m], steps[m], s);
      StepRecord(worlds[m], steps[m], s);
    }
  }

  lemma MarkedTask(w: World, step: Step, s: SessionId)
    requires Inv(w) && Enabled(w, step) && Marks(w, step, s)
    ensures s in w.tasks
  {
    assert CallInv(w, step.c);
  }

  lemma FinishOnlyOnce(worlds: seq<World>, steps: seq<Step>, f: nat, g: nat, s: SessionId)
    requires Interleaving(worlds, steps) && f < |steps| && g < |steps|
    requires steps[f] == Finish(s, true) && steps[g] == Finish(s, true)
    ensures f == g
  {
    hide Do;
    if f < g { WroteSince(worlds, steps, f, g, s); }
    if g < f { WroteSince(worlds, steps, g, f, s); }
  }

  /** Nobody is terminated unasked: each signal consumed or pending was sent by a call of its own. */
  lemma SignalsAreConserved(worlds: seq<World>, steps: seq<Step>, i: nat, s: SessionId)
    requires Interleaving(worlds, steps) && i < |worlds| && s in worlds[i].tasks
    ensures |SentTo(worlds[i], s)| == worlds[i].tasks[s].signals + (if worlds[i].tasks[s].terminated then 1 else 0)
  {
    hide Interleaving;
    AlwaysInv(worlds, steps, i);
    assert TaskInv(worlds[i], s);
  }

  /** Cleaning up after an undelivered signal never removes anything: its session unregistered first. */
  lemma ForgettingFindsNothing(worlds: seq<World>, steps: seq<Step>, i: nat)
    requires Interleaving(worlds, steps) && i < |steps| && steps[i].Forget?
    ensures worlds[i + 1].registry == worlds[i].registry
  {
    AlwaysInv(worlds, steps, i);
    var c := steps[i].c;
    assert CallInv(worlds[i], c);
    assert TaskInv(worlds[i], worlds[i].calls[c].session);
  }

  /** One call's look-up, send and clean-up with nobody in between. */
  function Alone(w: World, c: CallId): World
    requires Enabled(w, LookUp(c))
  {
    var found := Do(w, LookUp(c));
    if !found.calls[c].stage.Holding? then found
    else
      var sent := Do(found, Send(c));
      if sent.calls[c].stage == Undelivered then Do(sent, Forget(c)) else sent
  }

  /** A signal sent to a session whose task has ended goes nowhere: the call answers that there is no such
      session, and no record changes. One sent before that arrives. */
  lemma SignalsNeedATask(w: World, c: CallId)
    requires Inv(w) && Enabled(w, Send(c))
    ensures var s := w.calls[c].session; var sent := Do(w, Send(c));
      && s in w.tasks
      && (w.tasks[s].phase.Ended? ==>
            && Enabled(sent, Forget(c)) && Do(sent, Forget(c)).calls[c].stage == Answered(false)
            && Do(sent, Forget(c)).records == w.records && Do(sent, Forget(c)).tasks == w.tasks)
      && (!w.tasks[s].phase.Ended? ==>
            && sent.calls[c].stage == Signaled && sent.tasks[s].signals == w.tasks[s].signals + 1 && sent.records == w.records)
  {
    assert CallInv(w, c);
  }

  /** A call that nobody interrupts is answered by delivery exactly when the session is registered. */
  lemma UninterruptedCallDelivers(w: World, c: CallId)
    requires Inv(w) && Enabled(w, LookUp(c))
    ensures Alone(w, c).calls[c].stage == if w.calls[c].session in w.registry then Signaled else Answered(false)
    ensures Alone(w, c).registry == w.registry
  {
    assert TaskInv(w, w.calls[c].session);
  }

  /** The registry object. Each method holds the lock for its one access to the table, which is the
      table's part in one step of the protocol. */
  class ActiveSessions {
    var entries: map<SessionId, Sender>

    ghost predicate Mirrors(w: World)
      reads this
    {
      entries == w.registry
    }

    constructor ()
      ensures Mirrors(QUIET)
    {
      entries := map[];
    }

    method Register(s: SessionId, sender: Sender, ghost w: World)
      requires Mirrors(w) && Enabled(w, Step.Register(s)) && sender == Sender(s)
      modifies this
      ensures Mirrors(Do(w, Step.Register(s)))
    {
      entries := entries[s := sender];
    }

    /** Drops an entry, for its task or for a call whose signal went nowhere. */
    method Unregister(s: SessionId, ghost w: World, ghost step: Step)
      requires Mirrors(w) && Enabled(w, step)
      requires step == Step.Unregister(s) || (step.Forget? && w.calls[step.c].session == s)
      modifies this
      ensures Mirrors(Do(w, step))
    {
      entries := entries - {s};
    }

    method Find(s: SessionId, c: CallId, ghost w: World) returns (found: Stage)
      requires Mirrors(w) && Enabled(w, LookUp(c)) && w.calls[c].session == s
      ensures found == Do(w, LookUp(c)).calls[c].stage
      ensures Mirrors(Do(w, LookUp(c)))
    {
      return if s in entries then Holding(entries[s]) else Answered(false);
    }

    /** A whole call; `delivers` is the answer of the channel, which knows whether its receiver lives. */
    method Terminate(s: SessionId, c: CallId, delivers: bool, ghost w: World) returns (signaled: bool)
      requires Mirrors(w) && Enabled(w, LookUp(c)) && w.calls[c].session == s
      requires s in entries ==> (delivers <==> Delivers(w, entries[s]))
      modifies this
      ensures Mirrors(Alone(w, c))
      ensures signaled <==> Alone(w, c).calls[c].stage == Signaled
    {
      var found := Find(s, c, w);
      if !found.Holding? { return false; }
      if delivers { return true; }
      Unregister(s, Do(Do(w, LookUp(c)), Send(c)), Forget(c));
      return false;
    }
  }

  /** The call was answered "terminated", its session has ended, and the record reads otherwise. */
  ghost predicate AnsweredYet(w: World, c: CallId, record: Record) {
    && c in w.calls && w.calls[c].stage == Answered(true)
    && var s := w.calls[c].session; s in w.tasks && w.tasks[s].phase.Ended? && s in w.records && w.records[s] == record
  }

  ghost predicate Reachable(w: World) {
    exists worlds, steps :: Interleaving(worlds, steps) && worlds[|steps|] == w
  }

  lemma QuietReachable()
    ensures Reachable(QUIET)
  {
    var worlds, steps: seq<Step> := [QUIET], [];
    assert Interleaving(worlds, steps) && worlds[|steps|] == QUIET;
  }

  lemma StepReachable(w: World, step: Step, w': World)
    requires Reachable(w) && Enabled(w, step) && w' == Do(w, step)
    ensures Reachable(w')
  {
    var worlds, steps :| Interleaving(worlds, steps) && worlds[|steps|] == w;
    var further, more := worlds + [w'], steps + [step];
    assert Interleaving(further, more) && further[|more|] == w';
  }

  /** One session and one call for it. */
  function Scene(listed: bool, phase: Phase, signals: nat, stage: Stage, record: Record): World {
    World(if listed then map["s" := Sender("s")] else map[], map["s" := Task(phase, signals, false)],
          map[0 := Call("s", stage)], map["s" := record])
  }

  const JUST_STARTED := Record(Started, Nothing)

  lemma SignalDelivered()
    ensures Reachable(Scene(true, Relaying, 1, Signaled, JUST_STARTED))
  {
    hide Reachable;
    var asked := World(map[], map[], map[0 := Call("s", Asking)], map[]);
    QuietReachable();
    StepReachable(QUIET, Ask(0, "s"), asked);
    StepReachable(asked, Start("s"), Scene(false, Opening, 0, Asking, JUST_STARTED));
    StepReachable(Scene(false, Opening, 0, Asking, JUST_STARTED), Register("s"), Scene(true, Relaying, 0, Asking, JUST_STARTED));
    var held := Scene(true, Relaying, 0, Holding(Sender("s")), JUST_STARTED);
    StepReachable(Scene(true, Relaying, 0, Asking, JUST_STARTED), LookUp(0), held);
    StepReachable(held, Send(0), Scene(true, Relaying, 1, Signaled, JUST_STARTED));
  }

  /** A call may be told "terminated" of a session whose record then reads "ok": its signal was sent
      but never consumed. */
  lemma AnswerMayBeOverwritten()
    ensures exists w :: Reachable(w) && AnsweredYet(w, 0, Record(Ok, Nothing))
  {
    hide Reachable;
    SignalDelivered();
    var stopped := Scene(true, Leaving(true), 1, Signaled, JUST_STARTED);
    StepReachable(Scene(true, Relaying, 1, Signaled, JUST_STARTED), Stop("s", true), stopped);
    var marked := Scene(true, Leaving(true), 1, Answered(true), Record(Terminated, ByControlApi));
    StepReachable(stopped, Mark(0, true), marked);
    var unlisted := Scene(false, Unregistered(true), 1, Answered(true), Record(Terminated, ByControlApi));
    StepReachable(marked, Unregister("s"), unlisted);
    var finished := Scene(false, Recorded(true, true), 1, Answered(true), Record(Ok, Nothing));
    StepReachable(unlisted, Finish("s", true), finished);
    var ended := Scene(false, Ended(true, true), 1, Answered(true), Record(Ok, Nothing));
    StepReachable(finished, Return("s"), ended);
  }
}
