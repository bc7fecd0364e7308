/** The managed bridge between its registration and its epilogue: what each select branch does, and
    how the session ends. */
module Bridge {
  import opened Wrappers
  import Sessions

  datatype Mode = Shell | Exec | Sftp

  /** What keeps the bridge from connecting, if anything does. */
  datatype Opening = Denied | NoCommand | SignalWhileConnecting | ConnectFailed | Connected

  /** The select branch that wins an iteration; `sent` is whether the target took the message. */
  datatype Branch =
    | Signal
    | Input(sent: bool)
    | Resize(sent: bool)
    | Output
    | ExitReport
    | TargetEof
    | Close

  /** How the bridge leaves: `terminated` and `exitReported` are its variables, `ok` its result. */
  datatype Ending = Ending(terminated: bool, ok: bool, exitReported: bool)

  predicate ForwardsResize(mode: Mode, pty: bool) {
    mode != Sftp && (mode != Exec || pty)
  }

  /** The branches that end the loop. */
  predicate Stops(mode: Mode, pty: bool, branch: Branch) {
    match branch
    case Signal => true
    case Input(sent) => !sent
    case Resize(sent) => ForwardsResize(mode, pty) && !sent
    case Close => true
    case _ => false
  }

  ghost predicate FirstStop(mode: Mode, pty: bool, branches: seq<Branch>, k: nat) {
    k < |branches| && Stops(mode, pty, branches[k]) && forall i :: 0 <= i < k ==> !Stops(mode, pty, branches[i])
  }

  /** An exit reported by the target before branch `k` reaches the client, unless the menu returns. */
  predicate ReportedBefore(returnsToTui: bool, branches: seq<Branch>, k: nat)
    requires k <= |branches|
  {
    !returnsToTui && exists i :: 0 <= i < k && branches[i] == ExitReport
  }

  /** Connects, then relays until a branch stops it; None while still relaying. */
  method RunBridge(mode: Mode, pty: bool, returnsToTui: bool, opening: Opening, branches: seq<Branch>)
    returns (r: Option<Ending>)
    requires opening == NoCommand ==> mode == Exec
    ensures opening == SignalWhileConnecting ==> r == Some(Ending(true, true, false))
    ensures opening in {Denied, NoCommand, ConnectFailed} ==>
      r == Some(Ending(false, false, false))
    ensures r.Some? && r.value.terminated ==> r.value.ok
    ensures opening == Connected ==> (r == None <==> forall i :: 0 <= i < |branches| ==> !Stops(mode, pty, branches[i]))
    ensures opening == Connected ==> forall k: nat :: FirstStop(mode, pty, branches, k) ==>
      && r.Some?
      && (r.value.terminated <==> branches[k] == Signal)
      && (r.value.ok <==> branches[k] == Signal || (branches[k] == Close && (mode == Exec ==> r.value.exitReported)))
      && (r.value.exitReported <==> !returnsToTui && exists i :: 0 <= i < k && branches[i] == ExitReport)
  {
    if opening in {Denied, NoCommand, ConnectFailed} { return Some(Ending(false, false, false)); }
    if opening == SignalWhileConnecting { return Some(Ending(true, true, false)); }
    var terminated, exitReported := false, false;
    for i := 0 to |branches|
      invariant !terminated
      invariant exitReported <==> ReportedBefore(returnsToTui, branches, i)
      invariant forall j :: 0 <= j < i ==> !Stops(mode, pty, branches[j])
    {
      assert Stops(mode, pty, branches[i]) ==> forall k: nat :: FirstStop(mode, pty, branches, k) ==> k == i;
      match branches[i] {
        case Signal =>
          terminated := true;
          return Some(Ending(terminated, Outcome(mode, terminated, exitReported), exitReported));
        case Input(sent) =>
          if !sent { return Some(Ending(terminated, false, exitReported)); }
        case Resize(sent) =>
          if ForwardsResize(mode, pty) && !sent { return Some(Ending(terminated, false, exitReported)); }
        case ExitReport =>
          if !returnsToTui { exitReported := true; }
        case Close =>
          return Some(Ending(terminated, Outcome(mode, terminated, exitReported), exitReported));
        case _ =>
      }
    }
    return None;
  }

  /** A command must have reported an exit, unless it was terminated. */
  function Outcome(mode: Mode, terminated: bool, exitReported: bool): bool {
    !(mode == Exec && !exitReported && !terminated)
  }

  /** What goes on and what does not: output, exit reports and the target's end of file never stop the
      bridge; a signal and a close always do; an input does if the target does not take it, and a resize
      too, unless resizes are not forwarded: to sftp, and to commands without a terminal. */
  lemma StopsExactly(mode: Mode, pty: bool)
    ensures Stops(mode, pty, Signal) && Stops(mode, pty, Close)
    ensures !Stops(mode, pty, Output) && !Stops(mode, pty, ExitReport) && !Stops(mode, pty, TargetEof)
    ensures !Stops(mode, pty, Input(true)) && !Stops(mode, pty, Resize(true)) && Stops(mode, pty, Input(false))
    ensures Stops(mode, pty, Resize(false)) <==> mode == Shell || (mode == Exec && pty)
  {
  }

  // ---------- The bridge as the task of the termination protocol ----------

  /** The protocol step by which a bridge leaves its loop. */
  function LeavingStep(s: Sessions.SessionId, ending: Ending): Sessions.Step {
    if ending.terminated then Sessions.Receive(s) else Sessions.Stop(s, ending.ok)
  }

  /** What the epilogue writes into the session record. */
  function EpilogueRecord(ending: Ending): Sessions.Record {
    if ending.terminated then Sessions.Record(Sessions.Terminated, Sessions.ByManagement)
    else if ending.ok then Sessions.Record(Sessions.Ok, Sessions.Nothing)
    else Sessions.Record(Sessions.Failed, Sessions.TaskError)
  }

  /** Every ending is one step of the protocol's task, possible exactly when a consumed signal was
      pending; from there the task's own steps lead to the record the epilogue writes. */
  lemma EndingIsStep(w: Sessions.World, s: Sessions.SessionId, ending: Ending)
    requires Sessions.Inv(w) && Sessions.InPhase(w, s, Sessions.Relaying) && (ending.terminated ==> ending.ok)
    ensures Sessions.Enabled(w, LeavingStep(s, ending)) <==> (ending.terminated ==> w.tasks[s].signals > 0)
    ensures Sessions.Enabled(w, LeavingStep(s, ending)) ==>
      var left := Sessions.Do(w, LeavingStep(s, ending));
      && left.tasks[s].phase == Sessions.Leaving(ending.ok) && left.tasks[s].terminated == ending.terminated
      && Sessions.Enabled(left, Sessions.Unregister(s))
      && var unlisted := Sessions.Do(left, Sessions.Unregister(s));
      && s !in unlisted.registry && Sessions.Enabled(unlisted, Sessions.Finish(s, true))
      && Sessions.Do(unlisted, Sessions.Finish(s, true)).records == w.records[s := EpilogueRecord(ending)]
  {
    assert Sessions.TaskInv(w, s);
  }
}
