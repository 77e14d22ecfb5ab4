/**
 * A child process as the primary sees it through its `Process` handle, and
 * `StopSelectedProcess`. The operating system is abstracted into a
 * three-state lifecycle: running, kill requested (the signal is sent but
 * exit is not yet confirmed), exited.
 */
module Processes {
  import opened Launch

  datatype State = Running | KillRequested | Exited

  /** What can be observed of a process: its state and how many kill requests it received. */
  datatype Snapshot = Snapshot(state: State, kills: nat)

  class ChildProcess {
    /** `Process.Id`, assigned by the operating system at start. */
    const id: int
    /** `Process.ProcessName`, reported by the operating system. */
    const name: string
    /** The start information the process was launched with. */
    const startInfo: StartInfo
    var state: State
    var kills: nat

    /** `Process.Start`: a new process, running, never signalled. */
    constructor Start(id: int, name: string, startInfo: StartInfo)
      ensures this.id == id && this.name == name && this.startInfo == startInfo
      ensures state == Running && kills == 0
    {
      this.id := id;
      this.name := name;
      this.startInfo := startInfo;
      state := Running;
      kills := 0;
    }

    function Snap(): Snapshot
      reads this
    {
      Snapshot(state, kills)
    }

    /** `HasExited`, a live query of the state. */
    predicate HasExited()
      reads this
    {
      state == Exited
    }

    /** `Kill()`: sends the kill signal; it refuses a process that has already exited. */
    method Kill()
      requires state != Exited
      modifies this
      ensures state == KillRequested && kills == old(kills) + 1
    {
      state := KillRequested;
      kills := kills + 1;
    }

    /**
     * `WaitForExit()`: blocks until the process has exited. The child never
     * exits on its own, so this returns only for a process already signalled.
     */
    method WaitForExit()
      requires state != Running
      modifies this
      ensures state == Exited && kills == old(kills)
    {
      state := Exited;
    }
  }

  /** The effect of `StopSelectedProcess(p, wait)` on `p`. */
  function StopEffect(s: Snapshot, wait: bool): Snapshot
  {
    if s.state == Exited then s
    else Snapshot(if wait then Exited else KillRequested, s.kills + 1)
  }

  /** The effect of `Exit` on each registered process: kill it unless it has exited, then wait for it. */
  function ShutdownEffect(s: Snapshot): Snapshot
  {
    if s.state == Exited then s else Snapshot(Exited, s.kills + 1)
  }

  /**
   * `StopSelectedProcess`: a process that has already exited is left alone;
   * any other is killed, and waited for only when `wait` is set.
   */
  method StopSelectedProcess(p: ChildProcess, wait: bool)
    modifies p
    ensures p.Snap() == StopEffect(old(p.Snap()), wait)
  {
    if p.HasExited() {
      return;
    }
    p.Kill();
    if wait {
      p.WaitForExit();
    }
  }

  /** Stopping an exited process changes nothing: repeated stops are harmless. */
  lemma StopExitedIsNoOp(s: Snapshot, wait: bool)
    requires s.state == Exited
    ensures StopEffect(s, wait) == s
  {
  }

  /** A process that has not exited receives exactly one kill request. */
  lemma StopKillsOnce(s: Snapshot, wait: bool)
    requires s.state != Exited
    ensures StopEffect(s, wait).kills == s.kills + 1
  {
  }

  /** After a stop with wait the process has exited; without wait its exit is not confirmed. */
  lemma StopWaitSemantics(s: Snapshot)
    ensures StopEffect(s, true).state == Exited
    ensures s.state != Exited ==> StopEffect(s, false).state == KillRequested
  {
  }

  /** A stop with wait is idempotent: a second stop of either kind changes nothing more. */
  lemma StopWithWaitIdempotent(s: Snapshot, wait: bool)
    ensures StopEffect(StopEffect(s, true), wait) == StopEffect(s, true)
  {
  }

  /** Shutting a process down is stopping it with wait. */
  lemma ShutdownIsStopWithWait(s: Snapshot)
    ensures ShutdownEffect(s) == StopEffect(s, true)
    ensures ShutdownEffect(s).state == Exited
    ensures s.state == Exited ==> ShutdownEffect(s).kills == s.kills
  {
  }
}
