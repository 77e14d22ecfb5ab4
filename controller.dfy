/**
 * The primary's command loop and the registry of started children:
 * `AddProcess`, `StopProcess`, `ParseStopProcess` with its list form,
 * `ListProcesses`, `Exit` and the loop of `Main`. The registry is the
 * dictionary from process id to process handle, held as its enumeration
 * order (see module `Registry`).
 */
module Controller {
  import opened Wrappers
  import opened Commands
  import opened Platform
  import opened Launch
  import opened Registry
  import opened Processes

  /** What a single `StopProcess` call does, in place of its console message. */
  datatype StopOutcome = NothingToStop | NoSuchProcess(pid: int) | Stopped(key: int)

  /** What `ListProcesses` writes: the empty-registry message, or one row `(key, name)` per process. */
  datatype Listing = NoProcesses | Rows(rows: seq<(int, string)>)

  /**
   * What the operating system does for one `Process.Start`: it starts a
   * process with id `pid` and name `name`, after whose registration the
   * dictionary enumerates its entries in the order `order` picks (see
   * `Registry.Add`); or it refuses to start it.
   */
  datatype Spawn = Spawned(pid: int, name: string, order: seq<nat>) | Refused

  /** Everything `Main` takes from outside: the platform, the base directory, the answers to each start. */
  datatype Environment = Environment(platform: PlatformId, baseDirectory: string, spawns: seq<Spawn>)

  /**
   * How the command loop ends: by the `exit` command on input line `line`,
   * by an exception escaping the handling of line `line`, or by running
   * out of input.
   */
  datatype RunEnd = ExitCommand(line: nat) | Crash(line: nat, fault: Fault) | InputExhausted

  /** The outcome `StopProcess` reports for a resolution of its target. */
  function OutcomeOf(r: Resolution<ChildProcess>): StopOutcome
  {
    match r
    case NoEntries => NothingToStop
    case Missing(pid) => NoSuchProcess(pid)
    case Target(key, _) => Stopped(key)
  }

  /**
   * The keys a successfully parsed stop request removes from registry `es`:
   * the last enumerated key for the plain form (none on an empty registry),
   * the pids read before any unreadable token for the list form.
   */
  function StopKeys(es: seq<Entry<ChildProcess>>, req: StopRequest): seq<int>
  {
    match req
    case StopLast(_) => if es == [] then [] else [LastEntry(es).0]
    case StopIds(_, tokens) => ParsePids(tokens).pids
  }

  /** A registry is consistent when its keys are unique and each key is its process's id. */
  ghost predicate Consistent(es: seq<Entry<ChildProcess>>)
  {
    UniqueKeys(es) && forall i :: 0 <= i < |es| ==> es[i].0 == es[i].1.id
  }

  /** The processes a registry holds. */
  ghost function ProcsOf(es: seq<Entry<ChildProcess>>): set<ChildProcess>
  {
    set i | 0 <= i < |es| :: es[i].1
  }

  /** In a consistent registry a process is registered exactly when the lookup of its id finds it. */
  lemma ProcsMembership(es: seq<Entry<ChildProcess>>, q: ChildProcess)
    requires Consistent(es)
    ensures q in ProcsOf(es) <==> Find(es, q.id) == Some(q)
  {
    if q in ProcsOf(es) {
      var i :| 0 <= i < |es| && es[i].1 == q;
      FindAt(es, i);
    }
    if Find(es, q.id) == Some(q) {
      var i :| 0 <= i < |es| && es[i] == (q.id, q);
      assert es[i].1 in ProcsOf(es);
    }
  }

  /** In a consistent registry the process found under a key has that key as its id. */
  lemma FoundHasId(es: seq<Entry<ChildProcess>>, k: int, p: ChildProcess)
    requires Consistent(es) && Find(es, k) == Some(p)
    ensures p in ProcsOf(es) && p.id == k
  {
    var i :| 0 <= i < |es| && es[i] == (k, p);
    assert es[i].1 in ProcsOf(es);
  }

  /** Two entries of a consistent registry hold distinct processes. */
  lemma DistinctProcesses(es: seq<Entry<ChildProcess>>, i: int, j: int)
    requires Consistent(es) && 0 <= i < |es| && 0 <= j < |es| && i != j
    ensures es[i].1 != es[j].1
  {
  }

  /**
   * Removing keys from a consistent registry leaves it consistent and
   * keeps exactly the processes whose ids were not removed.
   */
  lemma RemoveAllConsistent(es: seq<Entry<ChildProcess>>, ks: seq<int>)
    requires Consistent(es)
    ensures Consistent(RemoveAll(es, ks))
    ensures forall q :: q in ProcsOf(RemoveAll(es, ks)) <==> q in ProcsOf(es) && q.id !in ks
  {
    var r := RemoveAll(es, ks);
    RemoveAllSpec(es, ks);
    forall i | 0 <= i < |r| ensures r[i].0 == r[i].1.id {
      MemberOfRemoveAll(es, ks, r[i]);
    }
    forall q ensures q in ProcsOf(r) <==> q in ProcsOf(es) && q.id !in ks {
      ProcsMembership(es, q);
      ProcsMembership(r, q);
    }
  }

  /** Removing one key: the single-key case of `RemoveAllConsistent`. */
  lemma RemoveConsistent(es: seq<Entry<ChildProcess>>, k: int)
    requires Consistent(es)
    ensures Consistent(Remove(es, k))
    ensures forall q :: q in ProcsOf(Remove(es, k)) <==> q in ProcsOf(es) && q.id != k
  {
    assert RemoveAll(es, [k]) == RemoveAll(Remove(es, k), []) == Remove(es, k);
    RemoveAllConsistent(es, [k]);
  }

  /**
   * A registry with distinct keys whose entries are those of a consistent
   * registry and one more entry, the process under its own id, is
   * consistent and holds one more process.
   */
  lemma ExtendedConsistent(es: seq<Entry<ChildProcess>>, r: seq<Entry<ChildProcess>>, p: ChildProcess)
    requires Consistent(es) && UniqueKeys(r)
    requires forall x :: x in r <==> x in es || x == (p.id, p)
    ensures Consistent(r) && ProcsOf(r) == ProcsOf(es) + {p}
  {
    forall i | 0 <= i < |r| ensures r[i].0 == r[i].1.id {
      assert r[i] in r;
    }
    forall q ensures q in ProcsOf(r) <==> q in ProcsOf(es) || q == p {
      if q in ProcsOf(r) {
        var i :| 0 <= i < |r| && r[i].1 == q;
        assert r[i] in r;
        if r[i] in es {
          var j :| 0 <= j < |es| && es[j] == r[i];
          assert es[j].1 in ProcsOf(es);
        }
      }
      if q in ProcsOf(es) {
        var j :| 0 <= j < |es| && es[j].1 == q;
        assert es[j] in es;
        var i :| 0 <= i < |r| && r[i] == es[j];
        assert r[i].1 in ProcsOf(r);
      }
      if q == p {
        assert (p.id, p) in r;
        var i :| 0 <= i < |r| && r[i] == (p.id, p);
        assert r[i].1 in ProcsOf(r);
      }
    }
  }

  /** Registering a process under its own, new id keeps the registry consistent and adds just that process. */
  lemma AddConsistent(es: seq<Entry<ChildProcess>>, order: seq<nat>, p: ChildProcess)
    requires Consistent(es) && !HasKey(es, p.id)
    ensures Consistent(Add(es, (p.id, p), order))
    ensures ProcsOf(Add(es, (p.id, p), order)) == ProcsOf(es) + {p}
  {
    var r := Add(es, (p.id, p), order);
    AddSpec(es, (p.id, p), order);
    forall x ensures x in r <==> x in es || x == (p.id, p) {
      MemberOfAdd(es, (p.id, p), order, x);
    }
    ExtendedConsistent(es, r, p);
  }

  /**
   * What one input line other than `exit` does to registry `es`, given the
   * spawn a start would receive: the registry `es'` it leaves and the
   * exception `fault` that escapes, if any. Blank, unrecognised and `list`
   * lines leave it as it is; `start` fails on a refusal or a registered id
   * and otherwise adds the new child, under its pid, to the old entries in
   * whatever order the table then enumerates; a stop line removes the keys
   * it selects and fails exactly when a pid token does not parse.
   */
  ghost predicate Turn(es: seq<Entry<ChildProcess>>, es': seq<Entry<ChildProcess>>,
                       input: Option<string>, spawn: Spawn, fault: Option<Fault>)
  {
    match Route(input)
    case Blank => fault == None && es' == es
    case Unrecognized => fault == None && es' == es
    case List => fault == None && es' == es
    case Exit => false
    case Start =>
      if spawn.Refused? then fault == Some(SpawnRefused) && es' == es
      else if HasKey(es, spawn.pid) then fault == Some(DuplicateId(spawn.pid)) && es' == es
      else
        && fault == None
        && exists e :: e in es' && e.0 == spawn.pid && e.1.name == spawn.name && multiset(es') == multiset(es) + multiset{e}
    case Stop(line) =>
      && ParseStop(line).Ok?
      && var req := ParseStop(line).value;
         && fault == (if req.StopIds? then ParsePids(req.tokens).failure else None)
         && es' == RemoveAll(es, StopKeys(es, req))
  }

  /**
   * A line's exception is decided by the registry, the line and the spawn:
   * a line that raises one cannot also be handled without one, and every
   * line but a successful start decides the registry it leaves as well.
   */
  lemma TurnDeterministic(es: seq<Entry<ChildProcess>>, es1: seq<Entry<ChildProcess>>, es2: seq<Entry<ChildProcess>>,
                          input: Option<string>, spawn: Spawn, f1: Option<Fault>, f2: Option<Fault>)
    requires Turn(es, es1, input, spawn, f1) && Turn(es, es2, input, spawn, f2)
    ensures f1 == f2
    ensures !Route(input).Start? || f1.Some? ==> es1 == es2
  {
  }

  /** How many of the lines are `start`. */
  function StartCount(lines: seq<Option<string>>): nat
  {
    if lines == [] then 0
    else StartCount(lines[..|lines| - 1]) + (if Route(lines[|lines| - 1]).Start? then 1 else 0)
  }

  /** The spawn the start on line `k` receives: the next one of the environment, or a refusal when they have run out. */
  function SpawnFor(inputs: seq<Option<string>>, env: Environment, k: nat): Spawn
    requires k <= |inputs|
  {
    var n := StartCount(inputs[..k]);
    if n < |env.spawns| then env.spawns[n] else Refused
  }

  /**
   * `trace` is the registry before each of the first `|trace| - 1` lines and
   * after the last of them: each of those lines was handled without an
   * exception, taking the registry from one element to the next.
   */
  ghost predicate Handled(inputs: seq<Option<string>>, env: Environment, trace: seq<seq<Entry<ChildProcess>>>)
  {
    && 1 <= |trace| <= |inputs| + 1
    && forall k :: 0 <= k < |trace| - 1 ==> Turn(trace[k], trace[k + 1], inputs[k], SpawnFor(inputs, env, k), None)
  }

  class FleetController {
    /** `MyProcesses`, in enumeration order. */
    var entries: seq<Entry<ChildProcess>>

    /** The processes the registry holds. */
    ghost function Procs(): set<ChildProcess>
      reads this
    {
      ProcsOf(entries)
    }

    /**
     * Keys are unique and each is its process's id, and every registered
     * child is still running: a child never exits on its own, and a stopped
     * one leaves the registry.
     */
    ghost predicate Valid()
      reads this, Procs()
    {
      Consistent(entries) && forall i :: 0 <= i < |entries| ==> entries[i].1.state == Running
    }

    /** The primary starts with an empty registry. */
    constructor ()
      ensures Valid() && entries == []
    {
      entries := [];
    }

    /**
     * `AddProcess`: plan the child's start information, start it, register
     * it under its id. A refused start or an id already registered is an
     * exception; in the second case the child is running but unregistered.
     */
    method AddProcess(platform: PlatformId, baseDirectory: string, spawn: Spawn) returns (r: Result<ChildProcess, Fault>)
      requires Valid()
      modifies this
      ensures Valid()
      ensures spawn.Refused? ==> r == Err(SpawnRefused) && entries == old(entries)
      ensures spawn.Spawned? && HasKey(old(entries), spawn.pid) ==>
                r == Err(DuplicateId(spawn.pid)) && entries == old(entries)
      ensures spawn.Spawned? && !HasKey(old(entries), spawn.pid) ==>
                && r.Ok? && fresh(r.value)
                && r.value.id == spawn.pid && r.value.name == spawn.name
                && r.value.state == Running && r.value.kills == 0
                && r.value.startInfo == CreateStartInfo(platform, baseDirectory, ChildProcessName)
                && entries == Add(old(entries), (spawn.pid, r.value), spawn.order)
                && Procs() == old(Procs()) + {r.value}
    {
      var info := CreateStartInfo(platform, baseDirectory, ChildProcessName);
      if spawn.Refused? {
        return Err(SpawnRefused);
      }
      var process := new ChildProcess.Start(spawn.pid, spawn.name, info);
      if HasKey(entries, process.id) {
        return Err(DuplicateId(process.id));
      }
      AddConsistent(entries, spawn.order, process);
      var es := Add(entries, (process.id, process), spawn.order);
      forall i | 0 <= i < |es| ensures es[i].1.state == Running {
        MemberOfAdd(entries, (process.id, process), spawn.order, es[i]);
      }
      entries := es;
      r := Ok(process);
    }

    /**
     * `StopProcess(pid, wait)`: on an empty registry nothing happens; an
     * explicit pid that is not registered is reported and nothing happens;
     * otherwise the target (the explicit pid's process, or the last
     * enumerated one) is stopped and its key removed. No other process is
     * touched.
     */
    method StopProcess(pid: Option<int>, wait: bool) returns (r: StopOutcome)
      requires Valid()
      modifies this, Procs()
      ensures Valid()
      ensures r == OutcomeOf(Resolve(old(entries), pid))
      ensures r.Stopped? ==> entries == Remove(old(entries), r.key)
      ensures !r.Stopped? ==> entries == old(entries)
      ensures forall q :: q in old(Procs()) ==>
                q.Snap() == if r.Stopped? && q.id == r.key then StopEffect(old(q.Snap()), wait) else old(q.Snap())
    {
      if entries == [] {
        return NothingToStop;
      }
      var process: ChildProcess;
      var key: int;
      if pid.Some? {
        key := pid.value;
        var found := Find(entries, key);
        if found.None? {
          return NoSuchProcess(key);
        }
        process := found.value;
        FoundHasId(entries, key, process);
      } else {
        process := LastEntry(entries).1;
        key := process.id;
        assert entries[|entries| - 1].1 in Procs();
        ResolveLast(entries);
      }
      forall q | q in Procs() && q.id == key ensures q == process {
        ProcsMembership(entries, q);
        ProcsMembership(entries, process);
      }
      StopSelectedProcess(process, wait);
      RemoveConsistent(entries, key);
      var es := Remove(entries, key);
      forall i | 0 <= i < |es| ensures es[i].1.state == Running {
        MemberOfRemove(entries, key, es[i]);
        var j :| 0 <= j < |entries| && entries[j] == es[i];
        assert entries[j].1 != process;
      }
      entries := es;
      r := Stopped(key);
    }

    /**
     * The loop of `ProcessStopCommandForList`, run in token order: each
     * token is read as a pid and that process stopped; the first token that
     * is not a pid raises the exception that ends the command. The keys
     * removed are the pids read before it, and each registered process is
     * stopped exactly when its id is among them.
     */
    method StopEach(tokens: seq<string>, wait: bool) returns (failure: Option<Fault>)
      requires Valid()
      modifies this, Procs()
      ensures Valid() && Procs() <= old(Procs())
      ensures failure == ParsePids(tokens).failure
      ensures entries == RemoveAll(old(entries), ParsePids(tokens).pids)
      ensures forall q :: q in old(Procs()) ==>
                q.Snap() == if q.id in ParsePids(tokens).pids then StopEffect(old(q.Snap()), wait) else old(q.Snap())
    {
      ghost var rs := PidResults(tokens);
      ghost var es0 := entries;
      ghost var snaps0 := map q | q in Procs() :: q.Snap();
      ghost var pids: seq<int> := [];
      failure := None;
      var n := 0;
      while n < |tokens|
        invariant 0 <= n <= |tokens|
        invariant Valid()
        invariant |pids| == n && forall j :: 0 <= j < n ==> rs[j] == Ok(pids[j])
        invariant entries == RemoveAll(es0, pids)
        invariant Procs() <= old(Procs())
        invariant forall q :: q in snaps0 ==>
                    q.Snap() == if q.id in pids then StopEffect(snaps0[q], wait) else snaps0[q]
        invariant failure == None
      {
        failure, pids := StopPiece(tokens, n, wait, es0, snaps0, pids, rs);
        if failure.Some? {
          break;
        }
        n := n + 1;
      }
      if failure.None? {
        AllOkBeforeFailure(rs, pids);
      }
    }

    /**
     * The body of the loop over the pieces: token `n` is read as a pid and,
     * when it is one, that process is stopped; otherwise the fault is
     * returned and nothing changes. `pids` are the pids of the tokens before
     * `n`, `es0` and `snaps0` the registry and the processes' states before
     * the list.
     */
    method StopPiece(tokens: seq<string>, n: nat, wait: bool, ghost es0: seq<Entry<ChildProcess>>,
                     ghost snaps0: map<ChildProcess, Snapshot>, ghost pids: seq<int>,
                     ghost rs: seq<Result<int, Fault>>) returns (failure: Option<Fault>, ghost pids': seq<int>)
      requires n < |tokens| && rs == PidResults(tokens)
      requires |pids| == n && forall j :: 0 <= j < n ==> rs[j] == Ok(pids[j])
      requires Valid() && Consistent(es0) && entries == RemoveAll(es0, pids)
      requires snaps0.Keys == ProcsOf(es0)
      requires forall q :: q in snaps0 ==>
                 q.Snap() == if q.id in pids then StopEffect(snaps0[q], wait) else snaps0[q]
      modifies this, Procs()
      ensures Valid() && entries == RemoveAll(es0, pids')
      ensures Procs() <= old(Procs())
      ensures forall q :: q in snaps0 ==>
                q.Snap() == if q.id in pids' then StopEffect(snaps0[q], wait) else snaps0[q]
      ensures failure.Some? ==> PidsBeforeFailure(rs) == PidList(pids', failure)
      ensures failure.None? ==> |pids'| == n + 1 && forall j :: 0 <= j < n + 1 ==> rs[j] == Ok(pids'[j])
    {
      var parsed := GetProcessIdFromString(tokens[n]);
      PidResultsAt(tokens, n);
      if parsed.Err? {
        FirstFailure(rs, pids);
        return Some(parsed.error), pids;
      }
      var k := parsed.value;
      var _ := StopListed(k, wait, es0, snaps0, pids);
      failure, pids' := None, pids + [k];
    }

    /**
     * One step of `StopEach`: after the pids `pids` of a list have been
     * handled, pid `k` is stopped too, with `snaps0` the processes' states
     * before the list.
     */
    method StopListed(k: int, wait: bool, ghost es0: seq<Entry<ChildProcess>>,
                      ghost snaps0: map<ChildProcess, Snapshot>, ghost pids: seq<int>) returns (outcome: StopOutcome)
      requires Valid() && Consistent(es0) && entries == RemoveAll(es0, pids)
      requires snaps0.Keys == ProcsOf(es0)
      requires forall q :: q in snaps0 ==>
                 q.Snap() == if q.id in pids then StopEffect(snaps0[q], wait) else snaps0[q]
      modifies this, Procs()
      ensures Valid() && entries == RemoveAll(es0, pids + [k])
      ensures Procs() <= old(Procs())
      ensures forall q :: q in snaps0 ==>
                q.Snap() == if q.id in pids + [k] then StopEffect(snaps0[q], wait) else snaps0[q]
    {
      ghost var before := entries;
      RemoveAllConsistent(es0, pids);
      outcome := StopProcess(Some(k), wait);
      ResolvePid(before, k);
      forall q | q in snaps0
        ensures q.Snap() == if q.id in pids + [k] then StopEffect(snaps0[q], wait) else snaps0[q]
      {
        if q in ProcsOf(before) {
          ProcsMembership(before, q);
        }
      }
      RemoveAllSnoc(es0, pids, k);
      if !outcome.Stopped? {
        RemoveAbsent(before, k);
      }
      RemoveConsistent(before, k);
    }

    /**
     * `ParseStopProcess`: a line without `=>` stops the last enumerated
     * process, with wait when `-wait` occurs anywhere in it; a line with
     * `=>` stops the listed pids, with wait when `-wait` occurs before the
     * first `=>`. The result is the exception the command raises, if any.
     */
    method ParseStopProcess(line: string) returns (failure: Option<Fault>)
      requires Valid()
      modifies this, Procs()
      ensures Valid() && Procs() <= old(Procs())
      ensures ParseStop(line).Err? ==>
                failure == Some(ParseStop(line).error) && entries == old(entries) &&
                forall q :: q in old(Procs()) ==> q.Snap() == old(q.Snap())
      ensures ParseStop(line).Ok? ==>
                var req := ParseStop(line).value;
                var keys := StopKeys(old(entries), req);
                && failure == (if req.StopIds? then ParsePids(req.tokens).failure else None)
                && entries == RemoveAll(old(entries), keys)
                && forall q :: q in old(Procs()) ==>
                     q.Snap() == if q.id in keys then StopEffect(old(q.Snap()), req.wait) else old(q.Snap())
    {
      var parsed := ParseStop(line);
      if parsed.Err? {
        return Some(parsed.error);
      }
      match parsed.value
      case StopLast(wait) =>
        ghost var before := entries;
        if before != [] {
          ResolveLast(before);
        }
        var outcome := StopProcess(None, wait);
        assert RemoveAll(before, []) == before;
        if before != [] {
          assert RemoveAll(before, [LastEntry(before).0]) == RemoveAll(Remove(before, LastEntry(before).0), []);
        }
        RemoveAllConsistent(before, StopKeys(before, parsed.value));
        failure := None;
      case StopIds(wait, tokens) =>
        failure := StopEach(tokens, wait);
    }

    /**
     * `ListProcesses`: the empty-registry message, or one row per
     * registered process in enumeration order, giving its key and name.
     */
    method ListProcesses() returns (listing: Listing)
      requires Valid()
      ensures listing.NoProcesses? <==> entries == []
      ensures listing.Rows? ==>
                && |listing.rows| == |entries|
                && (forall i :: 0 <= i < |entries| ==> listing.rows[i] == (entries[i].0, entries[i].1.name))
                && forall i, j :: 0 <= i < j < |listing.rows| ==> listing.rows[i].0 != listing.rows[j].0
    {
      if entries == [] {
        return NoProcesses;
      }
      var rows: seq<(int, string)> := [];
      for i := 0 to |entries|
        invariant |rows| == i
        invariant forall j :: 0 <= j < i ==> rows[j] == (entries[j].0, entries[j].1.name)
      {
        rows := rows + [(entries[i].0, entries[i].1.name)];
      }
      return Rows(rows);
    }

    /**
     * `Exit`: every registered process that has not exited is killed and
     * waited for; one that has exited is left alone. The registry itself is
     * not changed.
     */
    method Exit()
      requires Consistent(entries)
      modifies Procs()
      ensures forall i :: 0 <= i < |entries| ==> entries[i].1.Snap() == ShutdownEffect(old(entries[i].1.Snap()))
      ensures forall i :: 0 <= i < |entries| ==> entries[i].1.state == Exited
    {
      if entries == [] {
        return;
      }
      var i := 0;
      while i < |entries|
        invariant 0 <= i <= |entries|
        invariant Consistent(entries)
        invariant forall j :: 0 <= j < i ==> entries[j].1.Snap() == ShutdownEffect(old(entries[j].1.Snap()))
        invariant forall j :: i <= j < |entries| ==> entries[j].1.Snap() == old(entries[j].1.Snap())
      {
        var process := entries[i].1;
        assert process in Procs();
        forall j | 0 <= j < |entries| && j != i ensures entries[j].1 != process {
          DistinctProcesses(entries, i, j);
        }
        if !process.HasExited() {
          if !process.HasExited() {
            process.Kill();
          }
          process.WaitForExit();
        }
        i := i + 1;
      }
    }

    /**
     * One turn of the loop of `Main` on a line other than `exit`: a blank,
     * unrecognised or `list` line changes neither the registry nor any
     * process; `start` runs `AddProcess` with the spawn it is given, after
     * which the registry holds the old entries and the new one, in the
     * order the table then enumerates; a `stop…` line runs
     * `ParseStopProcess`. The result is the exception that escapes, if any;
     * `child` is the process a successful start registered.
     */
    method Step(input: Option<string>, platform: PlatformId, baseDirectory: string, spawn: Spawn)
      returns (fault: Option<Fault>, ghost child: Option<ChildProcess>)
      requires Valid() && !Route(input).Exit?
      modifies this, Procs()
      ensures Valid()
      ensures forall q :: q in Procs() ==>
                || (q in old(Procs()) && q.Snap() == old(q.Snap()))
                || (fresh(q) && q.Snap() == Snapshot(Running, 0))
      ensures Turn(old(entries), entries, input, spawn, fault)
      ensures fault.Some? ==>
                || (Route(input).Start? && (fault.value.SpawnRefused? || fault.value.DuplicateId?))
                || (Route(input).Stop? && fault.value.BadPid?)
      ensures !Route(input).Stop? ==> forall q :: q in old(Procs()) ==> q.Snap() == old(q.Snap())
      ensures Route(input).Stop? ==>
                && ParseStop(Route(input).line).Ok?
                && var req := ParseStop(Route(input).line).value;
                   var keys := StopKeys(old(entries), req);
                   forall q :: q in old(Procs()) ==>
                     q.Snap() == if q.id in keys then StopEffect(old(q.Snap()), req.wait) else old(q.Snap())
      ensures Route(input).Start? && fault == None ==>
                && child.Some? && fresh(child.value)
                && child.value.id == spawn.pid && child.value.name == spawn.name
                && child.value.Snap() == Snapshot(Running, 0)
                && (spawn.pid, child.value) in entries
    {
      child := None;
      fault := None;
      match Route(input) {
      case Blank =>
      case Unrecognized =>
      case List =>
        var _ := ListProcesses();
      case Start =>
        var added := AddProcess(platform, baseDirectory, spawn);
        if added.Err? {
          fault := Some(added.error);
        } else {
          child := Some(added.value);
          AddSpec(old(entries), (spawn.pid, added.value), spawn.order);
          MemberOfAdd(old(entries), (spawn.pid, added.value), spawn.order, (spawn.pid, added.value));
        }
      case Stop(line) =>
        RouteStop(input);
        StopLineHasInfoPiece(line);
        fault := ParseStopProcess(line);
        if ParseStop(line).value.StopIds? {
          ParsePidsSpec(ParseStop(line).value.tokens);
        }
      }
    }

    /**
     * The loop of `Main` over a finite input, up to the line that ends it:
     * each line before `exit` is handled by `Step`; `exit` leaves the loop;
     * an exception escaping a command ends it at that line. The `n`-th
     * start receives the `n`-th spawn of the environment, or a refusal when
     * there is none. `trace` is the registry before each line handled
     * without an exception and after the last of them.
     */
    method Serve(inputs: seq<Option<string>>, env: Environment)
      returns (end: RunEnd, ghost trace: seq<seq<Entry<ChildProcess>>>)
      requires Valid()
      modifies this, Procs()
      ensures Valid()
      ensures !end.Crash? ==> forall q :: q in Procs() ==>
                || (q in old(Procs()) && q.Snap() == old(q.Snap()))
                || (fresh(q) && q.Snap() == Snapshot(Running, 0))
      ensures Handled(inputs, env, trace) && trace[0] == old(entries)
      ensures end.InputExhausted? ==> |trace| == |inputs| + 1 && entries == trace[|inputs|]
      ensures end.ExitCommand? ==>
                && end.line < |inputs| && |trace| == end.line + 1
                && Route(inputs[end.line]).Exit? && entries == trace[end.line]
      ensures end.Crash? ==>
                && end.line < |inputs| && |trace| == end.line + 1
                && Turn(trace[end.line], entries, inputs[end.line], SpawnFor(inputs, env, end.line), Some(end.fault))
                && (Route(inputs[end.line]).Start? ==> end.fault.SpawnRefused? || end.fault.DuplicateId?)
                && (Route(inputs[end.line]).Stop? ==> end.fault.BadPid?)
    {
      trace := [entries];
      var i := 0;
      var started := 0;
      while i < |inputs| && !Route(inputs[i]).Exit?
        invariant 0 <= i <= |inputs|
        invariant Valid()
        invariant forall q :: q in Procs() ==>
                    || (q in old(Procs()) && q.Snap() == old(q.Snap()))
                    || (fresh(q) && q.Snap() == Snapshot(Running, 0))
        invariant |trace| == i + 1 && trace[0] == old(entries) && entries == trace[i]
        invariant Handled(inputs, env, trace)
        invariant started == StartCount(inputs[..i])
      {
        var spawn := if started < |env.spawns| then env.spawns[started] else Refused;
        assert spawn == SpawnFor(inputs, env, i);
        assert inputs[..i + 1][..i] == inputs[..i];
        if Route(inputs[i]).Start? {
          started := started + 1;
        }
        var fault, _ := Step(inputs[i], env.platform, env.baseDirectory, spawn);
        if fault.Some? {
          return Crash(i, fault.value), trace;
        }
        ghost var next := trace + [entries];
        assert forall k :: 0 <= k <= i ==> next[k] == trace[k];
        trace := next;
        i := i + 1;
      }
      end := if i == |inputs| then InputExhausted else ExitCommand(i);
    }

    /**
     * `Main` over a finite input: the loop, then `Exit` when it ended on
     * `exit`. An exception escaping a command ends the program without
     * `Exit`. `trace` is the registry along the lines handled, as `Serve`
     * gives it. On `exit` the registry is the one the last of those lines
     * left, and each of its processes is in the shutdown state of the state
     * it had when `Run` began, or of a fresh start when a line started it.
     */
    method Run(inputs: seq<Option<string>>, env: Environment)
      returns (end: RunEnd, ghost trace: seq<seq<Entry<ChildProcess>>>)
      requires Valid()
      modifies this, Procs()
      ensures !end.ExitCommand? ==> Valid()
      ensures Handled(inputs, env, trace) && trace[0] == old(entries)
      ensures end.InputExhausted? ==> |trace| == |inputs| + 1 && entries == trace[|inputs|]
      ensures end.ExitCommand? ==>
                && end.line < |inputs| && |trace| == end.line + 1
                && Route(inputs[end.line]).Exit? && entries == trace[end.line]
                && Consistent(entries)
                && forall q :: q in Procs() ==>
                     && q.state == Exited
                     && ((q in old(Procs()) && q.Snap() == ShutdownEffect(old(q.Snap())))
                         || (fresh(q) && q.Snap() == ShutdownEffect(Snapshot(Running, 0))))
      ensures end.Crash? ==>
                && end.line < |inputs| && |trace| == end.line + 1
                && Turn(trace[end.line], entries, inputs[end.line], SpawnFor(inputs, env, end.line), Some(end.fault))
                && (Route(inputs[end.line]).Start? ==> end.fault.SpawnRefused? || end.fault.DuplicateId?)
                && (Route(inputs[end.line]).Stop? ==> end.fault.BadPid?)
    {
      end, trace := Serve(inputs, env);
      if end.ExitCommand? {
        label Served:
        Exit();
        forall q | q in Procs()
          ensures q.Snap() == ShutdownEffect(old@Served(q.Snap()))
        {
          var i :| 0 <= i < |entries| && entries[i].1 == q;
        }
      }
    }
  }
}
