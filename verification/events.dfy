/** The 20-slot child-event array of a process, as kern/syscall/exit_syscalls.c fills it and
    kern/syscall/waitpid_syscalls.c drains it. Each operation is one atomic pass; the
    condition-variable wait and wake-up around them are not part of the model. */
module ProcEvents {
  import opened Common

  const NUM_EVENTS: nat := 20

  /** The event kinds of proc.h: none, a child exit, or any other kind. */
  datatype EventKind = PeNone | PeChildExit | PeOther

  /** The parts of `struct proc` the event array reads: pid and exit code. */
  datatype Proc = Proc(pid: int, xcode: int)

  /** One `p_eventarray` entry; `proc == None` is the NULL pointer. */
  datatype Slot = Slot(event: EventKind, proc: Option<Proc>)

  type Events = seq<Slot>

  const EMPTY_SLOT: Slot := Slot(PeNone, None)

  /** An entry holds an event exactly when it holds a process, the pairing sys_exit writes
      and sys_waitpid clears. */
  predicate EventsOk(t: Events)
  {
    |t| == NUM_EVENTS && forall i :: 0 <= i < |t| ==> (t[i].event != PeNone <==> t[i].proc.Some?)
  }

  // ---------------------------------------------------------------- sys_exit

  function FirstEmptyFrom(t: Events, from: nat): (r: Option<nat>)
    requires from <= |t| && forall j :: 0 <= j < from ==> t[j].proc.Some?
    ensures r.Some? ==> r.value < |t| && t[r.value].proc.None? && forall j :: 0 <= j < r.value ==> t[j].proc.Some?
    ensures r.None? ==> forall j :: 0 <= j < |t| ==> t[j].proc.Some?
    decreases |t| - from
  {
    if from == |t| then None
    else if t[from].proc.None? then Some(from)
    else FirstEmptyFrom(t, from + 1)
  }

  /** Reference definition of the entry sys_exit takes: the lowest one with a NULL proc. */
  function FirstEmpty(t: Events): (r: Option<nat>)
    ensures r.Some? ==> r.value < |t| && t[r.value].proc.None? && forall j :: 0 <= j < r.value ==> t[j].proc.Some?
    ensures r.None? ==> forall j :: 0 <= j < |t| ==> t[j].proc.Some?
  {
    FirstEmptyFrom(t, 0)
  }

  /** The event-array part of sys_exit in the parent's array: the first entry with a NULL
      proc receives (this process, PE_childexit) and the scan stops; with all 20 entries
      taken the event is dropped. The exit code written afterwards is already in the
      recorded process. `parent == None` is a NULL `p_parent`, which the code locks and
      scans without a check: a NULL dereference. */
  method SysExit(parent: Option<Events>, pid: int, status: int) returns (r: Result<Events>)
    requires parent.Some? ==> |parent.value| == NUM_EVENTS
    ensures parent.None? <==> r.Panic?
    ensures parent.Some? ==> var t := parent.value;
      && |r.value| == NUM_EVENTS
      && (FirstEmpty(t).None? ==> r.value == t)
      && (FirstEmpty(t).Some? ==> r.value == t[FirstEmpty(t).value := Slot(PeChildExit, Some(Proc(pid, status)))])
      && (EventsOk(t) ==> EventsOk(r.value))
  {
    if parent.None? {
      return Panic;
    }
    var t := parent.value;
    var i := 0;
    while i != NUM_EVENTS
      invariant 0 <= i <= NUM_EVENTS
      invariant forall j :: 0 <= j < i ==> t[j].proc.Some?
      decreases NUM_EVENTS - i
    {
      if t[i].proc.None? {
        ExitScanAgrees(t, 0, i);
        return Ok(t[i := Slot(PeChildExit, Some(Proc(pid, status)))]);
      }
      i := i + 1;
    }
    ExitScanAgrees(t, 0, i);
    return Ok(t);
  }

  lemma {:induction false} ExitScanAgrees(t: Events, from: nat, i: nat)
    requires from <= i <= |t| && forall j :: 0 <= j < i ==> t[j].proc.Some?
    ensures FirstEmptyFrom(t, from) == FirstEmptyFrom(t, i)
    decreases i - from
  {
    if from < i {
      ExitScanAgrees(t, from + 1, i);
    }
  }

  // ---------------------------------------------------------------- sys_waitpid

  /** Whether entry `s` ends the scan for `pid`: for -1 any child-exit entry; otherwise any
      entry with an event whose process has that pid. For an entry with an event but a NULL
      proc the pid comparison dereferences NULL, so that entry ends the scan too. */
  predicate Stops(s: Slot, pid: int)
  {
    if pid == -1 then s.event == PeChildExit
    else s.event != PeNone && (s.proc.None? || s.proc.value.pid == pid)
  }

  function FirstStopFrom(t: Events, pid: int, from: nat): (r: Option<nat>)
    requires from <= |t| && forall j :: 0 <= j < from ==> !Stops(t[j], pid)
    ensures r.Some? ==> r.value < |t| && Stops(t[r.value], pid) && forall j :: 0 <= j < r.value ==> !Stops(t[j], pid)
    ensures r.None? ==> forall j :: 0 <= j < |t| ==> !Stops(t[j], pid)
    decreases |t| - from
  {
    if from == |t| then None
    else if Stops(t[from], pid) then Some(from)
    else FirstStopFrom(t, pid, from + 1)
  }

  /** Reference definition of the entry one sys_waitpid pass claims. */
  function FirstStop(t: Events, pid: int): (r: Option<nat>)
    ensures r.Some? ==> r.value < |t| && Stops(t[r.value], pid) && forall j :: 0 <= j < r.value ==> !Stops(t[j], pid)
    ensures r.None? ==> forall j :: 0 <= j < |t| ==> !Stops(t[j], pid)
  {
    FirstStopFrom(t, pid, 0)
  }

  /** What one pass of sys_waitpid yields: the pid and exit status it reports, or Blocked
      when nothing matched and the caller would sleep on the condition variable. */
  datatype WaitOutcome = Reaped(pid: int, status: int) | Blocked

  /** One scan of sys_waitpid over entries 0 .. 19 (KASSERT(pid != 0), KASSERT(pid == -1 ||
      pid > 0) as the precondition). The first matching entry reports its process's pid
      (for -1) or `pid` itself, and its exit code, and is reset to (PE_none, NULL); nothing
      else changes. The exit code is stored through `statusPtr` without a check, so a
      matching entry whose proc is NULL, or a NULL `statusPtr` (`None`), is a NULL
      dereference. A pass without a match changes nothing and stores nothing. The stored
      status is returned in `Reaped`. */
  method SysWaitpid(t: Events, pid: int, statusPtr: Option<nat>) returns (r: Result<(WaitOutcome, Events)>)
    requires pid != 0 && (pid == -1 || pid > 0)
    requires |t| == NUM_EVENTS
    ensures FirstStop(t, pid).None? ==> r == Ok((Blocked, t))
    ensures FirstStop(t, pid).Some? ==> var i := FirstStop(t, pid).value;
      if t[i].proc.None? || statusPtr.None? then r.Panic?
      else r == Ok((Reaped(if pid == -1 then t[i].proc.value.pid else pid, t[i].proc.value.xcode),
                    t[i := EMPTY_SLOT]))
    // with events and processes paired the pass halts only on a NULL status pointer, and
    // keeps the pairing
    ensures EventsOk(t) ==> (r.Panic? <==> FirstStop(t, pid).Some? && statusPtr.None?)
    ensures EventsOk(t) && r.Ok? ==> EventsOk(r.value.1)
  {
    var i := 0;
    while i != NUM_EVENTS
      invariant 0 <= i <= NUM_EVENTS
      invariant forall j :: 0 <= j < i ==> !Stops(t[j], pid)
      decreases NUM_EVENTS - i
    {
      var s := t[i];
      if pid == -1 {
        if s.event == PeChildExit {
          WaitScanAgrees(t, pid, 0, i);
          if s.proc.None? || statusPtr.None? {
            return Panic;
          }
          return Ok((Reaped(s.proc.value.pid, s.proc.value.xcode), t[i := EMPTY_SLOT]));
        }
      } else {
        if s.event != PeNone {
          if s.proc.None? {
            WaitScanAgrees(t, pid, 0, i);
            return Panic;
          }
          if s.proc.value.pid == pid {
            WaitScanAgrees(t, pid, 0, i);
            if statusPtr.None? {
              return Panic;
            }
            return Ok((Reaped(pid, s.proc.value.xcode), t[i := EMPTY_SLOT]));
          }
        }
      }
      i := i + 1;
    }
    WaitScanAgrees(t, pid, 0, i);
    return Ok((Blocked, t));
  }

  lemma {:induction false} WaitScanAgrees(t: Events, pid: int, from: nat, i: nat)
    requires from <= i <= |t| && forall j :: 0 <= j < i ==> !Stops(t[j], pid)
    ensures FirstStopFrom(t, pid, from) == FirstStopFrom(t, pid, i)
    decreases i - from
  {
    if from < i {
      WaitScanAgrees(t, pid, from + 1, i);
    }
  }

  /** The round trip of a child's exit and its parent's wait: when the array is paired, has
      a free entry, and no entry holds a process with the child's pid, the parent's wait
      for that pid reports the pid and the exit status and leaves the array exactly as it
      was before the exit. */
  lemma ExitThenWaitRestores(t: Events, pid: int, status: int)
    requires EventsOk(t) && pid > 0 && FirstEmpty(t).Some?
    requires forall j :: 0 <= j < |t| && t[j].proc.Some? ==> t[j].proc.value.pid != pid
    ensures var t1 := t[FirstEmpty(t).value := Slot(PeChildExit, Some(Proc(pid, status)))];
      var i := FirstEmpty(t).value;
      && FirstStop(t1, pid) == Some(i)
      && t1[i].proc == Some(Proc(pid, status))
      && t1[i := EMPTY_SLOT] == t
  {
    var i := FirstEmpty(t).value;
    var t1 := t[i := Slot(PeChildExit, Some(Proc(pid, status)))];
    assert Stops(t1[i], pid);
    WaitScanAgrees(t1, pid, 0, i);
    assert t[i] == EMPTY_SLOT;
    assert t1[i := EMPTY_SLOT] == t;
  }

  /** The same for a wait on any child (-1) when no child exit was pending: the new exit is
      the one reported. */
  lemma ExitThenWaitAnyRestores(t: Events, pid: int, status: int)
    requires EventsOk(t) && FirstEmpty(t).Some?
    requires forall j :: 0 <= j < |t| ==> t[j].event != PeChildExit
    ensures var t1 := t[FirstEmpty(t).value := Slot(PeChildExit, Some(Proc(pid, status)))];
      var i := FirstEmpty(t).value;
      && FirstStop(t1, -1) == Some(i)
      && t1[i].proc == Some(Proc(pid, status))
      && t1[i := EMPTY_SLOT] == t
  {
    var i := FirstEmpty(t).value;
    var t1 := t[i := Slot(PeChildExit, Some(Proc(pid, status)))];
    assert Stops(t1[i], -1);
    WaitScanAgrees(t1, -1, 0, i);
    assert t[i] == EMPTY_SLOT;
    assert t1[i := EMPTY_SLOT] == t;
  }
}
