/** kernel/exit.c: sending signals (send_sig, kill_session, sys_kill),
    ending a task (do_exit, sys_exit, tell_father, release) and waiting for
    a child (sys_waitpid). Tasks are slots of the table; the current task
    cur is read only for its ids and credentials, which no signal changes.
    Freeing memory pages, closing descriptors, iput and the tty's process
    group are effects handed back to the caller, and schedule() ends the
    run of the exiting or waiting task. */
module Exit {
  import opened Util
  import opened Bits
  import opened Errno
  import opened Proc
  import opened Sys
  import opened Wait
  import opened FsDefs

  /** p->signal |= 1 << (sig - 1) */
  function RaiseSig(t: Task, sig: int): (r: Task)
    requires 1 <= sig <= 32
  {
    t.(sigs := t.sigs.(signal := Raise(t.sigs.signal, sig)))
  }

  /** send_sig may deliver sig from cur to a task that exists. */
  predicate Sends(ts: seq<Option<Task>>, cur: Task, sig: int, i: int, priv: bool)
    requires |ts| == NR_TASKS && 0 <= i < NR_TASKS
  {
    ts[i].Some? && 1 <= sig <= 32 && (priv || cur.cred.euid == ts[i].value.cred.euid || Suser(cur))
  }

  /** send_sig(sig, task[i], priv); a NULL slot is the NULL pointer. */
  function SendSig(ts: seq<Option<Task>>, cur: Task, sig: int, i: int, priv: bool): (r: (seq<Option<Task>>, int))
    requires TableOk(ts) && 0 <= i < NR_TASKS
    ensures TableOk(r.0)
  {
    if ts[i].None? || sig < 1 || sig > 32 then (ts, -EINVAL)
    else if priv || cur.cred.euid == ts[i].value.cred.euid || Suser(cur) then
      (ts[i := Some(RaiseSig(ts[i].value, sig))], 0)
    else (ts, -EPERM)
  }

  /** send_sig fails with -EINVAL for a NULL task or a bad signal, with
      -EPERM when the sender is neither privileged, of the same effective
      uid nor the superuser, and otherwise raises exactly that bit. */
  lemma SendSigMeans(ts: seq<Option<Task>>, cur: Task, sig: int, i: int, priv: bool, k: nat)
    requires TableOk(ts) && 0 <= i < NR_TASKS
    ensures var (r, e) := SendSig(ts, cur, sig, i, priv);
      (e == 0 <==> Sends(ts, cur, sig, i, priv)) &&
      (e != 0 ==> r == ts && e == (if ts[i].None? || sig < 1 || sig > 32 then -EINVAL else -EPERM)) &&
      (e == 0 ==> (r == ts[i := r[i]] && r[i].Some? && r[i].value == ts[i].value.(sigs := r[i].value.sigs) &&
         r[i].value.sigs == ts[i].value.sigs.(signal := r[i].value.sigs.signal) &&
         (Bit(r[i].value.sigs.signal, k) <==> Bit(ts[i].value.sigs.signal, k) || k == sig - 1)))
  {
    if Sends(ts, cur, sig, i, priv) {
      RaiseBit(ts[i].value.sigs.signal, sig, k);
    }
  }

  /** Which tasks a signalling loop addresses. */
  datatype Target = Group(pgrp: int) | Pid(pid: int) | Session(session: int)

  predicate Matches(t: Task, w: Target)
  {
    match w
    case Group(g) => t.ids.pgrp == g
    case Pid(p) => t.ids.pid == p
    case Session(s) => t.ids.session == s
  }

  /** A slot the loop sends to. */
  predicate Aimed(ts: seq<Option<Task>>, w: Target, i: int)
    requires |ts| == NR_TASKS && 0 <= i < NR_TASKS
  {
    ts[i].Some? && Matches(ts[i].value, w)
  }

  /** while (--p > &FIRST_TASK) over task[n-1] down to task[1]: sig goes to
      every task matching w, and retval keeps the error of the last send
      that failed. */
  function SendTo(ts: seq<Option<Task>>, cur: Task, sig: int, w: Target, priv: bool, n: int, retval: int)
    : (r: (seq<Option<Task>>, int))
    requires TableOk(ts) && 1 <= n <= NR_TASKS
    ensures TableOk(r.0)
    decreases n
  {
    if n == 1 then (ts, retval)
    else if Aimed(ts, w, n - 1) then
      var (ts', err) := SendSig(ts, cur, sig, n - 1, priv);
      SendTo(ts', cur, sig, w, priv, n - 1, if err != 0 then err else retval)
    else SendTo(ts, cur, sig, w, priv, n - 1, retval)
  }

  /** task[i] after the signal of a loop that reaches it. */
  function Signalled(ts: seq<Option<Task>>, cur: Task, sig: int, priv: bool, i: int): (r: Option<Task>)
    requires |ts| == NR_TASKS && 0 <= i < NR_TASKS
  {
    if Sends(ts, cur, sig, i, priv) then Some(RaiseSig(ts[i].value, sig)) else ts[i]
  }

  /** A refused target among task[1..n). */
  predicate AnyRefused(ts: seq<Option<Task>>, cur: Task, sig: int, w: Target, priv: bool, n: int)
    requires |ts| == NR_TASKS && 1 <= n <= NR_TASKS
  {
    exists i :: 1 <= i < n && Aimed(ts, w, i) && !Sends(ts, cur, sig, i, priv)
  }

  /** What the loop does to slot i: a matching task among task[1..n) is
      signalled when send_sig accepts, every other slot stays. */
  lemma {:induction false} SendToSlot(ts: seq<Option<Task>>, cur: Task, sig: int, w: Target, priv: bool,
                                       n: int, retval: int, i: int)
    requires TableOk(ts) && 1 <= n <= NR_TASKS && 0 <= i < NR_TASKS
    ensures SendTo(ts, cur, sig, w, priv, n, retval).0[i] ==
            if 1 <= i < n && Aimed(ts, w, i) then Signalled(ts, cur, sig, priv, i) else ts[i]
    decreases n
  {
    if n > 1 {
      var j := n - 1;
      if Aimed(ts, w, j) {
        var (ts', err) := SendSig(ts, cur, sig, j, priv);
        SendToSlot(ts', cur, sig, w, priv, n - 1, if err != 0 then err else retval, i);
        if i != j {
          assert ts'[i] == ts[i];
        }
      } else {
        SendToSlot(ts, cur, sig, w, priv, n - 1, retval, i);
      }
    }
  }

  /** AnyRefused over task[1..n) reads only those slots. */
  lemma RefusedAgree(ts: seq<Option<Task>>, ts': seq<Option<Task>>, cur: Task, sig: int, w: Target, priv: bool, n: int)
    requires |ts| == NR_TASKS && |ts'| == NR_TASKS && 1 <= n <= NR_TASKS
    requires forall j :: 1 <= j < n ==> ts'[j] == ts[j]
    ensures AnyRefused(ts', cur, sig, w, priv, n) <==> AnyRefused(ts, cur, sig, w, priv, n)
  {
    if AnyRefused(ts', cur, sig, w, priv, n) {
      var j :| 1 <= j < n && Aimed(ts', w, j) && !Sends(ts', cur, sig, j, priv);
      assert Aimed(ts, w, j) && !Sends(ts, cur, sig, j, priv);
    }
    if AnyRefused(ts, cur, sig, w, priv, n) {
      var j :| 1 <= j < n && Aimed(ts, w, j) && !Sends(ts, cur, sig, j, priv);
      assert Aimed(ts', w, j) && !Sends(ts', cur, sig, j, priv);
    }
  }

  /** The loop's result: retval unless a matching task among task[1..n)
      was refused, and then -EINVAL for a bad signal and -EPERM otherwise. */
  lemma {:induction false} SendToResult(ts: seq<Option<Task>>, cur: Task, sig: int, w: Target, priv: bool,
                                         n: int, retval: int)
    requires TableOk(ts) && 1 <= n <= NR_TASKS
    ensures var e := SendTo(ts, cur, sig, w, priv, n, retval).1;
      (!AnyRefused(ts, cur, sig, w, priv, n) ==> e == retval) &&
      (AnyRefused(ts, cur, sig, w, priv, n) ==> e == if 1 <= sig <= 32 then -EPERM else -EINVAL)
    decreases n
  {
    if n > 1 {
      var i := n - 1;
      if Aimed(ts, w, i) {
        var (ts', err) := SendSig(ts, cur, sig, i, priv);
        var rv := if err != 0 then err else retval;
        SendToResult(ts', cur, sig, w, priv, n - 1, rv);
        SendSigMeans(ts, cur, sig, i, priv, 0);
        RefusedAgree(ts, ts', cur, sig, w, priv, n - 1);
        if Sends(ts, cur, sig, i, priv) {
          assert AnyRefused(ts, cur, sig, w, priv, n) <==> AnyRefused(ts, cur, sig, w, priv, n - 1);
        } else {
          assert AnyRefused(ts, cur, sig, w, priv, n);
        }
      } else {
        SendToResult(ts, cur, sig, w, priv, n - 1, retval);
        assert AnyRefused(ts, cur, sig, w, priv, n) <==> AnyRefused(ts, cur, sig, w, priv, n - 1);
      }
    }
  }

  /** The loop signals exactly the matching tasks among task[1..n) that
      send_sig accepts, leaves every other slot alone, and returns retval
      unless a matching task was refused, in which case it returns -EINVAL
      for a bad signal and -EPERM otherwise. */
  lemma SendToMeans(ts: seq<Option<Task>>, cur: Task, sig: int, w: Target, priv: bool, n: int, retval: int)
    requires TableOk(ts) && 1 <= n <= NR_TASKS
    ensures var (r, e) := SendTo(ts, cur, sig, w, priv, n, retval);
      (forall i :: 0 <= i < NR_TASKS ==>
         r[i] == if 1 <= i < n && Aimed(ts, w, i) then Signalled(ts, cur, sig, priv, i) else ts[i]) &&
      (!AnyRefused(ts, cur, sig, w, priv, n) ==> e == retval) &&
      (AnyRefused(ts, cur, sig, w, priv, n) ==> e == if 1 <= sig <= 32 then -EPERM else -EINVAL)
  {
    forall i | 0 <= i < NR_TASKS
      ensures SendTo(ts, cur, sig, w, priv, n, retval).0[i] ==
              if 1 <= i < n && Aimed(ts, w, i) then Signalled(ts, cur, sig, priv, i) else ts[i]
    {
      SendToSlot(ts, cur, sig, w, priv, n, retval, i);
    }
    SendToResult(ts, cur, sig, w, priv, n, retval);
  }

  /** The pid == -1 branch as the source's braces make it: the `else`
      belongs to the `if (err = send_sig(...))` inside the loop. The loop
      goes down from task[n-1] until one send succeeds; the error of each
      failed one (-EINVAL for a NULL slot) is kept, and after the first
      success the inner loop sends to the rest of the table's process group
      -pid == 1, which takes the pointer to FIRST_TASK and ends the outer
      loop too. */
  function KillAll(ts: seq<Option<Task>>, cur: Task, sig: int, n: int, retval: int): (r: (seq<Option<Task>>, int))
    requires TableOk(ts) && 1 <= n <= NR_TASKS
    ensures TableOk(r.0)
    decreases n
  {
    if n == 1 then (ts, retval)
    else
      var (ts', err) := SendSig(ts, cur, sig, n - 1, false);
      if err != 0 then KillAll(ts', cur, sig, n - 1, err)
      else SendTo(ts', cur, sig, Group(1), false, n - 1, retval)
  }

  /** sys_kill(pid, sig) from the current task cur: pid 0 signals (with
      privilege) the tasks whose process group is cur's pid, a positive pid
      that task, -1 as KillAll, and any pid below -1 nobody. */
  function Kill(ts: seq<Option<Task>>, cur: Task, pid: int, sig: int): (r: (seq<Option<Task>>, int))
    requires TableOk(ts)
    ensures TableOk(r.0)
  {
    if pid == 0 then SendTo(ts, cur, sig, Group(cur.ids.pid), true, NR_TASKS, 0)
    else if pid > 0 then SendTo(ts, cur, sig, Pid(pid), false, NR_TASKS, 0)
    else if pid == -1 then KillAll(ts, cur, sig, NR_TASKS, 0)
    else (ts, 0)
  }

  /** The highest slot of task[1..n) send_sig accepts without privilege,
      or 0. */
  function FirstTaken(ts: seq<Option<Task>>, cur: Task, sig: int, n: int): (m: int)
    requires |ts| == NR_TASKS && 1 <= n <= NR_TASKS
    ensures 0 <= m < n && (m > 0 ==> Sends(ts, cur, sig, m, false))
    ensures forall i :: m < i < n ==> !Sends(ts, cur, sig, i, false)
    decreases n
  {
    if n == 1 then 0
    else if Sends(ts, cur, sig, n - 1, false) then n - 1
    else FirstTaken(ts, cur, sig, n - 1)
  }

  /** kill(-1, sig) as written: with m the highest slot above 0 that
      send_sig accepts, task[m] is signalled, below it only tasks of process
      group 1 are, and no slot above m changes. When no slot accepts, the
      result is the error of slot 1: -EINVAL when it is empty. */
  lemma {:induction false} KillAllMeans(ts: seq<Option<Task>>, cur: Task, sig: int, n: int, retval: int)
    requires TableOk(ts) && 1 <= n <= NR_TASKS
    ensures var (r, e) := KillAll(ts, cur, sig, n, retval);
      var m := FirstTaken(ts, cur, sig, n);
      (forall i :: 0 <= i < NR_TASKS && (i == 0 || i > m) ==> r[i] == ts[i]) &&
      (m > 0 ==> r[m] == Signalled(ts, cur, sig, false, m)) &&
      (forall i :: 1 <= i < m ==>
         r[i] == if Aimed(ts, Group(1), i) then Signalled(ts, cur, sig, false, i) else ts[i]) &&
      (m == 0 && n > 1 ==> e == if ts[1].None? || sig < 1 || sig > 32 then -EINVAL else -EPERM)
    decreases n
  {
    if n > 1 {
      var (ts', err) := SendSig(ts, cur, sig, n - 1, false);
      if err != 0 {
        KillAllMeans(ts', cur, sig, n - 1, err);
        assert ts' == ts;
      } else {
        SendToMeans(ts', cur, sig, Group(1), false, n - 1, retval);
        assert forall j :: 0 <= j < NR_TASKS && j != n - 1 ==> ts'[j] == ts[j];
        assert forall j :: 1 <= j < n - 1 ==> (Aimed(ts', Group(1), j) <==> Aimed(ts, Group(1), j)) &&
                                               Signalled(ts', cur, sig, false, j) == Signalled(ts, cur, sig, false, j);
      }
    }
  }

  /** The branch structure of sys_kill as written: no pid below -1 is
      signalled at all, and kill(-1) with a NULL task[63] answers -EINVAL
      even when it signals other tasks. */
  lemma KillQuirks(ts: seq<Option<Task>>, cur: Task, pid: int, sig: int)
    requires TableOk(ts)
    ensures pid < -1 ==> Kill(ts, cur, pid, sig) == (ts, 0)
    ensures pid == -1 && ts[63].None? ==> Kill(ts, cur, pid, sig).1 != 0
  {
    if pid == -1 && ts[63].None? {
      var (ts', err) := SendSig(ts, cur, sig, 63, false);
      assert err == -EINVAL;
      KillAllNonzero(ts', cur, sig, 63, err);
    }
  }

  /** Once retval holds an error, KillAll never returns 0. */
  lemma {:induction false} KillAllNonzero(ts: seq<Option<Task>>, cur: Task, sig: int, n: int, retval: int)
    requires TableOk(ts) && 1 <= n <= NR_TASKS && retval != 0
    ensures KillAll(ts, cur, sig, n, retval).1 != 0
    decreases n
  {
    if n > 1 {
      var (ts', err) := SendSig(ts, cur, sig, n - 1, false);
      if err != 0 {
        KillAllNonzero(ts', cur, sig, n - 1, err);
      } else {
        SendToMeans(ts', cur, sig, Group(1), false, n - 1, retval);
      }
    }
  }

  /** send_sig on the kernel's table. */
  method SendSigTo(k: Kernel, cur: Task, sig: int, i: int, priv: bool) returns (err: int)
    requires k.Valid() && 0 <= i < NR_TASKS
    modifies k`task
    ensures k.Valid() && (k.task, err) == SendSig(old(k.task), cur, sig, i, priv)
  {
    var p := k.task[i];
    if p.None? || sig < 1 || sig > 32 {
      return -EINVAL;
    }
    if priv || cur.cred.euid == p.value.cred.euid || Suser(cur) {
      k.task := k.task[i := Some(RaiseSig(p.value, sig))];
      return 0;
    }
    return -EPERM;
  }

  /** The signalling loop from task[n-1] down to task[1]. */
  method SendLoop(k: Kernel, cur: Task, sig: int, w: Target, priv: bool, n: int, retval: int) returns (r: int)
    requires k.Valid() && 1 <= n <= NR_TASKS
    modifies k`task
    ensures k.Valid() && (k.task, r) == SendTo(old(k.task), cur, sig, w, priv, n, retval)
  {
    var i := n - 1;
    r := retval;
    while i > 0
      invariant 0 <= i < n && k.Valid()
      invariant SendTo(k.task, cur, sig, w, priv, i + 1, r) == SendTo(old(k.task), cur, sig, w, priv, n, retval)
    {
      if k.task[i].Some? && Matches(k.task[i].value, w) {
        var err := SendSigTo(k, cur, sig, i, priv);
        if err != 0 {
          r := err;
        }
      }
      i := i - 1;
    }
  }

  /** sys_kill(pid, sig). */
  method SysKill(k: Kernel, pid: int, sig: int) returns (r: int)
    requires k.Valid()
    modifies k`task
    ensures k.Valid() && (k.task, r) == Kill(old(k.task), old(k.Cur()), pid, sig)
  {
    var cur := k.Cur();
    if pid == 0 {
      r := SendLoop(k, cur, sig, Group(cur.ids.pid), true, NR_TASKS, 0);
    } else if pid > 0 {
      r := SendLoop(k, cur, sig, Pid(pid), false, NR_TASKS, 0);
    } else if pid == -1 {
      r := 0;
      var i := NR_TASKS - 1;
      while i > 0
        invariant 0 <= i < NR_TASKS && k.Valid()
        invariant KillAll(k.task, cur, sig, i + 1, r) == KillAll(old(k.task), cur, sig, NR_TASKS, 0)
      {
        var err := SendSigTo(k, cur, sig, i, false);
        if err != 0 {
          r := err;
          i := i - 1;
        } else {
          r := SendLoop(k, cur, sig, Group(1), false, i, r);
          i := 0;
        }
      }
    } else {
      r := 0;
    }
  }

  /** kill_session(): SIGHUP to every task of cur's session above task 0. */
  function KillSession(ts: seq<Option<Task>>, cur: Task): (r: seq<Option<Task>>)
    requires TableOk(ts)
    ensures TableOk(r)
  {
    SendTo(ts, cur, SIGHUP, Session(cur.ids.session), true, NR_TASKS, 0).0
  }

  /** Every task of the session other than task 0 gets SIGHUP and nothing
      else changes. */
  lemma KillSessionMeans(ts: seq<Option<Task>>, cur: Task, i: int)
    requires TableOk(ts) && 0 <= i < NR_TASKS
    ensures var r := KillSession(ts, cur);
      r[i] == if 1 <= i && ts[i].Some? && ts[i].value.ids.session == cur.ids.session
              then Some(RaiseSig(ts[i].value, SIGHUP)) else ts[i]
  {
    SendToMeans(ts, cur, SIGHUP, Session(cur.ids.session), true, NR_TASKS, 0);
  }

  /** kill_session's loop, which sets the bit without send_sig's checks. */
  method SysKillSession(k: Kernel, cur: Task)
    requires k.Valid()
    modifies k`task
    ensures k.Valid() && k.task == KillSession(old(k.task), cur)
  {
    var i := NR_TASKS - 1;
    ghost var r := 0;
    while i > 0
      invariant 0 <= i < NR_TASKS && k.Valid()
      invariant SendTo(k.task, cur, SIGHUP, Session(cur.ids.session), true, i + 1, r) ==
                SendTo(old(k.task), cur, SIGHUP, Session(cur.ids.session), true, NR_TASKS, 0)
    {
      if k.task[i].Some? && k.task[i].value.ids.session == cur.ids.session {
        k.task := k.task[i := Some(RaiseSig(k.task[i].value, SIGHUP))];
      }
      i := i - 1;
    }
  }

  /** release(task[i]): the slot is emptied (its page freed and schedule
      run); a pointer found in no slot above task 0 panics. */
  function Release(ts: seq<Option<Task>>, i: int): (r: (Status, seq<Option<Task>>))
    requires |ts| == NR_TASKS && 0 <= i < NR_TASKS
  {
    if 1 <= i && ts[i].Some? then (Done, ts[i := None])
    else (Panic("trying to release non-existent task"), ts)
  }

  /** One pass of the loop over task[i]: a child of cur gets father 1
      and, when it is a zombie, init (task[1]) gets SIGCHLD. */
  function ReparentStep(ts: seq<Option<Task>>, cur: Task, i: int): (r: seq<Option<Task>>)
    requires TableOk(ts) && 0 <= i < NR_TASKS
    ensures TableOk(r)
    ensures forall j :: 0 <= j < NR_TASKS ==> (r[j].Some? <==> ts[j].Some?)
  {
    if ts[i].Some? && ts[i].value.ids.father == cur.ids.pid then
      var t := ts[i].value;
      var ts2 := ts[i := Some(t.(ids := t.ids.(father := 1)))];
      if t.state == TASK_ZOMBIE then SendSig(ts2, cur, SIGCHLD, 1, true).0 else ts2
    else ts
  }

  /** do_exit's first loop over task[0..n), as the source runs it. */
  function Reparented(ts: seq<Option<Task>>, cur: Task, n: int): (r: seq<Option<Task>>)
    requires TableOk(ts) && 0 <= n <= NR_TASKS
    ensures TableOk(r)
    ensures forall j :: 0 <= j < NR_TASKS ==> (r[j].Some? <==> ts[j].Some?)
    decreases n
  {
    if n == 0 then ts else ReparentStep(Reparented(ts, cur, n - 1), cur, n - 1)
  }

  /** A zombie child among task[0..n). */
  predicate ZombieChild(ts: seq<Option<Task>>, pid: int, n: int)
    requires |ts| == NR_TASKS && 0 <= n <= NR_TASKS
  {
    exists i :: 0 <= i < n && ts[i].Some? && ts[i].value.ids.father == pid && ts[i].value.state == TASK_ZOMBIE
  }

  /** Slot i once the loop has passed it: a child of the exiting task
      gets father 1. */
  function Adopted(ts: seq<Option<Task>>, cur: Task, n: int, i: int): (r: Option<Task>)
    requires TableOk(ts) && 0 <= i < NR_TASKS
    ensures r.Some? <==> ts[i].Some?
    ensures r.Some? ==> TaskOk(r.value)
  {
    if i < n && ts[i].Some? && ts[i].value.ids.father == cur.ids.pid
    then Some(ts[i].value.(ids := ts[i].value.ids.(father := 1))) else ts[i]
  }

  /** The table the loop leaves after task[0..n), stated slot by slot:
      every child of cur is adopted by init, and init holds SIGCHLD once
      if any of them was a zombie. */
  function Orphaned(ts: seq<Option<Task>>, cur: Task, n: int): (r: seq<Option<Task>>)
    requires TableOk(ts) && 0 <= n <= NR_TASKS
    ensures TableOk(r)
  {
    var a := seq(NR_TASKS, i requires 0 <= i < NR_TASKS => Adopted(ts, cur, n, i));
    if ZombieChild(ts, cur.ids.pid, n) && a[1].Some? then a[1 := Some(RaiseSig(a[1].value, SIGCHLD))] else a
  }

  /** A pass over task[n] touches no slot but n and init's. */
  lemma StepOther(ts: seq<Option<Task>>, cur: Task, n: int, i: int)
    requires TableOk(ts) && 0 <= n < NR_TASKS && 0 <= i < NR_TASKS && i != 1
    ensures ReparentStep(ts, cur, n)[i] ==
            if i == n && ts[n].Some? && ts[n].value.ids.father == cur.ids.pid
            then Some(ts[n].value.(ids := ts[n].value.ids.(father := 1))) else ts[i]
  {
  }

  /** Orphaned away from init's slot is Adopted. */
  lemma OrphanedOther(ts: seq<Option<Task>>, cur: Task, n: int, i: int)
    requires TableOk(ts) && 0 <= n <= NR_TASKS && 0 <= i < NR_TASKS && i != 1
    ensures Orphaned(ts, cur, n)[i] == Adopted(ts, cur, n, i)
  {
  }

  /** One more pass leaves init's slot as Orphaned says for n + 1. */
  lemma OrphanedStepInit(ts: seq<Option<Task>>, cur: Task, n: int)
    requires TableOk(ts) && 0 <= n < NR_TASKS
    ensures ReparentStep(Orphaned(ts, cur, n), cur, n)[1] == Orphaned(ts, cur, n + 1)[1]
  {
    var zn := ts[n].Some? && ts[n].value.ids.father == cur.ids.pid && ts[n].value.state == TASK_ZOMBIE;
    assert ZombieChild(ts, cur.ids.pid, n + 1) <==> ZombieChild(ts, cur.ids.pid, n) || zn;
    if ZombieChild(ts, cur.ids.pid, n) && ts[1].Some? && zn {
      if n == 1 {
        RaiseTwice(ts[1].value.sigs.signal, SIGCHLD);
      } else {
        RaiseTwice(Adopted(ts, cur, n + 1, 1).value.sigs.signal, SIGCHLD);
      }
    }
  }

  /** One more pass of the loop takes Orphaned from n to n + 1. */
  lemma OrphanedStep(ts: seq<Option<Task>>, cur: Task, n: int)
    requires TableOk(ts) && 0 <= n < NR_TASKS
    ensures ReparentStep(Orphaned(ts, cur, n), cur, n) == Orphaned(ts, cur, n + 1)
  {
    var o := Orphaned(ts, cur, n);
    var o' := Orphaned(ts, cur, n + 1);
    var r := ReparentStep(o, cur, n);
    forall i | 0 <= i < NR_TASKS && i != 1
      ensures r[i] == o'[i]
    {
      StepOther(o, cur, n, i);
      OrphanedOther(ts, cur, n, i);
      OrphanedOther(ts, cur, n + 1, i);
    }
    OrphanedStepInit(ts, cur, n);
  }

  /** The loop as run is the loop as stated. */
  lemma {:induction false} ReparentedIsOrphaned(ts: seq<Option<Task>>, cur: Task, n: int)
    requires TableOk(ts) && 0 <= n <= NR_TASKS
    ensures Reparented(ts, cur, n) == Orphaned(ts, cur, n)
    decreases n
  {
    if n == 0 {
      assert !ZombieChild(ts, cur.ids.pid, 0);
      assert Orphaned(ts, cur, 0) == ts;
    } else {
      ReparentedIsOrphaned(ts, cur, n - 1);
      OrphanedStep(ts, cur, n - 1);
    }
  }

  /** tell_father(pid): SIGCHLD to the first task with that pid; with no
      such task (or pid 0) the current task, slot me, is released. */
  function TellFather(ts: seq<Option<Task>>, me: int, pid: int): (r: (Status, seq<Option<Task>>))
    requires TableOk(ts) && 0 <= me < NR_TASKS
  {
    var i := FindPid(ts, pid, 0);
    if pid != 0 && i < NR_TASKS then (Done, ts[i := Some(RaiseSig(ts[i].value, SIGCHLD))])
    else Release(ts, me)
  }

  /** The father found is the lowest slot with that pid; without one the
      current slot is emptied, or the kernel panics for task 0. */
  lemma TellFatherMeans(ts: seq<Option<Task>>, me: int, pid: int)
    requires TableOk(ts) && 0 <= me < NR_TASKS
    ensures var (st, r) := TellFather(ts, me, pid);
      var found := pid != 0 && exists i :: 0 <= i < NR_TASKS && ts[i].Some? && ts[i].value.ids.pid == pid;
      (found ==> st == Done && exists i :: (0 <= i < NR_TASKS && ts[i].Some? && ts[i].value.ids.pid == pid &&
                   (forall j :: 0 <= j < i ==> !(ts[j].Some? && ts[j].value.ids.pid == pid)) &&
                   r == ts[i := Some(RaiseSig(ts[i].value, SIGCHLD))])) &&
      (!found ==> (st == Done <==> me != 0 && ts[me].Some?) && (st == Done ==> r == ts[me := None]))
  {
    var i := FindPid(ts, pid, 0);
    if pid != 0 && exists i :: 0 <= i < NR_TASKS && ts[i].Some? && ts[i].value.ids.pid == pid {
      assert i < NR_TASKS;
    }
  }

  /** What do_exit leaves for other parts of the kernel: the file table
      entries of the descriptors sys_close closes (in descriptor order),
      the inodes iput (pwd, root, executable, NULLs skipped), the tty whose
      process group is cleared (-1 for none), and the pages of the code and
      data segments free_page_tables releases (base and limit of each). */
  datatype Leftovers = Leftovers(closed: seq<int>, iputs: seq<int>, tty: int, freed: seq<(int, int)>)

  /** The open descriptors' files, in descriptor order. */
  function OpenFiles(filp: seq<int>): (r: seq<int>)
    ensures forall x :: x in r ==> x in filp && x != -1
    ensures forall fd :: 0 <= fd < |filp| && filp[fd] != -1 ==> filp[fd] in r
  {
    if filp == [] then []
    else (if filp[0] != -1 then [filp[0]] else []) + OpenFiles(filp[1..])
  }

  /** The non-NULL of pwd, root and executable. */
  function Held(t: Task): seq<int>
  {
    (if t.files.pwd != -1 then [t.files.pwd] else []) + (if t.files.root != -1 then [t.files.root] else []) +
    (if t.files.executable != -1 then [t.files.executable] else [])
  }

  /** The exiting task after do_exit's own updates: no descriptors, no
      close-on-exec bits, no directories or executable, a zombie with the
      given exit code. */
  function Zombie(t: Task, code: int): (r: Task)
    requires TaskOk(t)
    ensures TaskOk(r)
  {
    t.(state := TASK_ZOMBIE, exitCode := code,
       files := t.files.(filp := seq(NR_OPEN, _ => -1), closeOnExec := 0, pwd := -1, root := -1, executable := -1))
  }

  /** The part of do_exit before kill_session: children go to init and
      task[me] becomes a zombie with the exit code, without descriptors,
      directories or executable. */
  function Abandon(ts: seq<Option<Task>>, me: int, code: int): (r: seq<Option<Task>>)
    requires TableOk(ts) && 0 <= me < NR_TASKS && ts[me].Some?
    ensures TableOk(r) && r[me].Some?
  {
    var ts1 := Reparented(ts, ts[me].value, NR_TASKS);
    ts1[me := Some(Zombie(ts1[me].value, code))]
  }

  /** do_exit(code) run by task[me] (cur): children go to init, the files
      and directories are let go, a session leader's session gets SIGHUP,
      the task becomes a zombie and its father is told. */
  function DoExit(ts: seq<Option<Task>>, me: int, code: int): (r: (Status, seq<Option<Task>>, Leftovers))
    requires TableOk(ts) && 0 <= me < NR_TASKS && ts[me].Some?
  {
    var cur := ts[me].value;
    var ts2 := Abandon(ts, me, code);
    var ts3 := if cur.ids.leader != 0 then KillSession(ts2, cur) else ts2;
    var (st, ts4) := TellFather(ts3, me, ts2[me].value.ids.father);
    var left := Leftovers(OpenFiles(cur.files.filp), Held(cur),
                          if cur.ids.leader != 0 && cur.files.tty >= 0 then cur.files.tty else -1,
                          [(cur.ldt.codeBase, cur.ldt.codeLimit), (cur.ldt.dataBase, cur.ldt.dataLimit)]);
    (st, ts4, left)
  }

  /** Every slot keeps its task, pid, session and files through the loop,
      and a child of cur now has father 1. */
  lemma OrphanedSlot(ts: seq<Option<Task>>, cur: Task, i: int)
    requires TableOk(ts) && 0 <= i < NR_TASKS
    ensures var r := Reparented(ts, cur, NR_TASKS);
      (r[i].Some? <==> ts[i].Some?) &&
      (r[i].Some? ==> (r[i].value.ids.pid == ts[i].value.ids.pid && r[i].value.ids.session == ts[i].value.ids.session &&
         (r[i].value.ids.father == if ts[i].value.ids.father == cur.ids.pid then 1 else ts[i].value.ids.father)))
  {
    ReparentedIsOrphaned(ts, cur, NR_TASKS);
    var a := Adopted(ts, cur, NR_TASKS, i);
    assert Orphaned(ts, cur, NR_TASKS)[i].Some? ==> Orphaned(ts, cur, NR_TASKS)[i].value.ids == a.value.ids;
  }

  /** After Abandon task[me] is the zombie, and no other task is a child
      of it unless the exiting task is init itself. */
  lemma AbandonMeans(ts: seq<Option<Task>>, me: int, code: int, i: int)
    requires TableOk(ts) && 0 <= me < NR_TASKS && ts[me].Some? && 0 <= i < NR_TASKS
    ensures var r := Abandon(ts, me, code);
      var cur := ts[me].value;
      r[me].Some? && r[me].value.state == TASK_ZOMBIE && r[me].value.exitCode == code &&
      (forall fd :: 0 <= fd < NR_OPEN ==> r[me].value.files.filp[fd] == -1) &&
      r[me].value.files.pwd == -1 && r[me].value.files.root == -1 && r[me].value.files.executable == -1 &&
      (i != me ==> (r[i].Some? <==> ts[i].Some?)) &&
      (i != me && r[i].Some? && r[i].value.ids.father == cur.ids.pid ==> cur.ids.pid == 1)
  {
    OrphanedSlot(ts, ts[me].value, i);
  }

  /** do_exit leaves task[me] a zombie holding the exit code, with no
      descriptors, directories or executable, unless tell_father found no
      father and released it. */
  lemma DoExitZombie(ts: seq<Option<Task>>, me: int, code: int)
    requires TableOk(ts) && 0 <= me < NR_TASKS && ts[me].Some?
    ensures var r := DoExit(ts, me, code).1;
      r[me].Some? ==> (r[me].value.state == TASK_ZOMBIE && r[me].value.exitCode == code &&
         (forall fd :: 0 <= fd < NR_OPEN ==> r[me].value.files.filp[fd] == -1) &&
         r[me].value.files.pwd == -1 && r[me].value.files.root == -1 && r[me].value.files.executable == -1)
  {
    var cur := ts[me].value;
    AbandonMeans(ts, me, code, me);
    var ts2 := Abandon(ts, me, code);
    var ts3 := if cur.ids.leader != 0 then KillSession(ts2, cur) else ts2;
    if cur.ids.leader != 0 {
      KillSessionMeans(ts2, cur, me);
    }
    ExitedTold(ts3, me, ts2[me].value.ids.father, code);
  }

  /** tell_father leaves an exited slot exited, unless it released it. */
  lemma ExitedTold(ts: seq<Option<Task>>, me: int, pid: int, code: int)
    requires TableOk(ts) && 0 <= me < NR_TASKS && Exited(ts[me], code)
    ensures var r := TellFather(ts, me, pid).1; r[me].Some? ==> Exited(r[me], code)
  {
    TellFatherMeans(ts, me, pid);
  }

  /** A zombie slot holding code, with nothing open. */
  ghost predicate Exited(t: Option<Task>, code: int)
  {
    t.Some? && t.value.state == TASK_ZOMBIE && t.value.exitCode == code &&
    |t.value.files.filp| == NR_OPEN && (forall fd :: 0 <= fd < NR_OPEN ==> t.value.files.filp[fd] == -1) &&
    t.value.files.pwd == -1 && t.value.files.root == -1 && t.value.files.executable == -1
  }

  /** kill_session changes only signal words. */
  lemma KillSessionIds(ts: seq<Option<Task>>, cur: Task, i: int)
    requires TableOk(ts) && 0 <= i < NR_TASKS
    ensures var r := KillSession(ts, cur);
      (r[i].Some? <==> ts[i].Some?) && (r[i].Some? ==> r[i].value.ids == ts[i].value.ids)
  {
    KillSessionMeans(ts, cur, i);
  }

  /** tell_father changes no other task's presence or ids. */
  lemma TellFatherIds(ts: seq<Option<Task>>, me: int, pid: int, i: int)
    requires TableOk(ts) && 0 <= me < NR_TASKS && 0 <= i < NR_TASKS && i != me
    ensures var r := TellFather(ts, me, pid).1;
      (r[i].Some? <==> ts[i].Some?) && (r[i].Some? ==> r[i].value.ids == ts[i].value.ids)
  {
  }

  /** do_exit removes no other task and leaves none a child of the exiting
      task, except when init itself exits. */
  lemma DoExitOrphans(ts: seq<Option<Task>>, me: int, code: int, i: int)
    requires TableOk(ts) && 0 <= me < NR_TASKS && ts[me].Some?
    requires 0 <= i < NR_TASKS && i != me
    ensures var r := DoExit(ts, me, code).1;
      var cur := ts[me].value;
      (r[i].Some? <==> ts[i].Some?) &&
      (r[i].Some? && r[i].value.ids.father == cur.ids.pid ==> cur.ids.pid == 1)
  {
    var cur := ts[me].value;
    AbandonMeans(ts, me, code, i);
    var ts2 := Abandon(ts, me, code);
    var ts3 := if cur.ids.leader != 0 then KillSession(ts2, cur) else ts2;
    if cur.ids.leader != 0 {
      KillSessionIds(ts2, cur, i);
    }
    TellFatherIds(ts3, me, ts2[me].value.ids.father, i);
  }

  /** do_exit closes exactly the open descriptors' files and puts the
      inodes of pwd, root and executable. */
  lemma DoExitLeftovers(ts: seq<Option<Task>>, me: int, code: int)
    requires TableOk(ts) && 0 <= me < NR_TASKS && ts[me].Some?
    ensures var left := DoExit(ts, me, code).2;
      var cur := ts[me].value;
      (forall x :: x in left.closed <==> x in cur.files.filp && x != -1) &&
      left.iputs == Held(cur)
  {
  }

  /** sys_exit(error_code): do_exit((error_code & 0xff) << 8). */
  function ExitCode(errorCode: int): (r: int)
  {
    (errorCode % 256) * 256
  }

  /** The wait.h macros read sys_exit's status back: it is an exit with
      the low byte of the code as its status, neither a stop nor a death
      by signal. */
  lemma ExitCodeRoundTrip(errorCode: int)
    ensures var s := ExitCode(errorCode);
      WIfExited(s) && WExitStatus(s) == errorCode % 256 && !WIfStopped(s) && !WIfSignaled(s)
  {
    var c := errorCode % 256;
    var s := c * 256;
    assert s % 256 == 0;
    assert s / 256 == c;
    assert s % 0x1_0000_0000 == s;
    if c == 0 {
      assert (s % 0x1_0000_0000 - 1) % 0x1_0000 == 0xffff;
    } else {
      assert (s - 1) % 0x1_0000 == s - 1;
    }
  }

  /** sys_exit on the current task. */
  method SysExit(k: Kernel, errorCode: int) returns (st: Status, left: Leftovers)
    requires k.Valid()
    modifies k`task
    ensures (st, k.task, left) == DoExit(old(k.task), k.current, ExitCode(errorCode))
  {
    st, left := DoExitNow(k, ExitCode(errorCode));
  }

  /** do_exit's loop handing the current task's children to init. */
  method ReparentAll(k: Kernel, cur: Task)
    requires k.Valid()
    modifies k`task
    ensures k.Valid() && k.task == Reparented(old(k.task), cur, NR_TASKS)
  {
    var i := 0;
    while i < NR_TASKS
      invariant 0 <= i <= NR_TASKS && k.Valid()
      invariant k.task == Reparented(old(k.task), cur, i)
    {
      if k.task[i].Some? && k.task[i].value.ids.father == cur.ids.pid {
        var t := k.task[i].value;
        k.task := k.task[i := Some(t.(ids := t.ids.(father := 1)))];
        if t.state == TASK_ZOMBIE {
          var _ := SendSigTo(k, cur, SIGCHLD, 1, true);
        }
      }
      i := i + 1;
    }
  }

  /** tell_father(pid) for the current task, slot me. */
  method TellFatherNow(k: Kernel, me: int, pid: int) returns (st: Status)
    requires TableOk(k.task) && 0 <= me < NR_TASKS
    modifies k`task
    ensures (st, k.task) == TellFather(old(k.task), me, pid)
  {
    var j := 0;
    if pid != 0 {
      while j < NR_TASKS && !(k.task[j].Some? && k.task[j].value.ids.pid == pid)
        invariant 0 <= j <= NR_TASKS
        invariant FindPid(k.task, pid, j) == FindPid(k.task, pid, 0)
      {
        j := j + 1;
      }
    }
    if pid != 0 && j < NR_TASKS {
      k.task := k.task[j := Some(RaiseSig(k.task[j].value, SIGCHLD))];
      st := Done;
    } else if 1 <= me && k.task[me].Some? {
      k.task := k.task[me := None];
      st := Done;
    } else {
      st := Panic("trying to release non-existent task");
    }
  }

  /** do_exit up to kill_session on the current task. */
  method AbandonNow(k: Kernel, code: int)
    requires k.Valid()
    modifies k`task
    ensures k.Valid() && k.task == Abandon(old(k.task), k.current, code)
  {
    ReparentAll(k, k.Cur());
    k.SetCur(Zombie(k.Cur(), code));
  }

  /** do_exit(code) on the current task; schedule() follows, so the task
      does not run again. */
  method DoExitNow(k: Kernel, code: int) returns (st: Status, left: Leftovers)
    requires k.Valid()
    modifies k`task
    ensures (st, k.task, left) == DoExit(old(k.task), k.current, code)
  {
    var cur := k.Cur();
    AbandonNow(k, code);
    left := Leftovers(OpenFiles(cur.files.filp), Held(cur), if cur.ids.leader != 0 && cur.files.tty >= 0 then cur.files.tty else -1,
                      [(cur.ldt.codeBase, cur.ldt.codeLimit), (cur.ldt.dataBase, cur.ldt.dataLimit)]);
    var father := k.Cur().ids.father;
    if cur.ids.leader != 0 {
      SysKillSession(k, cur);
    }
    st := TellFatherNow(k, k.current, father);
  }

  /** task[i] is one sys_waitpid(pid) by task[me] (cur) may report: a
      child of cur other than cur itself, with the pid asked for (pid > 0),
      in cur's process group (pid == 0), in group -pid (pid < -1), or any
      child (pid == -1). */
  predicate Waitable(ts: seq<Option<Task>>, me: int, cur: Task, pid: int, i: int)
    requires |ts| == NR_TASKS && 0 <= i < NR_TASKS
  {
    ts[i].Some? && i != me && ts[i].value.ids.father == cur.ids.pid &&
    (if pid > 0 then ts[i].value.ids.pid == pid
     else if pid == 0 then ts[i].value.ids.pgrp == cur.ids.pgrp
     else pid == -1 || ts[i].value.ids.pgrp == -pid)
  }

  /** A waitable task that ends the scan: a zombie, or a stopped task
      when WUNTRACED is set. */
  predicate Reportable(ts: seq<Option<Task>>, me: int, cur: Task, pid: int, options: Word, i: int)
    requires |ts| == NR_TASKS && 0 <= i < NR_TASKS
  {
    Waitable(ts, me, cur, pid, i) &&
    (ts[i].value.state == TASK_ZOMBIE || (ts[i].value.state == TASK_STOPPED && Bit(options, 1)))
  }

  /** A waitable task still alive (neither zombie nor stopped), which
      sets flag. */
  predicate Living(ts: seq<Option<Task>>, me: int, cur: Task, pid: int, i: int)
    requires |ts| == NR_TASKS && 0 <= i < NR_TASKS
  {
    Waitable(ts, me, cur, pid, i) && ts[i].value.state != TASK_ZOMBIE && ts[i].value.state != TASK_STOPPED
  }

  /** How the scan of sys_waitpid ends: at task[i], with flag set (a
      matching child lives), or with none. */
  datatype Scan = Hit(i: int) | Busy | NoChild

  /** for (p = &LAST_TASK; p > &FIRST_TASK; --p) over task[n-1] down to
      task[1], flag already set by the slots above n when flag is true. */
  function WaitScan(ts: seq<Option<Task>>, me: int, cur: Task, pid: int, options: Word, n: int, flag: bool)
    : (r: Scan)
    requires |ts| == NR_TASKS && 1 <= n <= NR_TASKS
    decreases n
  {
    if n == 1 then (if flag then Busy else NoChild)
    else if Reportable(ts, me, cur, pid, options, n - 1) then Hit(n - 1)
    else WaitScan(ts, me, cur, pid, options, n - 1, flag || Living(ts, me, cur, pid, n - 1))
  }

  /** The scan stops at the highest reportable slot below n; without one it
      reports Busy exactly when a living matching child was seen (or flag
      was already set), and NoChild otherwise; a stopped child without
      WUNTRACED sets no flag. */
  lemma {:induction false} WaitScanMeans(ts: seq<Option<Task>>, me: int, cur: Task, pid: int, options: Word,
                                          n: int, flag: bool)
    requires |ts| == NR_TASKS && 1 <= n <= NR_TASKS
    ensures var r := WaitScan(ts, me, cur, pid, options, n, flag);
      (r.Hit? ==> 1 <= r.i < n && Reportable(ts, me, cur, pid, options, r.i) &&
                  forall j :: r.i < j < n ==> !Reportable(ts, me, cur, pid, options, j)) &&
      (!r.Hit? ==> forall j :: 1 <= j < n ==> !Reportable(ts, me, cur, pid, options, j)) &&
      (r == Busy <==> !r.Hit? && (flag || exists j :: 1 <= j < n && Living(ts, me, cur, pid, j)))
    decreases n
  {
    if n > 1 && !Reportable(ts, me, cur, pid, options, n - 1) {
      var f := flag || Living(ts, me, cur, pid, n - 1);
      WaitScanMeans(ts, me, cur, pid, options, n - 1, f);
      var r := WaitScan(ts, me, cur, pid, options, n - 1, f);
      if !r.Hit? && Living(ts, me, cur, pid, n - 1) {
        assert exists j :: 1 <= j < n && Living(ts, me, cur, pid, j);
      }
      if !r.Hit? && (exists j :: 1 <= j < n && Living(ts, me, cur, pid, j)) && !Living(ts, me, cur, pid, n - 1) {
        var j :| 1 <= j < n && Living(ts, me, cur, pid, j);
        assert j < n - 1;
      }
    }
  }

  /** What one pass of sys_waitpid leaves: the return value, the status
      stored at stat_addr (None when nothing is stored) and whether the
      caller now sleeps. */
  datatype Waited = Waited(st: Status, ret: int, status: Option<int>)

  /** One pass of sys_waitpid(pid, stat_addr, options) by task[me]: a
      stopped child reports 0x7f, a zombie child is reaped (its times added
      to cur's children's times, its slot released) and reports its exit
      code; a living child makes the call return 0 under WNOHANG or sleep
      interruptibly; no child at all gives -ECHILD. */
  function WaitPass(ts: seq<Option<Task>>, me: int, pid: int, options: Word): (r: (Waited, seq<Option<Task>>))
    requires TableOk(ts) && 0 <= me < NR_TASKS && ts[me].Some?
    ensures TableOk(r.1) && (r.1[me].Some? <==> ts[me].Some?)
  {
    var cur := ts[me].value;
    var s := WaitScan(ts, me, cur, pid, options, NR_TASKS, false);
    match s
    case Hit(i) =>
      WaitScanMeans(ts, me, cur, pid, options, NR_TASKS, false);
      var c := ts[i].value;
      if c.state == TASK_STOPPED then (Waited(Done, c.ids.pid, Some(0x7f)), ts)
      else
        var me' := cur.(times := cur.times.(cutime := cur.times.cutime + c.times.utime,
                                             cstime := cur.times.cstime + c.times.stime));
        (Waited(Done, c.ids.pid, Some(c.exitCode)), ts[me := Some(me')][i := None])
    case Busy =>
      if Bit(options, 0) then (Waited(Done, 0, None), ts)
      else (Waited(Asleep, 0, None), ts[me := Some(cur.(state := TASK_INTERRUPTIBLE))])
    case NoChild => (Waited(Done, -ECHILD, None), ts)
  }

  /** sys_waitpid's pass returns the pid of the highest matching child that
      is a zombie (storing its exit code and releasing it) or, with
      WUNTRACED, stopped (storing 0x7f). */
  lemma WaitPassFound(ts: seq<Option<Task>>, me: int, pid: int, options: Word, i: int)
    requires TableOk(ts) && 0 <= me < NR_TASKS && ts[me].Some? && 1 <= i < NR_TASKS
    requires Reportable(ts, me, ts[me].value, pid, options, i)
    requires forall j :: i < j < NR_TASKS ==> !Reportable(ts, me, ts[me].value, pid, options, j)
    ensures var (w, r) := WaitPass(ts, me, pid, options);
      var cur := ts[me].value;
      var c := ts[i].value;
      w.st == Done && w.ret == c.ids.pid &&
      (c.state == TASK_STOPPED ==> w.status == Some(0x7f) && r == ts) &&
      (c.state == TASK_ZOMBIE ==>
         (w.status == Some(c.exitCode) && r[i].None? && r[me].Some? &&
          r[me].value.times.cutime == cur.times.cutime + c.times.utime &&
          r[me].value.times.cstime == cur.times.cstime + c.times.stime))
  {
    var cur := ts[me].value;
    WaitScanMeans(ts, me, cur, pid, options, NR_TASKS, false);
  }

  /** Without a reportable child the pass returns 0 under WNOHANG or
      sleeps interruptibly when a matching child lives, and returns
      -ECHILD when none does; the table is left alone except for the
      sleeper's state. */
  lemma WaitPassNone(ts: seq<Option<Task>>, me: int, pid: int, options: Word)
    requires TableOk(ts) && 0 <= me < NR_TASKS && ts[me].Some?
    requires forall j :: 1 <= j < NR_TASKS ==> !Reportable(ts, me, ts[me].value, pid, options, j)
    ensures var (w, r) := WaitPass(ts, me, pid, options);
      var cur := ts[me].value;
      var live := exists j :: 1 <= j < NR_TASKS && Living(ts, me, cur, pid, j);
      (live && Bit(options, 0) ==> w == Waited(Done, 0, None) && r == ts) &&
      (live && !Bit(options, 0) ==>
         (w == Waited(Asleep, 0, None) && r == ts[me := Some(cur.(state := TASK_INTERRUPTIBLE))])) &&
      (!live ==> w == Waited(Done, -ECHILD, None) && r == ts)
  {
    WaitScanMeans(ts, me, ts[me].value, pid, options, NR_TASKS, false);
  }

  /** sys_waitpid's scan on the current task, from task[63] down to
      task[1], then what it does with the outcome; the caller sleeps
      when st is Asleep and WaitWoken runs when it is woken. */
  method SysWaitpid(k: Kernel, pid: int, options: Word) returns (w: Waited)
    requires k.Valid()
    modifies k`task
    ensures (w, k.task) == WaitPass(old(k.task), k.current, pid, options)
  {
    var me := k.current;
    var cur := k.Cur();
    var i := NR_TASKS - 1;
    var flag := false;
    while i > 0 && !Reportable(k.task, me, cur, pid, options, i)
      invariant 0 <= i < NR_TASKS
      invariant WaitScan(k.task, me, cur, pid, options, i + 1, flag) ==
                WaitScan(k.task, me, cur, pid, options, NR_TASKS, false)
    {
      if Living(k.task, me, cur, pid, i) {
        flag := true;
      }
      i := i - 1;
    }
    if i > 0 {
      var c := k.task[i].value;
      if c.state == TASK_STOPPED {
        return Waited(Done, c.ids.pid, Some(0x7f));
      }
      k.SetCur(cur.(times := cur.times.(cutime := cur.times.cutime + c.times.utime,
                                         cstime := cur.times.cstime + c.times.stime)));
      k.task := k.task[i := None];
      return Waited(Done, c.ids.pid, Some(c.exitCode));
    }
    if flag {
      if Bit(options, 0) {
        return Waited(Done, 0, None);
      }
      k.SetCur(cur.(state := TASK_INTERRUPTIBLE));
      return Waited(Asleep, 0, None);
    }
    return Waited(Done, -ECHILD, None);
  }

  /** current->signal &= ~(1<<(SIGCHLD-1)) */
  function ClearChld(w: Word): (r: Word)
  {
    AndNot(w, S(SIGCHLD))
  }

  /** Clearing SIGCHLD drops that bit and keeps the others, so the
      woken sys_waitpid repeats exactly when no other signal is pending. */
  lemma ClearChldMeans(w: Word)
    ensures forall k: nat :: Bit(ClearChld(w), k) <==> Bit(w, k) && k != SIGCHLD - 1
    ensures ClearChld(w) == 0 <==> forall k: nat :: Bit(w, k) ==> k == SIGCHLD - 1
  {
    forall k: nat
      ensures Bit(ClearChld(w), k) <==> Bit(w, k) && k != SIGCHLD - 1
    {
      AndNotBit(w, S(SIGCHLD), k);
      PowBit(SIGCHLD - 1, k);
    }
    NonzeroBit(ClearChld(w));
  }

  /** After schedule() returns to a sleeping sys_waitpid: SIGCHLD is
      cleared, and the call repeats (again) unless another signal is
      pending, when it returns -EINTR. */
  method WaitWoken(k: Kernel) returns (again: bool, r: int)
    requires k.Valid()
    modifies k`task
    ensures var t := old(k.task)[k.current].value;
      k.Valid() && k.task == old(k.task)[k.current := Some(t.(sigs := t.sigs.(signal := ClearChld(t.sigs.signal))))] &&
      again == (ClearChld(t.sigs.signal) == 0) && r == if again then 0 else -EINTR
  {
    var t := k.Cur();
    var s := ClearChld(t.sigs.signal);
    k.SetCur(t.(sigs := t.sigs.(signal := s)));
    again := s == 0;
    r := if again then 0 else -EINTR;
  }
}
