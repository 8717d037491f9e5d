/** kernel/sys.c: the system calls that change the calling task's ids,
    break, process group, session and umask, and the system time. Each call
    is a function on the task (or the table) that returns the new task and
    the value the call returns, and a method on the kernel that assigns the
    fields of current as the source does. A user-space pointer argument is
    passed as the value the kernel would read through it. */
module Sys {
  import opened Util
  import opened Bits
  import opened Errno
  import opened Proc

  /** sys_setregid(rgid, egid). The ids are unsigned shorts; a positive
      argument is stored truncated to 16 bits. A refused egid does not undo
      an accepted rgid. */
  function SetRegid(t: Task, rgid: int, egid: int): (r: (Task, int))
  {
    var c := t.cred;
    if rgid > 0 && !(c.gid == rgid || Suser(t)) then (t, -EPERM)
    else
      var c1 := if rgid > 0 then c.(gid := Short(rgid)) else c;
      if egid > 0 && !(c1.gid == egid || c1.egid == egid || c1.sgid == egid || Suser(t)) then (t.(cred := c1), -EPERM)
      else (t.(cred := if egid > 0 then c1.(egid := Short(egid)) else c1), 0)
  }

  /** setregid only touches gid and egid. The superuser may set both to
      anything; anyone else may set gid only to its own value and egid only
      to the gid, egid or sgid. A refused rgid changes nothing; a refused
      egid leaves an accepted rgid in place. */
  lemma SetRegidMeans(t: Task, rgid: int, egid: int)
    requires TaskOk(t)
    ensures var (r, e) := SetRegid(t, rgid, egid);
      TaskOk(r) && (e == 0 || e == -EPERM) &&
      r == t.(cred := r.cred) && r.cred == t.cred.(gid := r.cred.gid, egid := r.cred.egid) &&
      (Suser(t) ==> e == 0) &&
      (rgid > 0 && t.cred.gid != rgid && !Suser(t) ==> r == t && e == -EPERM) &&
      (e == 0 ==> (rgid > 0 ==> r.cred.gid == Short(rgid)) && (rgid <= 0 ==> r.cred.gid == t.cred.gid) &&
                  (egid > 0 ==> r.cred.egid == Short(egid)) && (egid <= 0 ==> r.cred.egid == t.cred.egid)) &&
      (e == 0 && !Suser(t) ==> (r.cred.gid == t.cred.gid &&
         (r.cred.egid == t.cred.gid || r.cred.egid == t.cred.egid || r.cred.egid == t.cred.sgid))) &&
      (e == -EPERM && rgid > 0 && (t.cred.gid == rgid || Suser(t)) ==> r.cred.gid == Short(rgid) && r.cred.egid == t.cred.egid)
  {
  }

  /** sys_setregid(rgid, egid) on the current task. */
  method SysSetregid(k: Kernel, rgid: int, egid: int) returns (r: int)
    requires k.Valid()
    modifies k`task
    ensures k.Valid()
    ensures (k.Cur(), r) == SetRegid(old(k.Cur()), rgid, egid)
    ensures k.task == old(k.task)[k.current := Some(k.Cur())]
  {
    var t := k.Cur();
    if rgid > 0 {
      if t.cred.gid == rgid || Suser(t) {
        t := t.(cred := t.cred.(gid := Short(rgid)));
        k.SetCur(t);
      } else {
        return -EPERM;
      }
    }
    if egid > 0 {
      if t.cred.gid == egid || t.cred.egid == egid || t.cred.sgid == egid || Suser(t) {
        t := t.(cred := t.cred.(egid := Short(egid)));
        k.SetCur(t);
      } else {
        return -EPERM;
      }
    }
    return 0;
  }

  /** sys_setreuid(ruid, euid). The uid is restored when the euid is
      refused. */
  function SetReuid(t: Task, ruid: int, euid: int): (r: (Task, int))
  {
    var c := t.cred;
    if ruid > 0 && !(c.euid == ruid || c.uid == ruid || Suser(t)) then (t, -EPERM)
    else
      var c1 := if ruid > 0 then c.(uid := Short(ruid)) else c;
      if euid > 0 && !(c.uid == euid || c1.euid == euid || Suser(t)) then (t.(cred := c1.(uid := c.uid)), -EPERM)
      else (t.(cred := if euid > 0 then c1.(euid := Short(euid)) else c1), 0)
  }

  /** setreuid only touches uid and euid, and a refused call leaves the
      task as it was. The superuser may set both to anything; anyone else
      may only exchange the real and the effective uid. */
  lemma SetReuidMeans(t: Task, ruid: int, euid: int)
    requires TaskOk(t)
    ensures var (r, e) := SetReuid(t, ruid, euid);
      TaskOk(r) && (e == 0 || e == -EPERM) &&
      r == t.(cred := r.cred) && r.cred == t.cred.(uid := r.cred.uid, euid := r.cred.euid) &&
      (e != 0 ==> r == t) &&
      (Suser(t) ==> e == 0) &&
      (e == 0 ==> (ruid > 0 ==> r.cred.uid == Short(ruid)) && (ruid <= 0 ==> r.cred.uid == t.cred.uid) &&
                  (euid > 0 ==> r.cred.euid == Short(euid)) && (euid <= 0 ==> r.cred.euid == t.cred.euid)) &&
      (e == 0 && !Suser(t) ==> ((r.cred.uid == t.cred.uid || r.cred.uid == t.cred.euid) &&
                               (r.cred.euid == t.cred.uid || r.cred.euid == t.cred.euid))) &&
      (e == -EPERM <==> !Suser(t) && ((ruid > 0 && ruid != t.cred.euid && ruid != t.cred.uid) ||
                                      (euid > 0 && euid != t.cred.uid && euid != t.cred.euid)))
  {
    var c := t.cred;
    if !Suser(t) && ruid > 0 && (c.euid == ruid || c.uid == ruid) {
      assert Short(ruid) == ruid;
    }
    if !Suser(t) && euid > 0 && (c.uid == euid || c.euid == euid) {
      assert Short(euid) == euid;
    }
  }

  /** sys_setreuid(ruid, euid) on the current task. */
  method SysSetreuid(k: Kernel, ruid: int, euid: int) returns (r: int)
    requires k.Valid()
    modifies k`task
    ensures k.Valid()
    ensures (k.Cur(), r) == SetReuid(old(k.Cur()), ruid, euid)
    ensures k.task == old(k.task)[k.current := Some(k.Cur())]
  {
    var t := k.Cur();
    var oldRuid := t.cred.uid;
    if ruid > 0 {
      if t.cred.euid == ruid || oldRuid == ruid || Suser(t) {
        t := t.(cred := t.cred.(uid := Short(ruid)));
        k.SetCur(t);
      } else {
        return -EPERM;
      }
    }
    if euid > 0 {
      if oldRuid == euid || t.cred.euid == euid || Suser(t) {
        t := t.(cred := t.cred.(euid := Short(euid)));
        k.SetCur(t);
      } else {
        t := t.(cred := t.cred.(uid := oldRuid));
        k.SetCur(t);
        return -EPERM;
      }
    }
    return 0;
  }

  /** sys_brk(end_data_seg): the comparisons are unsigned, so
      start_stack - 16384 wraps when the stack starts below 16 KB. The
      break is returned as an int. */
  function Brk(t: Task, v: Word): (r: (Task, int))
  {
    var m := t.mem;
    var t1 := if v >= m.endCode && v < ToWord(m.startStack - 16384) then t.(mem := m.(brk := v)) else t;
    (t1, Signed(t1.mem.brk))
  }

  /** brk moves to v exactly when v lies from the end of the code up to
      16 KB below the stack; otherwise nothing changes. The call returns the
      break either way. */
  lemma BrkMeans(t: Task, v: Word)
    requires t.mem.startStack >= 16384
    ensures var (r, e) := Brk(t, v);
      r == t.(mem := t.mem.(brk := r.mem.brk)) && ToWord(e) == r.mem.brk &&
      (r.mem.brk == v <==> (t.mem.endCode <= v < t.mem.startStack - 16384) || t.mem.brk == v)
  {
  }

  /** With the stack below 16 KB the unsigned bound wraps, and every v from
      the end of the code up to nearly 4 GB is accepted. */
  lemma BrkWraps(t: Task, v: Word)
    requires t.mem.startStack < 16384 && t.mem.endCode <= v < WORD - 16384 + t.mem.startStack
    ensures Brk(t, v).0.mem.brk == v
  {
  }

  /** sys_brk on the current task. */
  method SysBrk(k: Kernel, v: Word) returns (r: int)
    requires k.Valid()
    modifies k`task
    ensures k.Valid()
    ensures (k.Cur(), r) == Brk(old(k.Cur()), v)
    ensures k.task == old(k.task)[k.current := Some(k.Cur())]
  {
    var t := k.Cur();
    if v >= t.mem.endCode && v < ToWord(t.mem.startStack - 16384) {
      k.SetCur(t.(mem := t.mem.(brk := v)));
    } else {
      k.SetCur(t);
    }
    r := Signed(k.Cur().mem.brk);
  }

  /** The first slot from lo on holding a task with the given pid, or
      NR_TASKS. */
  function FindPid(ts: seq<Option<Task>>, pid: int, lo: nat): (r: nat)
    requires |ts| == NR_TASKS && lo <= NR_TASKS
    ensures lo <= r <= NR_TASKS
    ensures r < NR_TASKS ==> ts[r].Some? && ts[r].value.ids.pid == pid
    ensures forall j :: lo <= j < r ==> !(ts[j].Some? && ts[j].value.ids.pid == pid)
    decreases NR_TASKS - lo
  {
    if lo == NR_TASKS then NR_TASKS
    else if ts[lo].Some? && ts[lo].value.ids.pid == pid then lo
    else FindPid(ts, pid, lo + 1)
  }

  /** sys_setpgid(pid, pgid) called by the task cur: a 0 pid or pgid means
      the caller's pid; the first task with that pid joins the group unless
      it leads a session or lies in another session. */
  function SetPgid(ts: seq<Option<Task>>, cur: Task, pid: int, pgid: int): (r: (seq<Option<Task>>, int))
    requires TableOk(ts)
    ensures TableOk(r.0)
  {
    var p := if pid == 0 then cur.ids.pid else pid;
    var g := if pgid == 0 then cur.ids.pid else pgid;
    var i := FindPid(ts, p, 0);
    if i == NR_TASKS then (ts, -ESRCH)
    else
      var t := ts[i].value;
      if t.ids.leader != 0 || t.ids.session != cur.ids.session then (ts, -EPERM)
      else (ts[i := Some(t.(ids := t.ids.(pgrp := g)))], 0)
  }

  /** setpgid fails with -ESRCH exactly when no task has the pid, with
      -EPERM when that task leads a session or lies in another session, and
      otherwise moves that one task, and only its pgrp, to the group. */
  lemma SetPgidMeans(ts: seq<Option<Task>>, cur: Task, pid: int, pgid: int)
    requires TableOk(ts)
    ensures var (r, e) := SetPgid(ts, cur, pid, pgid);
      var p := if pid == 0 then cur.ids.pid else pid;
      var g := if pgid == 0 then cur.ids.pid else pgid;
      (e == -ESRCH <==> forall j :: 0 <= j < NR_TASKS ==> !(ts[j].Some? && ts[j].value.ids.pid == p)) &&
      (e != 0 ==> r == ts) &&
      (e == 0 ==> exists i :: (0 <= i < NR_TASKS && ts[i].Some? && ts[i].value.ids.pid == p &&
         ts[i].value.ids.leader == 0 && ts[i].value.ids.session == cur.ids.session &&
         r == ts[i := Some(ts[i].value.(ids := ts[i].value.ids.(pgrp := g)))]))
  {
    var p := if pid == 0 then cur.ids.pid else pid;
    var i := FindPid(ts, p, 0);
    if i < NR_TASKS {
      assert ts[i].Some? && ts[i].value.ids.pid == p;
    }
  }

  /** sys_setpgid on the kernel: the scan over the task table. */
  method SysSetpgid(k: Kernel, pid: int, pgid: int) returns (r: int)
    requires k.Valid()
    modifies k`task
    ensures k.Valid() && (k.task, r) == SetPgid(old(k.task), old(k.Cur()), pid, pgid)
  {
    var p, g := pid, pgid;
    var cur := k.Cur();
    if p == 0 {
      p := cur.ids.pid;
    }
    if g == 0 {
      g := cur.ids.pid;
    }
    var i := 0;
    while i < NR_TASKS
      invariant 0 <= i <= NR_TASKS && FindPid(k.task, p, i) == FindPid(k.task, p, 0)
    {
      if k.task[i].Some? && k.task[i].value.ids.pid == p {
        var t := k.task[i].value;
        if t.ids.leader != 0 {
          return -EPERM;
        }
        if t.ids.session != cur.ids.session {
          return -EPERM;
        }
        k.task := k.task[i := Some(t.(ids := t.ids.(pgrp := g)))];
        return 0;
      }
      i := i + 1;
    }
    return -ESRCH;
  }

  /** sys_setsid(): a session leader that is not the superuser is refused;
      otherwise the task leads a new session and process group named by its
      pid, without a terminal, and the new pgrp is returned. */
  function SetSid(t: Task): (r: (Task, int))
  {
    if t.ids.leader != 0 && !Suser(t) then (t, -EPERM)
    else
      var t1 := t.(ids := t.ids.(leader := 1, session := t.ids.pid, pgrp := t.ids.pid), files := t.files.(tty := -1));
      (t1, t1.ids.pgrp)
  }

  lemma SetSidMeans(t: Task)
    requires TaskOk(t)
    ensures var (r, e) := SetSid(t);
      TaskOk(r) &&
      (t.ids.leader != 0 && !Suser(t) ==> r == t && e == -EPERM) &&
      (t.ids.leader == 0 || Suser(t) ==>
         e == t.ids.pid && r.ids == t.ids.(leader := 1, session := t.ids.pid, pgrp := t.ids.pid) &&
         r.files == t.files.(tty := -1) && r == t.(ids := r.ids, files := r.files))
  {
  }

  /** sys_setsid on the current task. */
  method SysSetsid(k: Kernel) returns (r: int)
    requires k.Valid()
    modifies k`task
    ensures k.Valid()
    ensures (k.Cur(), r) == SetSid(old(k.Cur()))
    ensures k.task == old(k.task)[k.current := Some(k.Cur())]
  {
    var t := k.Cur();
    if t.ids.leader != 0 && !Suser(t) {
      k.SetCur(t);
      return -EPERM;
    }
    t := t.(ids := t.ids.(leader := 1));
    t := t.(ids := t.ids.(session := t.ids.pid, pgrp := t.ids.pid));
    t := t.(files := t.files.(tty := -1));
    k.SetCur(t);
    r := t.ids.pgrp;
  }

  /** sys_umask(mask): mask & 0777 on a C int, which is its two's
      complement low nine bits. */
  function Umask(t: Task, mask: int): (r: (Task, int))
  {
    (t.(files := t.files.(umask := mask % 512)), t.files.umask)
  }

  /** The new umask holds exactly the low nine bits of the mask, and the
      old one is returned. */
  lemma UmaskMeans(t: Task, mask: int)
    requires TaskOk(t)
    ensures var (r, e) := Umask(t, mask);
      TaskOk(r) && e == t.files.umask && r == t.(files := t.files.(umask := r.files.umask)) &&
      0 <= r.files.umask < 512 &&
      forall k: nat :: Bit(r.files.umask, k) <==> k < 9 && Bit(mask, k)
  {
    Pow2Values();
    forall k: nat
      ensures Bit(mask % 512, k) <==> k < 9 && Bit(mask, k)
    {
      if k < 9 {
        LowBits(mask, 9, k);
      } else {
        HighBitsClear(mask % 512, 9, k);
      }
    }
  }

  /** sys_umask on the current task. */
  method SysUmask(k: Kernel, mask: int) returns (r: int)
    requires k.Valid()
    modifies k`task
    ensures k.Valid()
    ensures (k.Cur(), r) == Umask(old(k.Cur()), mask)
    ensures k.task == old(k.task)[k.current := Some(k.Cur())]
  {
    var t := k.Cur();
    var old_ := t.files.umask;
    k.SetCur(t.(files := t.files.(umask := mask % 512)));
    r := old_;
  }

  /** sys_stime(tptr), with the long read through tptr given as now: only
      the superuser may set the time; startup_time becomes the time of the
      boot that makes the current time now. */
  method SysStime(k: Kernel, now: int) returns (r: int)
    requires k.Valid()
    modifies k`startupTime
    ensures r == 0 || r == -EPERM
    ensures r == -EPERM <==> !Suser(k.Cur())
    ensures r == 0 ==> k.startupTime + k.jiffies / HZ == now
    ensures r != 0 ==> k.startupTime == old(k.startupTime)
  {
    if !Suser(k.Cur()) {
      return -EPERM;
    }
    k.startupTime := now - k.jiffies / HZ;
    return 0;
  }
}
