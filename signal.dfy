/** kernel/signal.c: the signal mask and action system calls, and
    do_signal, which runs on the way back to user mode and either ignores a
    signal, ends the task, or builds the frame that enters the handler. The
    user-space sigaction read by sys_sigaction is passed as a value, and
    the frame do_signal writes below the user stack is returned. */
module Signal {
  import opened Util
  import opened Bits
  import opened Proc

  /** newmask & ~(1 << (SIGKILL - 1)), the mask as a 32-bit word. */
  function SsetMask(t: Task, newmask: int): (r: (Task, int))
  {
    Pow32();
    PowBelow(SIGKILL - 1, 32);
    (t.(sigs := t.sigs.(blocked := AndNot(ToWord(newmask), S(SIGKILL)))), Signed(t.sigs.blocked))
  }

  /** sys_ssetmask blocks exactly the signals of the new mask except
      SIGKILL, and returns the old mask. */
  lemma SsetMaskMeans(t: Task, newmask: int, k: nat)
    ensures var (r, e) := SsetMask(t, newmask);
      r == t.(sigs := t.sigs.(blocked := r.sigs.blocked)) && ToWord(e) == t.sigs.blocked &&
      (Bit(r.sigs.blocked, k) <==> Bit(ToWord(newmask), k) && k != SIGKILL - 1)
  {
    AndNotBit(ToWord(newmask), S(SIGKILL), k);
    PowBit(SIGKILL - 1, k);
  }

  /** sys_ssetmask(newmask) on the current task. */
  method SysSsetmask(k: Kernel, newmask: int) returns (r: int)
    requires k.Valid()
    modifies k`task
    ensures k.Valid()
    ensures (k.Cur(), r) == SsetMask(old(k.Cur()), newmask)
    ensures k.task == old(k.task)[k.current := Some(k.Cur())]
  {
    var t := k.Cur();
    var old_ := Signed(t.sigs.blocked);
    Pow32();
    PowBelow(SIGKILL - 1, 32);
    k.SetCur(t.(sigs := t.sigs.(blocked := AndNot(ToWord(newmask), S(SIGKILL)))));
    r := old_;
  }

  /** A signal number sys_signal and sys_sigaction accept. */
  predicate Settable(signum: int)
  {
    1 <= signum <= 32 && signum != SIGKILL
  }

  const ONESHOT_NOMASK: Word := 0xC000_0000

  /** sys_signal(signum, handler, restorer): a one-shot handler that does
      not mask its own signal; the old handler is returned. */
  function SetSignal(t: Task, signum: int, handler: int, restorer: int): (r: (Task, int))
    requires TaskOk(t)
  {
    if !Settable(signum) then (t, -1)
    else
      var a := SigAction(handler, 0, ONESHOT_NOMASK, restorer);
      (t.(sigs := t.sigs.(action := t.sigs.action[signum - 1 := a])), t.sigs.action[signum - 1].handler)
  }

  lemma SetSignalMeans(t: Task, signum: int, handler: int, restorer: int)
    requires TaskOk(t)
    ensures var (r, e) := SetSignal(t, signum, handler, restorer);
      TaskOk(r) &&
      (!Settable(signum) ==> r == t && e == -1) &&
      (Settable(signum) ==> (e == t.sigs.action[signum - 1].handler &&
         r == t.(sigs := t.sigs.(action := r.sigs.action)) &&
         r.sigs.action[signum - 1] == SigAction(handler, 0, ONESHOT_NOMASK, restorer) &&
         forall j :: 0 <= j < 32 && j != signum - 1 ==> r.sigs.action[j] == t.sigs.action[j]))
  {
  }

  /** The flags of sys_signal's action: one-shot and no-mask. */
  lemma OneshotNomask()
    ensures And(ONESHOT_NOMASK, SA_ONESHOT) != 0 && And(ONESHOT_NOMASK, SA_NOMASK) != 0
  {
    Pow32();
    assert Pow2(32) == 2 * Pow2(31) && Pow2(31) == 2 * Pow2(30);
    SharedBit(ONESHOT_NOMASK, SA_ONESHOT, 31, 1, 1);
    SharedBit(ONESHOT_NOMASK, SA_NOMASK, 30, 3, 1);
  }

  /** Two values whose quotients by 2^k are both odd share bit k. */
  lemma SharedBit(x: nat, y: nat, k: nat, qx: nat, qy: nat)
    requires x / Pow2(k) == qx && y / Pow2(k) == qy && qx % 2 == 1 && qy % 2 == 1
    ensures And(x, y) != 0
  {
    ShiftBit(x, k, 0);
    ShiftBit(y, k, 0);
    AndBit(x, y, k);
    NonzeroBit(And(x, y));
  }

  /** sys_signal on the current task. */
  method SysSignal(k: Kernel, signum: int, handler: int, restorer: int) returns (r: int)
    requires k.Valid()
    modifies k`task
    ensures k.Valid()
    ensures (k.Cur(), r) == SetSignal(old(k.Cur()), signum, handler, restorer)
    ensures k.task == old(k.task)[k.current := Some(k.Cur())]
  {
    var t := k.Cur();
    if signum < 1 || signum > 32 || signum == SIGKILL {
      k.SetCur(t);
      return -1;
    }
    var tmp := SigAction(handler, 0, ONESHOT_NOMASK, restorer);
    r := t.sigs.action[signum - 1].handler;
    k.SetCur(t.(sigs := t.sigs.(action := t.sigs.action[signum - 1 := tmp])));
  }

  /** The action sys_sigaction installs for signum from the user's act:
      its mask is cleared under SA_NOMASK and otherwise gains the signal's
      own bit. */
  function Installed(act: SigAction, signum: int): (r: SigAction)
    requires 1 <= signum <= 32
  {
    if And(act.flags, SA_NOMASK) != 0 then act.(mask := 0) else act.(mask := Raise(act.mask, signum))
  }

  /** sys_sigaction(signum, action, oldaction), with *action as act; the
      old action is also returned, for the copy to *oldaction. */
  function SetAction(t: Task, signum: int, act: SigAction): (r: (Task, int, SigAction))
    requires TaskOk(t)
  {
    if !Settable(signum) then (t, -1, SigAction(0, 0, 0, 0))
    else (t.(sigs := t.sigs.(action := t.sigs.action[signum - 1 := Installed(act, signum)])), 0, t.sigs.action[signum - 1])
  }

  /** After sys_sigaction the signal's action is the user's, except that
      its mask is empty under SA_NOMASK and otherwise holds the signal
      itself besides the user's bits; no other action changes. */
  lemma SetActionMeans(t: Task, signum: int, act: SigAction, k: nat)
    requires TaskOk(t)
    ensures var (r, e, saved) := SetAction(t, signum, act);
      TaskOk(r) &&
      (!Settable(signum) ==> r == t && e == -1) &&
      (Settable(signum) ==> (e == 0 && saved == t.sigs.action[signum - 1] &&
         r == t.(sigs := t.sigs.(action := r.sigs.action)) &&
         forall j :: 0 <= j < 32 && j != signum - 1 ==> r.sigs.action[j] == t.sigs.action[j])) &&
      (Settable(signum) ==> (var a := r.sigs.action[signum - 1];
         a == act.(mask := a.mask) &&
         (And(act.flags, SA_NOMASK) != 0 ==> a.mask == 0) &&
         (And(act.flags, SA_NOMASK) == 0 ==> (Bit(a.mask, k) <==> Bit(act.mask, k) || k == signum - 1))))
  {
    if Settable(signum) {
      RaiseBit(act.mask, signum, k);
    }
  }

  /** sys_sigaction on the current task. */
  method SysSigaction(k: Kernel, signum: int, act: SigAction) returns (r: int, saved: SigAction)
    requires k.Valid()
    modifies k`task
    ensures k.Valid()
    ensures (k.Cur(), r, saved) == SetAction(old(k.Cur()), signum, act)
    ensures k.task == old(k.task)[k.current := Some(k.Cur())]
  {
    var t := k.Cur();
    saved := SigAction(0, 0, 0, 0);
    if signum < 1 || signum > 32 || signum == SIGKILL {
      k.SetCur(t);
      return -1, saved;
    }
    saved := t.sigs.action[signum - 1];
    var a := act;
    if And(a.flags, SA_NOMASK) != 0 {
      a := a.(mask := 0);
    } else {
      a := a.(mask := Raise(a.mask, signum));
    }
    k.SetCur(t.(sigs := t.sigs.(action := t.sigs.action[signum - 1 := a])));
    r := 0;
  }

  /** The user registers do_signal reads from the system call's stack
      frame and may change. */
  datatype UserRegs = UserRegs(eax: int, ecx: int, edx: int, eflags: int, eip: int, esp: Word)

  /** How do_signal ends: the signal is ignored, the task exits with the
      code given to do_exit, or the handler is entered with the frame
      written at the new user stack pointer. */
  datatype Handled = Ignored | Exits(code: int) | Enters(regs: UserRegs, frame: seq<int>)

  /** do_signal(signr, ...) on the task t: the new task and the outcome. */
  function DoSignal(t: Task, signr: int, u: UserRegs): (r: (Task, Handled))
    requires TaskOk(t) && 1 <= signr <= 32
  {
    var sa := t.sigs.action[signr - 1];
    if sa.handler == SIG_IGN then (t, Ignored)
    else if sa.handler == SIG_DFL && signr == SIGCHLD then (t, Ignored)
    else if sa.handler == SIG_DFL then (t, Exits(S(signr)))
    else
      var sa1 := if And(sa.flags, SA_ONESHOT) != 0 then sa.(handler := SIG_DFL) else sa;
      var nomask := And(sa.flags, SA_NOMASK) != 0;
      var longs := if nomask then 7 else 8;
      var frame := [sa.restorer, signr] + (if nomask then [] else [t.sigs.blocked]) +
                   [u.eax, u.ecx, u.edx, u.eflags, u.eip];
      Pow32();
      OrBound(t.sigs.blocked, sa.mask, 32);
      var blocked := Or(t.sigs.blocked, sa.mask);
      (t.(sigs := t.sigs.(action := t.sigs.action[signr - 1 := sa1], blocked := blocked)),
       Enters(u.(eip := sa.handler, esp := ToWord(u.esp - 4 * longs)), frame))
  }

  /** do_signal ignores SIG_IGN and a default SIGCHLD, ends the task with
      the signal's bit as exit code for any other default action, and
      otherwise enters the handler: a one-shot handler is reset to SIG_DFL,
      the frame holds 7 longs under SA_NOMASK and 8 (with the old mask)
      otherwise, the stack pointer moves down by the frame, and the
      action's mask joins the blocked signals. */
  lemma DoSignalMeans(t: Task, signr: int, u: UserRegs, k: nat)
    requires TaskOk(t) && 1 <= signr <= 32
    ensures var (r, h) := DoSignal(t, signr, u);
      var sa := t.sigs.action[signr - 1];
      var nomask := And(sa.flags, SA_NOMASK) != 0;
      TaskOk(r) &&
      (h == Ignored <==> sa.handler == SIG_IGN || (sa.handler == SIG_DFL && signr == SIGCHLD)) &&
      (h.Exits? <==> sa.handler == SIG_DFL && signr != SIGCHLD) &&
      (!h.Enters? ==> r == t) &&
      (h.Exits? ==> h.code == S(signr)) &&
      (h.Enters? ==> (
         h.regs.eip == sa.handler && |h.frame| == (if nomask then 7 else 8) &&
         h.regs.esp == ToWord(u.esp - 4 * |h.frame|) &&
         h.frame[0] == sa.restorer && h.frame[1] == signr &&
         (!nomask ==> h.frame[2] == t.sigs.blocked) &&
         h.frame[|h.frame| - 5..] == [u.eax, u.ecx, u.edx, u.eflags, u.eip] &&
         r.sigs.action[signr - 1].handler == (if And(sa.flags, SA_ONESHOT) != 0 then SIG_DFL else sa.handler) &&
         r.sigs.action[signr - 1] == sa.(handler := r.sigs.action[signr - 1].handler) &&
         (forall j :: 0 <= j < 32 && j != signr - 1 ==> r.sigs.action[j] == t.sigs.action[j]) &&
         r == t.(sigs := r.sigs) && r.sigs.signal == t.sigs.signal &&
         (Bit(r.sigs.blocked, k) <==> Bit(t.sigs.blocked, k) || Bit(sa.mask, k))))
  {
    var sa := t.sigs.action[signr - 1];
    if sa.handler != SIG_IGN && sa.handler != SIG_DFL {
      OrBit(t.sigs.blocked, sa.mask, k);
    }
  }

  /** do_signal on the current task. */
  method SysDoSignal(k: Kernel, signr: int, u: UserRegs) returns (h: Handled)
    requires k.Valid() && 1 <= signr <= 32
    modifies k`task
    ensures k.Valid()
    ensures (k.Cur(), h) == DoSignal(old(k.Cur()), signr, u)
    ensures k.task == old(k.task)[k.current := Some(k.Cur())]
  {
    var t := k.Cur();
    var sa := t.sigs.action[signr - 1];
    var handler := sa.handler;
    if handler == SIG_IGN {
      k.SetCur(t);
      return Ignored;
    }
    if handler == SIG_DFL {
      k.SetCur(t);
      if signr == SIGCHLD {
        return Ignored;
      } else {
        return Exits(S(signr));
      }
    }
    var action := t.sigs.action;
    if And(sa.flags, SA_ONESHOT) != 0 {
      action := action[signr - 1 := sa.(handler := SIG_DFL)];
    } else {
      assert action == action[signr - 1 := sa];
    }
    var longs := 8;
    var frame := [sa.restorer, signr];
    if And(sa.flags, SA_NOMASK) != 0 {
      longs := 7;
    } else {
      frame := frame + [t.sigs.blocked];
    }
    frame := frame + [u.eax, u.ecx, u.edx, u.eflags, u.eip];
    var esp := ToWord(u.esp - 4 * longs);
    Pow32();
    OrBound(t.sigs.blocked, sa.mask, 32);
    var blocked: Word := Or(t.sigs.blocked, sa.mask);
    assert frame == [sa.restorer, signr] + (if And(sa.flags, SA_NOMASK) != 0 then [] else [t.sigs.blocked]) +
                    [u.eax, u.ecx, u.edx, u.eflags, u.eip];
    k.SetCur(t.(sigs := t.sigs.(action := action, blocked := blocked)));
    h := Enters(u.(eip := handler, esp := esp), frame);
  }
}
