/** kernel/sched.c: the scheduler, the delta list of kernel timers, the
    clock tick and the alarm and nice system calls. switch_to is the change
    of current; sleep_on and wake_up are not part of this model. */
module Sched {
  import opened Util
  import opened Bits
  import opened Proc

  /** _S(SIGKILL) | _S(SIGSTOP), the complement of _BLOCKABLE. */
  const KILL_STOP: Word := 0x4_0100

  lemma KillStopBit(k: nat)
    ensures Bit(KILL_STOP, k) <==> k == SIGKILL - 1 || k == SIGSTOP - 1
  {
    Pow2Values();
    assert Pow2(18) == 0x4_0000;
    if k < 18 {
      BitAddMultiple(Pow2(8), 1, 18, k);
      PowBit(8, k);
    } else {
      ShiftBit(KILL_STOP, 18, k - 18);
      assert KILL_STOP / Pow2(18) == Pow2(0);
      PowBit(0, k - 18);
    }
  }

  /** signal & ~(_BLOCKABLE & blocked): the raised signals that the mask
      does not hold back. */
  function Unmasked(s: Signals): (r: Word)
  {
    AndNot(s.signal, AndNot(s.blocked, KILL_STOP))
  }

  /** Some raised signal is not blocked, or is SIGKILL or SIGSTOP, which
      cannot be. */
  ghost predicate Pending(s: Signals)
  {
    exists j: nat :: Bit(s.signal, j) && (!Bit(s.blocked, j) || j == SIGKILL - 1 || j == SIGSTOP - 1)
  }

  /** A raised signal is left by the mask when it is not blocked, and
      SIGKILL and SIGSTOP always are. */
  lemma UnmaskedBit(s: Signals, k: nat)
    ensures Bit(Unmasked(s), k) <==>
      Bit(s.signal, k) && (!Bit(s.blocked, k) || k == SIGKILL - 1 || k == SIGSTOP - 1)
  {
    AndNotBit(s.signal, AndNot(s.blocked, KILL_STOP), k);
    AndNotBit(s.blocked, KILL_STOP, k);
    KillStopBit(k);
  }

  /** schedule's test for a waking signal is exactly Pending. */
  lemma UnmaskedPending(s: Signals)
    ensures Unmasked(s) != 0 <==> Pending(s)
  {
    NonzeroBit(Unmasked(s));
    if Unmasked(s) != 0 {
      var k: nat :| Bit(Unmasked(s), k);
      UnmaskedBit(s, k);
    }
    if Pending(s) {
      var j: nat :| Bit(s.signal, j) && (!Bit(s.blocked, j) || j == SIGKILL - 1 || j == SIGSTOP - 1);
      UnmaskedBit(s, j);
    }
  }

  /** An alarm that has passed raises SIGALRM and is cleared. */
  function AlarmDue(t: Task, jiffies: int): (r: Task)
  {
    if t.alarm != 0 && t.alarm < jiffies then t.(sigs := t.sigs.(signal := Raise(t.sigs.signal, SIGALRM)), alarm := 0)
    else t
  }

  /** The first loop of schedule on one task: the alarm, then an
      interruptible task with a waking signal becomes running. */
  function Wake(t: Task, jiffies: int): (r: Task)
  {
    var t1 := AlarmDue(t, jiffies);
    if Unmasked(t1.sigs) != 0 && t1.state == TASK_INTERRUPTIBLE then t1.(state := TASK_RUNNING) else t1
  }

  /** The alarm part of Wake: an alarm that has passed raises SIGALRM and
      is cleared; otherwise alarm and signals stay. Nothing but the signal
      word, the alarm and the state changes. */
  lemma WakeAlarm(t: Task, jiffies: int)
    ensures var r := Wake(t, jiffies);
      var expired := t.alarm != 0 && t.alarm < jiffies;
      r == t.(sigs := r.sigs, alarm := r.alarm, state := r.state) && r.sigs == t.sigs.(signal := r.sigs.signal) &&
      (expired ==> r.alarm == 0 && r.sigs.signal == Raise(t.sigs.signal, SIGALRM)) &&
      (!expired ==> r.alarm == t.alarm && r.sigs.signal == t.sigs.signal)
  {
  }

  /** The signals after Wake: SIGALRM is raised when the alarm has passed,
      and every other bit stays. */
  lemma WakeSignal(t: Task, jiffies: int, k: nat)
    ensures Bit(Wake(t, jiffies).sigs.signal, k) <==>
      Bit(t.sigs.signal, k) || (t.alarm != 0 && t.alarm < jiffies && k == SIGALRM - 1)
  {
    assert Wake(t, jiffies).sigs.signal == AlarmDue(t, jiffies).sigs.signal;
    RaiseBit(t.sigs.signal, SIGALRM, k);
  }

  /** The state part of Wake: a task becomes running exactly when it was
      interruptible and has a pending signal once the alarm is done; no
      other state changes. */
  lemma WakeState(t: Task, jiffies: int)
    ensures var r := Wake(t, jiffies);
      (r.state == TASK_RUNNING <==> t.state == TASK_RUNNING || (t.state == TASK_INTERRUPTIBLE && Pending(r.sigs))) &&
      (r.state != TASK_RUNNING ==> r.state == t.state)
  {
    var t1 := AlarmDue(t, jiffies);
    UnmaskedPending(t1.sigs);
    assert Wake(t, jiffies).sigs == t1.sigs;
  }

  predicate Running(ts: seq<Option<Task>>, j: int)
  {
    0 <= j < |ts| && ts[j].Some? && ts[j].value.state == TASK_RUNNING
  }

  /** The table once the first loop of schedule has visited the tasks above lo. */
  function WokenAbove(ts: seq<Option<Task>>, jiffies: int, lo: int): (r: seq<Option<Task>>)
    requires TableOk(ts)
    ensures TableOk(r)
  {
    seq(NR_TASKS, p requires 0 <= p < NR_TASKS =>
      if lo < p && ts[p].Some? then Some(Wake(ts[p].value, jiffies)) else ts[p])
  }

  /** The tasks' counters once the recount loop has visited the tasks above lo. */
  function RecountedAbove(ts: seq<Option<Task>>, lo: int): (r: seq<Option<Task>>)
    requires TableOk(ts)
    ensures TableOk(r)
  {
    seq(NR_TASKS, p requires 0 <= p < NR_TASKS =>
      if lo < p && ts[p].Some? then Some(ts[p].value.(counter := ts[p].value.counter / 2 + ts[p].value.priority))
      else ts[p])
  }

  lemma WokenStep(ts: seq<Option<Task>>, jiffies: int, p: int)
    requires TableOk(ts) && 0 < p < NR_TASKS
    ensures WokenAbove(ts, jiffies, p - 1) ==
      WokenAbove(ts, jiffies, p)[p := if ts[p].Some? then Some(Wake(ts[p].value, jiffies)) else ts[p]]
  {
  }

  lemma RecountStep(ts: seq<Option<Task>>, p: int)
    requires TableOk(ts) && 0 < p < NR_TASKS
    ensures RecountedAbove(ts, p - 1) ==
      RecountedAbove(ts, p)[p := if ts[p].Some? then Some(ts[p].value.(counter := ts[p].value.counter / 2 + ts[p].value.priority)) else ts[p]]
  {
  }

  /** The selection loop from index i down to 1, holding the best counter c
      and its index next so far. */
  function Scan(ts: seq<Option<Task>>, i: nat, c: int, next: int): (int, int)
    requires |ts| == NR_TASKS && i < NR_TASKS
  {
    if i == 0 then (c, next)
    else if Running(ts, i) && ts[i].value.counter > c then Scan(ts, i - 1, ts[i].value.counter, i)
    else Scan(ts, i - 1, c, next)
  }

  /** The counter and index the selection loop of schedule settles on. */
  function Best(ts: seq<Option<Task>>): (int, int)
    requires |ts| == NR_TASKS
  {
    Scan(ts, NR_TASKS - 1, -1, 0)
  }

  /** next holds the largest counter c among the running tasks above lo,
      and beats every running task above it; next is 0 with c == -1 when
      there is none yet. */
  predicate Leads(ts: seq<Option<Task>>, lo: int, c: int, next: int)
    requires |ts| == NR_TASKS
  {
    (next == 0 ==> c == -1) &&
    (next != 0 ==> lo < next < NR_TASKS && Running(ts, next) && ts[next].value.counter == c) &&
    forall j :: lo < j < NR_TASKS && Running(ts, j) ==>
      ts[j].value.counter <= c && (j > next ==> ts[j].value.counter < c)
  }

  lemma {:induction false} ScanLeads(ts: seq<Option<Task>>, i: nat, c: int, next: int)
    requires TableOk(ts) && i < NR_TASKS && Leads(ts, i, c, next)
    ensures Leads(ts, 0, Scan(ts, i, c, next).0, Scan(ts, i, c, next).1)
  {
    if i > 0 {
      if Running(ts, i) && ts[i].value.counter > c {
        ScanLeads(ts, i - 1, ts[i].value.counter, i);
      } else {
        ScanLeads(ts, i - 1, c, next);
      }
    }
  }

  /** schedule's choice: the running task among task[1..63] with the
      largest counter, the highest index among equals, or task 0 when no
      task is running. */
  lemma BestMeans(ts: seq<Option<Task>>)
    requires TableOk(ts)
    ensures var (c, next) := Best(ts);
      Leads(ts, 0, c, next) &&
      (next == 0 <==> forall j :: 0 < j < NR_TASKS ==> !Running(ts, j)) &&
      (next != 0 ==> c >= 0)
  {
    ScanLeads(ts, NR_TASKS - 1, -1, 0);
    var (c, next) := Best(ts);
    if next == 0 {
      forall j | 0 < j < NR_TASKS
        ensures !Running(ts, j)
      {
        if Running(ts, j) {
          assert false;
        }
      }
    }
  }

  /** When the best counter is 0, the recount gives every task a positive
      counter, so the selection loop of schedule runs at most twice. */
  lemma RecountEnds(ts: seq<Option<Task>>)
    requires TableOk(ts) && Best(ts).0 == 0
    ensures Best(RecountedAbove(ts, 0)).0 > 0
  {
    BestMeans(ts);
    var n := Best(ts).1;
    var r := RecountedAbove(ts, 0);
    assert Running(r, n) && r[n].value.counter > 0;
    BestMeans(r);
  }

  /** The task table after schedule and the task it switches to. */
  function Scheduled(ts: seq<Option<Task>>, jiffies: int): (r: (seq<Option<Task>>, int))
    requires TableOk(ts)
    ensures TableOk(r.0) && 0 <= r.1 < NR_TASKS
  {
    var w := WokenAbove(ts, jiffies, 0);
    BestMeans(w);
    if Best(w).0 != 0 then (w, Best(w).1)
    else
      var n := RecountedAbove(w, 0);
      BestMeans(n);
      (n, Best(n).1)
  }

  /** What schedule promises: the alarms and wake-ups are done first; the
      counters are recounted exactly when some task is running and every
      running task has used up its counter; the task switched to is the
      best running one, with a positive counter, or task 0 when none is
      running. */
  lemma ScheduledMeans(ts: seq<Option<Task>>, jiffies: int)
    requires TableOk(ts)
    ensures var w := WokenAbove(ts, jiffies, 0);
      var (r, next) := Scheduled(ts, jiffies);
      var exhausted := (exists j :: 0 < j < NR_TASKS && Running(w, j)) &&
                       (forall j :: 0 < j < NR_TASKS && Running(w, j) ==> w[j].value.counter == 0);
      r == (if exhausted then RecountedAbove(w, 0) else w) &&
      (next == 0 <==> forall j :: 0 < j < NR_TASKS ==> !Running(r, j)) &&
      (next != 0 ==> (Running(r, next) && r[next].value.counter > 0 &&
         forall j :: 0 < j < NR_TASKS && Running(r, j) ==>
           r[j].value.counter <= r[next].value.counter && (j > next ==> r[j].value.counter < r[next].value.counter)))
  {
    var w := WokenAbove(ts, jiffies, 0);
    BestMeans(w);
    var (c, n) := Best(w);
    if c == 0 {
      RecountEnds(w);
      BestMeans(RecountedAbove(w, 0));
    } else if n != 0 {
      assert Running(w, n) && w[n].value.counter != 0;
    }
  }

  /** The selection loop of schedule. */
  method Select(k: Kernel) returns (c: int, next: int)
    requires k.Valid()
    ensures (c, next) == Best(k.task)
  {
    c, next := -1, 0;
    var i := NR_TASKS;
    while i > 1
      invariant 1 <= i <= NR_TASKS
      invariant Scan(k.task, i - 1, c, next) == Best(k.task)
    {
      i := i - 1;
      if k.task[i].Some? && k.task[i].value.state == TASK_RUNNING && k.task[i].value.counter > c {
        c, next := k.task[i].value.counter, i;
      }
    }
  }

  /** schedule() */
  method Schedule(k: Kernel)
    requires k.Valid()
    modifies k`task, k`current
    ensures k.Valid() && (k.task, k.current) == Scheduled(old(k.task), k.jiffies)
  {
    ghost var w := WokenAbove(k.task, k.jiffies, 0);
    WakeAll(k);
    var c, next := Select(k);
    ghost var rounds := 0;
    while c == 0
      invariant k.Valid() && 0 <= rounds <= 1 && (c, next) == Best(k.task)
      invariant rounds == 0 ==> k.task == w
      invariant rounds == 1 ==> k.task == RecountedAbove(w, 0) && c > 0 && Best(w).0 == 0
      decreases 1 - rounds
    {
      RecountAll(k);
      RecountEnds(w);
      c, next := Select(k);
      rounds := 1;
    }
    BestMeans(k.task);
    k.current := next;
  }

  /** The alarm and wake-up loop of schedule. */
  method WakeAll(k: Kernel)
    requires k.Valid()
    modifies k`task
    ensures k.Valid() && k.task == WokenAbove(old(k.task), k.jiffies, 0)
  {
    ghost var ts := k.task;
    var p := NR_TASKS - 1;
    while p > 0
      invariant 0 <= p < NR_TASKS && k.Valid()
      invariant k.task == WokenAbove(ts, k.jiffies, p)
    {
      if k.task[p].Some? {
        var t := k.task[p].value;
        if t.alarm != 0 && t.alarm < k.jiffies {
          t := t.(sigs := t.sigs.(signal := Raise(t.sigs.signal, SIGALRM)), alarm := 0);
        }
        if Unmasked(t.sigs) != 0 && t.state == TASK_INTERRUPTIBLE {
          t := t.(state := TASK_RUNNING);
        }
        assert t == Wake(ts[p].value, k.jiffies);
        k.task := k.task[p := Some(t)];
      }
      WokenStep(ts, k.jiffies, p);
      p := p - 1;
    }
  }

  /** The recount loop of schedule: counter = (counter >> 1) + priority. */
  method RecountAll(k: Kernel)
    requires k.Valid()
    modifies k`task
    ensures k.Valid() && k.task == RecountedAbove(old(k.task), 0)
  {
    ghost var ts := k.task;
    var p := NR_TASKS - 1;
    while p > 0
      invariant 0 <= p < NR_TASKS && k.Valid()
      invariant k.task == RecountedAbove(ts, p)
    {
      if k.task[p].Some? {
        var t := k.task[p].value;
        k.task := k.task[p := Some(t.(counter := t.counter / 2 + t.priority))];
      }
      RecountStep(ts, p);
      p := p - 1;
    }
  }

  const TIME_REQUESTS: int := 64

  /** One entry of the timer delta list: the ticks after the entry before
      it, and its function (0 for NULL). */
  datatype Timer = Timer(delta: int, fn: int)

  function Sum(l: seq<Timer>): int
  {
    if l == [] then 0 else Sum(l[..|l| - 1]) + l[|l| - 1].delta
  }

  /** The ticks from now until entry i of the list runs. */
  function Due(l: seq<Timer>, i: int): int
    requires 0 <= i < |l|
  {
    Sum(l[..i + 1])
  }

  /** The insertion loop of add_timer: the new entry moves past every entry
      whose delta is smaller than what is left of its own. */
  function Insert(l: seq<Timer>, jiffies: int, fn: int): (r: seq<Timer>)
    ensures |r| == |l| + 1
  {
    if l != [] && l[0].delta < jiffies then [l[0]] + Insert(l[1..], jiffies - l[0].delta, fn)
    else [Timer(jiffies, fn)] + l
  }

  /** Where Insert puts the new entry. */
  function Spot(l: seq<Timer>, jiffies: int): (r: nat)
    ensures r <= |l|
  {
    if l != [] && l[0].delta < jiffies then 1 + Spot(l[1..], jiffies - l[0].delta) else 0
  }

  lemma {:induction false} SumSnoc(l: seq<Timer>, e: Timer)
    ensures Sum(l + [e]) == Sum(l) + e.delta
  {
    assert (l + [e])[..|l + [e]| - 1] == l;
  }

  lemma {:induction false} SumCons(e: Timer, l: seq<Timer>)
    ensures Sum([e] + l) == e.delta + Sum(l)
    decreases |l|
  {
    if l != [] {
      var m := l[..|l| - 1];
      assert [e] + l == ([e] + m) + [l[|l| - 1]];
      assert l == m + [l[|l| - 1]];
      SumSnoc([e] + m, l[|l| - 1]);
      SumSnoc(m, l[|l| - 1]);
      SumCons(e, m);
    } else {
      assert [e] + l == [] + [e];
      SumSnoc([], e);
    }
  }

  /** The new entry goes in at Spot, with what is left of the request
      after the entries before it. */
  lemma {:induction false} InsertShape(l: seq<Timer>, jiffies: int, fn: int)
    ensures var k := Spot(l, jiffies);
      Insert(l, jiffies, fn) == l[..k] + [Timer(jiffies - Sum(l[..k]), fn)] + l[k..]
    decreases |l|
  {
    var k := Spot(l, jiffies);
    if l != [] && l[0].delta < jiffies {
      var j2 := jiffies - l[0].delta;
      InsertShape(l[1..], j2, fn);
      var k2 := Spot(l[1..], j2);
      assert l[..k] == [l[0]] + l[1..][..k2];
      assert l[k..] == l[1..][k2..];
      SumCons(l[0], l[1..][..k2]);
    } else {
      assert l[..0] == [] && l[0..] == l;
    }
  }

  /** The entries before the new one are those whose deltas are smaller
      than what is left of the request; the entry after it is not. */
  lemma {:induction false} SpotLeft(l: seq<Timer>, jiffies: int)
    ensures var k := Spot(l, jiffies);
      var left := jiffies - Sum(l[..k]);
      (k < |l| ==> l[k].delta >= left) && (k > 0 ==> left > 0 || jiffies <= 0)
    decreases |l|
  {
    var k := Spot(l, jiffies);
    if l != [] && l[0].delta < jiffies {
      var j2 := jiffies - l[0].delta;
      SpotLeft(l[1..], j2);
      var k2 := Spot(l[1..], j2);
      assert l[..k] == [l[0]] + l[1..][..k2];
      SumCons(l[0], l[1..][..k2]);
      if k2 == 0 {
        assert l[1..][..k2] == [];
      }
    } else {
      assert l[..0] == [];
    }
  }

  /** add_timer puts the new entry at Spot, with the ticks that are left of
      the request after the entries before it, so that the deltas up to it
      add up to the request; the entries before it are those with smaller
      deltas. */
  lemma InsertMeans(l: seq<Timer>, jiffies: int, fn: int)
    ensures var k := Spot(l, jiffies);
      var left := jiffies - Sum(l[..k]);
      Insert(l, jiffies, fn) == l[..k] + [Timer(left, fn)] + l[k..] &&
      Due(Insert(l, jiffies, fn), k) == jiffies &&
      (k < |l| ==> l[k].delta >= left) &&
      (k > 0 ==> left > 0 || jiffies <= 0)
  {
    var k := Spot(l, jiffies);
    var left := jiffies - Sum(l[..k]);
    InsertShape(l, jiffies, fn);
    SpotLeft(l, jiffies);
    assert Insert(l, jiffies, fn)[..k + 1] == l[..k] + [Timer(left, fn)];
    SumSnoc(l[..k], Timer(left, fn));
  }

  /** add_timer does not take the new entry's delta off its successor's:
      the entry after the new one now runs as many ticks later as the new
      entry's own delta. */
  lemma AddTimerDelaysSuccessor(l: seq<Timer>, jiffies: int, fn: int)
    requires Spot(l, jiffies) < |l|
    ensures var k := Spot(l, jiffies);
      Due(Insert(l, jiffies, fn), k + 1) == Due(l, k) + (jiffies - Sum(l[..k]))
  {
    var k := Spot(l, jiffies);
    var left := jiffies - Sum(l[..k]);
    var r := Insert(l, jiffies, fn);
    InsertMeans(l, jiffies, fn);
    assert r[..k + 2] == (l[..k] + [Timer(left, fn)]) + [l[k]];
    SumSnoc(l[..k] + [Timer(left, fn)], l[k]);
    SumSnoc(l[..k], Timer(left, fn));
    assert l[..k + 1] == l[..k] + [l[k]];
    SumSnoc(l[..k], l[k]);
  }

  /** A timer of 10 ticks, then one of 5 added: the first now runs after 15. */
  lemma AddTimerExample()
    ensures Insert([Timer(10, 1)], 5, 2) == [Timer(5, 2), Timer(10, 1)]
    ensures Due([Timer(10, 1)], 0) == 10 && Due(Insert([Timer(10, 1)], 5, 2), 1) == 15
  {
    var r := [Timer(5, 2), Timer(10, 1)];
    assert r[..2] == r && r[..2][..1] == [Timer(5, 2)];
    assert [Timer(5, 2)][..0] == [];
    assert [Timer(10, 1)][..1] == [Timer(10, 1)] && [Timer(10, 1)][..0] == [];
  }

  /** The loop of do_timer: every entry at the head whose delta has run
      down to 0 or below is removed and its function is run. */
  function Pop(l: seq<Timer>): (r: (seq<Timer>, seq<int>))
  {
    if l != [] && l[0].delta <= 0 then (Pop(l[1..]).0, [l[0].fn] + Pop(l[1..]).1) else (l, [])
  }

  /** The timer part of do_timer: the head delta is decremented, then the
      expired entries are popped; the result is the list left and the
      functions run, in order. */
  function Expire(l: seq<Timer>): (seq<Timer>, seq<int>)
  {
    if l == [] then ([], []) else Pop([l[0].(delta := l[0].delta - 1)] + l[1..])
  }

  function Fns(l: seq<Timer>): (r: seq<int>)
    ensures |r| == |l|
  {
    seq(|l|, i requires 0 <= i < |l| => l[i].fn)
  }

  /** Pop takes the longest prefix of expired entries: their functions run
      in list order and the list left is empty or starts with an entry still
      to wait for. */
  lemma {:induction false} PopMeans(l: seq<Timer>)
    ensures var (rest, fired) := Pop(l);
      var m := |fired|;
      m <= |l| && fired == Fns(l[..m]) && rest == l[m..] &&
      (forall i :: 0 <= i < m ==> l[i].delta <= 0) &&
      (rest == [] || rest[0].delta > 0)
    decreases |l|
  {
    if l != [] && l[0].delta <= 0 {
      PopMeans(l[1..]);
      var m := |Pop(l[1..]).1|;
      assert l[1..][m..] == l[m + 1..];
      assert Fns(l[..m + 1]) == [l[0].fn] + Fns(l[1..][..m]);
    }
  }

  /** One round of do_timer's loop: an expired head entry's function
      joins those already run. */
  lemma PopStep(l: seq<Timer>, fired: seq<int>)
    requires l != [] && l[0].delta <= 0
    ensures (Pop(l).0, fired + Pop(l).1) == (Pop(l[1..]).0, (fired + [l[0].fn]) + Pop(l[1..]).1)
  {
    assert fired + ([l[0].fn] + Pop(l[1..]).1) == (fired + [l[0].fn]) + Pop(l[1..]).1;
  }

  /** do_timer's loop stops at an empty list or at a head entry still to
      wait for. */
  lemma PopStop(l: seq<Timer>, fired: seq<int>)
    requires l == [] || l[0].delta > 0
    ensures (Pop(l).0, fired + Pop(l).1) == (l, fired)
  {
    assert fired + [] == fired;
  }

  /** add_timer's loop stops in front of an entry whose delta is not
      smaller than what is left, or at the end. */
  lemma InsertHere(l: seq<Timer>, d: int, f: int)
    requires l == [] || l[0].delta >= d
    ensures Insert(l, d, f) == [Timer(d, f)] + l
  {
  }

  /** The reply of add_timer. */
  datatype Added = NoFunction | CalledAtOnce | Queued | NoRequestsFree

  predicate Distinct(o: seq<int>)
  {
    forall i, j :: 0 <= i < j < |o| ==> o[i] != o[j]
  }

  predicate InSlots(o: seq<int>)
  {
    forall i :: 0 <= i < |o| ==> 0 <= o[i] < TIME_REQUESTS
  }

  /** The slot after entry i of o, -1 after the last. */
  function Succ(o: seq<int>, i: int): int
    requires 0 <= i < |o|
  {
    if i + 1 < |o| then o[i + 1] else -1
  }

  /** The entries held in the slots o, in that order, by the contents J of
      the jiffies fields and F of the fn fields. */
  function Entries(o: seq<int>, J: seq<int>, F: seq<int>): (r: seq<Timer>)
    requires InSlots(o) && |J| == TIME_REQUESTS && |F| == TIME_REQUESTS
    ensures |r| == |o|
  {
    seq(|o|, i requires 0 <= i < |o| => Timer(J[o[i]], F[o[i]]))
  }

  /** A slot that is in no entry pushed at the head. */
  lemma PushEntries(o: seq<int>, J: seq<int>, F: seq<int>, p: int, d: int, f: int)
    requires InSlots(o) && |J| == TIME_REQUESTS && |F| == TIME_REQUESTS
    requires 0 <= p < TIME_REQUESTS && p !in o
    ensures InSlots([p] + o)
    ensures Entries([p] + o, J[p := d], F[p := f]) == [Timer(d, f)] + Entries(o, J, F)
  {
    var r := Entries([p] + o, J[p := d], F[p := f]);
    var e := [Timer(d, f)] + Entries(o, J, F);
    forall i | 0 <= i < |r|
      ensures r[i] == e[i]
    {
      if i > 0 {
        assert o[i - 1] != p;
      }
    }
  }

  /** The head entry of a list without repeated slots taken off. */
  lemma PopEntries(o: seq<int>, J: seq<int>, F: seq<int>)
    requires InSlots(o) && Distinct(o) && o != [] && |J| == TIME_REQUESTS && |F| == TIME_REQUESTS
    ensures InSlots(o[1..])
    ensures Entries(o[1..], J, F[o[0] := 0]) == Entries(o, J, F)[1..]
  {
    var r := Entries(o[1..], J, F[o[0] := 0]);
    var e := Entries(o, J, F)[1..];
    forall i | 0 <= i < |r|
      ensures r[i] == e[i]
    {
      assert o[1..][i] == o[i + 1] != o[0];
    }
  }

  /** A new jiffies field for the slot of entry m. */
  lemma SetEntry(o: seq<int>, J: seq<int>, F: seq<int>, m: int, d: int)
    requires InSlots(o) && Distinct(o) && 0 <= m < |o| && |J| == TIME_REQUESTS && |F| == TIME_REQUESTS
    ensures Entries(o, J[o[m] := d], F) == Entries(o, J, F)[m := Timer(d, F[o[m]])]
  {
  }

  /** The fields of the slots of entries m and m + 1 swapped, with new
      jiffies fields. */
  lemma SwapEntries(o: seq<int>, J: seq<int>, F: seq<int>, m: int, a: int, b: int)
    requires InSlots(o) && Distinct(o) && 0 <= m && m + 1 < |o| && |J| == TIME_REQUESTS && |F| == TIME_REQUESTS
    ensures var p, q := o[m], o[m + 1];
      Entries(o, J[p := a][q := b], F[p := F[q]][q := F[p]]) ==
      Entries(o, J, F)[m := Timer(a, F[q])][m + 1 := Timer(b, F[p])]
  {
  }

  /** One step of add_timer's loop on the list: the entry after the new one
      moves before it. */
  lemma SwapShape(l: seq<Timer>, m: int, x: Timer, y: Timer)
    requires 0 <= m < |l|
    ensures (l[..m] + [x] + l[m..])[m := l[m]][m + 1 := y] == l[..m + 1] + [y] + l[m + 1..]
  {
    var r := (l[..m] + [x] + l[m..])[m := l[m]][m + 1 := y];
    var e := l[..m + 1] + [y] + l[m + 1..];
    forall i | 0 <= i < |r|
      ensures r[i] == e[i]
    {
    }
  }

  /** The slots o are those whose fn field in F is set. */
  predicate MarkedBy(F: seq<int>, o: seq<int>)
  {
    |F| == TIME_REQUESTS && forall s :: 0 <= s < TIME_REQUESTS ==> (F[s] != 0 <==> s in o)
  }

  lemma MarkedSwap(F: seq<int>, o: seq<int>, p: int, q: int)
    requires MarkedBy(F, o) && p in o && q in o && 0 <= p < TIME_REQUESTS && 0 <= q < TIME_REQUESTS
    ensures MarkedBy(F[p := F[q]][q := F[p]], o)
  {
  }

  lemma MarkedPop(F: seq<int>, o: seq<int>)
    requires MarkedBy(F, o) && InSlots(o) && Distinct(o) && o != []
    ensures MarkedBy(F[o[0] := 0], o[1..])
  {
    forall s | 0 <= s < TIME_REQUESTS
      ensures F[o[0] := 0][s] != 0 <==> s in o[1..]
    {
      if s in o && s != o[0] {
        var i :| 0 <= i < |o| && o[i] == s;
        assert o[1..][i - 1] == s;
      }
      if s in o[1..] {
        var i :| 0 <= i < |o[1..]| && o[1..][i] == s;
        assert o[i + 1] == s;
      }
    }
  }

  /** An entry with a smaller delta than what is left of the new one's lets
      it pass. */
  lemma InsertStep(l: seq<Timer>, m: int, left: int, f: int)
    requires 0 <= m < |l| && l[m].delta < left
    ensures l[..m] + Insert(l[m..], left, f) == l[..m + 1] + Insert(l[m + 1..], left - l[m].delta, f)
  {
    assert l[m..][1..] == l[m + 1..];
    assert l[..m + 1] == l[..m] + [l[m]];
  }

  /** timer_list[TIME_REQUESTS] and next_timer. The list through the next
      links is written out as the ghost slot sequence order; a slot is in the
      list exactly when its fn is not NULL. */
  class TimerList {
    const jif: array<int>
    const fn: array<int>
    const nxt: array<int>
    var head: int
    ghost var order: seq<int>

    ghost predicate Valid()
      reads this, jif, fn, nxt
    {
      jif.Length == TIME_REQUESTS && jif != fn && fn != nxt && jif != nxt && Chain() && Marked()
    }

    /** next_timer and the next links run through the slots of order. */
    ghost predicate Chain()
      reads this, nxt
    {
      nxt.Length == TIME_REQUESTS && InSlots(order) && Distinct(order) &&
      head == (if order == [] then -1 else order[0]) &&
      forall i {:trigger nxt[order[i]]} :: 0 <= i < |order| ==> nxt[order[i]] == Succ(order, i)
    }

    /** The slots in use are those with a function. */
    ghost predicate Marked()
      reads this, fn
    {
      fn.Length == TIME_REQUESTS && MarkedBy(fn[..], order)
    }

    /** The entries from next_timer on. */
    ghost function List(): (r: seq<Timer>)
      requires Valid()
      reads this, jif, fn, nxt
      ensures |r| == |order|
    {
      Entries(order, jif[..], fn[..])
    }

    /** The static initialiser: every slot free. */
    constructor ()
      ensures Valid() && List() == []
    {
      jif := new int[TIME_REQUESTS](_ => 0);
      fn := new int[TIME_REQUESTS](_ => 0);
      nxt := new int[TIME_REQUESTS](_ => -1);
      head := -1;
      order := [];
    }

    /** add_timer(jiffies, fn): nothing for a NULL function, a call at once
      for jiffies <= 0, a panic when every slot is taken; otherwise the entry
      is pushed at the head and moved to its place. */
    method AddTimer(jiffies: int, f: int) returns (out: Added)
      requires Valid()
      modifies this, jif, fn, nxt
      ensures Valid()
      ensures out == NoFunction <==> f == 0
      ensures out == CalledAtOnce <==> f != 0 && jiffies <= 0
      ensures out == NoRequestsFree <==>
        f != 0 && jiffies > 0 && forall s :: 0 <= s < TIME_REQUESTS ==> old(fn[s]) != 0
      ensures out == Queued ==> List() == Insert(old(List()), jiffies, f)
      ensures out != Queued ==> List() == old(List())
    {
      if f == 0 {
        return NoFunction;
      }
      if jiffies <= 0 {
        return CalledAtOnce;
      }
      var p := FreeSlot();
      if p >= TIME_REQUESTS {
        return NoRequestsFree;
      }
      ghost var l := List();
      Push(p, jiffies, f);
      Sift(l, f);
      assert List() == Insert(l, jiffies, f);
      out := Queued;
    }

    /** The first slot without a function, or TIME_REQUESTS when every slot
      has one. */
    method FreeSlot() returns (p: int)
      requires Valid()
      ensures 0 <= p <= TIME_REQUESTS && forall s :: 0 <= s < p ==> fn[s] != 0
      ensures p < TIME_REQUESTS ==> fn[p] == 0
    {
      p := 0;
      while p < TIME_REQUESTS && fn[p] != 0
        invariant 0 <= p <= TIME_REQUESTS
        invariant forall s :: 0 <= s < p ==> fn[s] != 0
      {
        p := p + 1;
      }
    }

    /** The new entry in the free slot p, pushed at the head. */
    method Push(p: int, d: int, f: int)
      requires Valid() && 0 <= p < TIME_REQUESTS && fn[p] == 0 && f != 0
      modifies this, jif, fn, nxt
      ensures Valid() && order != [] && head == order[0] && fn[head] == f && jif[head] == d
      ensures List() == [Timer(d, f)] + old(List())
    {
      ghost var J, F, o := jif[..], fn[..], order;
      assert p !in order;
      PushEntries(order, J, F, p, d, f);
      fn[p] := f;
      jif[p] := d;
      nxt[p] := head;
      head := p;
      order := [p] + order;
      forall i | 0 < i < |order|
        ensures nxt[order[i]] == Succ(order, i)
      {
        assert order[i] == o[i - 1] != p;
      }
      assert jif[..] == J[p := d] && fn[..] == F[p := f];
    }

    /** The loop of add_timer: the new entry at the head swaps places with
      each following entry whose delta is smaller than what is left of its
      own, taking that delta off. */
    method Sift(ghost l: seq<Timer>, f: int)
      requires Valid() && order != [] && head == order[0] && fn[head] == f
      requires List() == [Timer(jif[head], f)] + l
      modifies jif, fn
      ensures Valid() && List() == Insert(l, old(jif[head]), f)
    {
      var p, m := Passes(l, f);
      assert nxt[p] == Succ(order, m);
      if nxt[p] != -1 {
        assert nxt[p] == order[m + 1];
        assert List()[m + 1] == l[m] == l[m..][0];
      }
      InsertHere(l[m..], jif[p], f);
      assert l[..m] + ([Timer(jif[p], f)] + l[m..]) == l[..m] + [Timer(jif[p], f)] + l[m..];
    }

    /** The swaps of add_timer's loop, up to the entry m, in slot p, where
      the new entry stops. */
    method Passes(ghost l: seq<Timer>, f: int) returns (p: int, ghost m: int)
      requires Valid() && order != [] && head == order[0] && fn[head] == f
      requires List() == [Timer(jif[head], f)] + l
      modifies jif, fn
      ensures Valid() && |order| == |l| + 1
      ensures 0 <= m < |order| && p == order[m] && fn[p] == f
      ensures List() == l[..m] + [Timer(jif[p], f)] + l[m..]
      ensures Insert(l, old(jif[head]), f) == l[..m] + Insert(l[m..], jif[p], f)
      ensures nxt[p] == -1 || jif[nxt[p]] >= jif[p]
    {
      p := head;
      m := 0;
      assert l[..0] == [] && l[0..] == l;
      while nxt[p] != -1 && jif[nxt[p]] < jif[p]
        invariant Valid() && |order| == |l| + 1
        invariant 0 <= m < |order| && p == order[m] && fn[p] == f
        invariant List() == l[..m] + [Timer(jif[p], f)] + l[m..]
        invariant Insert(l, old(jif[head]), f) == l[..m] + Insert(l[m..], jif[p], f)
        decreases |order| - m
      {
        ghost var left := jif[p];
        var q := PassNext(l, m, p, f);
        InsertStep(l, m, left, f);
        p := q;
        m := m + 1;
      }
    }

    /** One round of add_timer's loop: the new entry, entry m of the list
      in slot p, passes the entry after it. */
    method PassNext(ghost l: seq<Timer>, ghost m: int, p: int, f: int) returns (q: int)
      requires Valid() && |order| == |l| + 1 && 0 <= m < |order| && p == order[m] && fn[p] == f
      requires List() == l[..m] + [Timer(jif[p], f)] + l[m..]
      requires nxt[p] != -1 && jif[nxt[p]] < jif[p]
      modifies jif, fn
      ensures Valid() && m + 1 < |order| && q == order[m + 1] && fn[q] == f
      ensures l[m].delta < old(jif[p]) && jif[q] == old(jif[p]) - l[m].delta
      ensures List() == l[..m + 1] + [Timer(jif[q], f)] + l[m + 1..]
    {
      assert nxt[p] == Succ(order, m);
      q := nxt[p];
      ghost var J, F := jif[..], fn[..];
      ghost var left := jif[p];
      assert q == order[m + 1];
      assert Entries(order, J, F)[m + 1] == l[m] == Timer(J[q], F[q]);
      SwapEntries(order, J, F, m, J[q], left - J[q]);
      SwapShape(l, m, Timer(left, f), Timer(left - J[q], f));
      MarkedSwap(F, order, p, q);
      SwapSlots(p, q);
    }

    /** One swap of add_timer's loop: the jiffies of q taken off those of
      p, then both fields of the two slots exchanged. */
    method SwapSlots(p: int, q: int)
      requires jif.Length == TIME_REQUESTS && fn.Length == TIME_REQUESTS && jif != fn
      requires 0 <= p < TIME_REQUESTS && 0 <= q < TIME_REQUESTS && p != q
      modifies jif, fn
      ensures jif[..] == old(jif[..])[p := old(jif[q])][q := old(jif[p]) - old(jif[q])]
      ensures fn[..] == old(fn[..])[p := old(fn[q])][q := old(fn[p])]
    {
      jif[p] := jif[p] - jif[q];
      var g := fn[p];
      fn[p] := fn[q];
      fn[q] := g;
      var j := jif[p];
      jif[p] := jif[q];
      jif[q] := j;
    }

    /** The timer part of do_timer. */
    method Tick() returns (fired: seq<int>)
      requires Valid()
      modifies this, jif, fn
      ensures Valid() && (List(), fired) == Expire(old(List()))
    {
      fired := [];
      if head == -1 {
        return;
      }
      DecHead();
      ghost var l1 := List();
      assert [] + Pop(l1).1 == Pop(l1).1;
      while head != -1 && jif[head] <= 0
        invariant Valid()
        invariant Pop(l1) == (Pop(List()).0, fired + Pop(List()).1)
        decreases |order|
      {
        ghost var before := List();
        var f := PopHead();
        PopStep(before, fired);
        fired := fired + [f];
      }
      PopStop(List(), fired);
    }

    /** The head entry's delta decremented. */
    method DecHead()
      requires Valid() && head != -1
      modifies jif
      ensures Valid()
      ensures List() == [old(List())[0].(delta := old(List())[0].delta - 1)] + old(List())[1..]
    {
      ghost var l := List();
      ghost var J := jif[..];
      SetEntry(order, J, fn[..], 0, jif[head] - 1);
      jif[head] := jif[head] - 1;
      assert jif[..] == J[head := J[head] - 1];
    }

    /** The head entry, whose delta has run out, taken off the list and
      its slot freed; f is its function. */
    method PopHead() returns (f: int)
      requires Valid() && head != -1
      modifies this, fn
      ensures Valid() && |order| == |old(order)| - 1
      ensures old(List()) != [] && List() == old(List())[1..]
      ensures f == old(List())[0].fn && old(List())[0].delta == old(jif[head])
    {
      ghost var F, o := fn[..], order;
      ghost var h := head;
      PopEntries(order, jif[..], F);
      MarkedPop(F, order);
      assert nxt[h] == Succ(o, 0);
      f := fn[head];
      fn[head] := 0;
      head := nxt[head];
      order := order[1..];
      forall i | 0 <= i < |order|
        ensures nxt[order[i]] == Succ(order, i)
      {
        assert order[i] == o[i + 1];
        assert nxt[o[i + 1]] == Succ(o, i + 1);
      }
      assert fn[..] == F[h := 0];
    }
  }

  /** The clock tick on the task table: the current task's user or system
      time rises; once its counter runs out it is 0, and from user mode
      (cpl != 0) schedule runs. */
  function Ticked(ts: seq<Option<Task>>, current: int, jiffies: int, cpl: int): (r: (seq<Option<Task>>, int))
    requires TableOk(ts) && 0 <= current < NR_TASKS && ts[current].Some?
    ensures TableOk(r.0) && 0 <= r.1 < NR_TASKS
  {
    var t := ts[current].value;
    var t1 := if cpl != 0 then t.(times := t.times.(utime := t.times.utime + 1)) else t.(times := t.times.(stime := t.times.stime + 1));
    if t1.counter - 1 > 0 then (ts[current := Some(t1.(counter := t1.counter - 1))], current)
    else
      var ts2 := ts[current := Some(t1.(counter := 0))];
      if cpl == 0 then (ts2, current) else Scheduled(ts2, jiffies)
  }

  /** The current task runs on while its counter lasts and in kernel mode;
      a switch happens only from user mode once the counter is used up. */
  lemma TickedMeans(ts: seq<Option<Task>>, current: int, jiffies: int, cpl: int)
    requires TableOk(ts) && 0 <= current < NR_TASKS && ts[current].Some?
    ensures var (r, next) := Ticked(ts, current, jiffies, cpl);
      var t := ts[current].value;
      (t.counter > 1 || cpl == 0 ==> (next == current && r[current].Some? &&
         r[current].value.counter == (if t.counter > 1 then t.counter - 1 else 0) &&
         (cpl != 0 ==> r[current].value.times.utime == t.times.utime + 1) &&
         (cpl == 0 ==> r[current].value.times.stime == t.times.stime + 1))) &&
      (forall j :: 0 <= j < NR_TASKS && j != current && t.counter > 1 ==> r[j] == ts[j])
  {
  }

  /** do_timer(cpl); the timer functions that come due are returned, in the
      order they are called. */
  method DoTimer(k: Kernel, tl: TimerList, cpl: int) returns (fired: seq<int>)
    requires k.Valid() && tl.Valid()
    modifies k`task, k`current, tl, tl.jif, tl.fn
    ensures k.Valid() && tl.Valid()
    ensures (tl.List(), fired) == Expire(old(tl.List()))
    ensures (k.task, k.current) == Ticked(old(k.task), old(k.current), k.jiffies, cpl)
  {
    var t := k.Cur();
    if cpl != 0 {
      t := t.(times := t.times.(utime := t.times.utime + 1));
    } else {
      t := t.(times := t.times.(stime := t.times.stime + 1));
    }
    fired := tl.Tick();
    var c := t.counter - 1;
    if c > 0 {
      k.SetCur(t.(counter := c));
      return;
    }
    k.SetCur(t.(counter := 0));
    if cpl == 0 {
      return;
    }
    Schedule(k);
  }

  /** What sys_alarm returns: the whole seconds left of the old alarm, the
      quotient truncated towards zero as C divides, or 0 with no alarm. */
  function AlarmLeft(t: Task, jiffies: int): int
  {
    if t.alarm != 0 then CDiv(t.alarm - jiffies, HZ) else 0
  }

  /** The task after sys_alarm(seconds). */
  function Alarmed(t: Task, jiffies: int, seconds: int): (r: Task)
    ensures r == t.(alarm := r.alarm)
  {
    t.(alarm := if seconds > 0 then jiffies + HZ * seconds else 0)
  }

  /** An alarm set and read back at the same tick reports the seconds it
      was set for; one set to zero or less reads back as none. */
  lemma AlarmRoundTrip(t: Task, jiffies: int, seconds: int)
    requires jiffies >= 0
    ensures AlarmLeft(Alarmed(t, jiffies, seconds), jiffies) == if seconds > 0 then seconds else 0
  {
    assert (HZ * seconds) / HZ == seconds;
  }

  /** An alarm of s > 0 seconds set at tick j goes off in the first
      schedule after tick j + 100 s, and a cleared alarm never does. */
  lemma AlarmFires(t: Task, j: int, seconds: int, now: int)
    requires j >= 0
    ensures var r := Wake(Alarmed(t, j, seconds), now);
      Bit(r.sigs.signal, SIGALRM - 1) <==> Bit(t.sigs.signal, SIGALRM - 1) || (seconds > 0 && now > j + HZ * seconds)
  {
    WakeSignal(Alarmed(t, j, seconds), now, SIGALRM - 1);
  }

  /** sys_alarm(seconds) */
  method SysAlarm(k: Kernel, seconds: int) returns (r: int)
    requires k.Valid()
    modifies k`task
    ensures k.Valid() && r == AlarmLeft(old(k.Cur()), k.jiffies)
    ensures k.task == old(k.task)[k.current := Some(Alarmed(old(k.Cur()), k.jiffies, seconds))]
  {
    var t := k.Cur();
    var old_ := t.alarm;
    if old_ != 0 {
      old_ := CDiv(old_ - k.jiffies, HZ);
    }
    k.SetCur(t.(alarm := if seconds > 0 then k.jiffies + HZ * seconds else 0));
    r := old_;
  }

  /** The task after sys_nice(increment). */
  function Niced(t: Task, increment: int): (r: Task)
    ensures r == t.(priority := r.priority)
  {
    if t.priority - increment > 0 then t.(priority := t.priority - increment) else t
  }

  /** sys_nice keeps the priority positive: it moves by exactly the
      increment when the result stays above 0, and not at all otherwise. */
  lemma NicedMeans(t: Task, increment: int)
    requires TaskOk(t)
    ensures TaskOk(Niced(t, increment))
    ensures Niced(t, increment).priority == t.priority - increment <==> t.priority - increment > 0 || increment == 0
  {
  }

  /** sys_nice(increment) */
  method SysNice(k: Kernel, increment: int) returns (r: int)
    requires k.Valid()
    modifies k`task
    ensures k.Valid() && r == 0
    ensures k.task == old(k.task)[k.current := Some(Niced(old(k.Cur()), increment))]
  {
    var t := k.Cur();
    if t.priority - increment > 0 {
      k.SetCur(t.(priority := t.priority - increment));
    }
    r := 0;
  }
}
