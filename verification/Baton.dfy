/**
 The interpreter's baton: one process at a time runs the virtual machine. The others queue for
 it, those that come from outside ahead of the machines that wait their turn; the baton passes
 when giver and taker meet. Every step here is one stretch under the scheduler's lock, or one
 meeting, and the steps of all processes come in any order.
 */
module Baton {
  import opened Sequences

  type Proc = nat

  /**
   Where a process stands: outside; queued by acquire and about to wake the sleeper; queued, by
   acquire or not; running the machine; asleep though it holds the baton; or giving the baton
   to taker, and then queued itself or outside.
   */
  datatype Pc = Out | Nudging | Waiting(acquires: bool) | Holding | Asleep | Giving(taker: Proc, back: bool)

  datatype Maybe = Nobody | Somebody(p: Proc)

  /** The scheduler's fields, whether there is a program to run, and where each process stands. */
  datatype State = State(idle: bool, wanted: int, vmq: seq<Proc>, irend: Maybe, ready: bool, pcs: map<Proc, Pc>)

  function At(s: State, p: Proc): Pc {
    if p in s.pcs then s.pcs[p] else Out
  }

  datatype Step =
    | Acquire(p: Proc)
    | Nudge(p: Proc)
    | Release(p: Proc)
    | Yield(p: Proc)
    | Startup(p: Proc)
    | Meet(p: Proc)
    | Sleep(p: Proc)
    | Execute(p: Proc, more: bool)

  /** Whether the process can take the step now. */
  predicate Enabled(s: State, e: Step) {
    match e
    case Acquire(p) => At(s, p) == Out
    case Nudge(p) => At(s, p) == Nudging
    case Release(p) => At(s, p) == Holding
    case Yield(p) => At(s, p) == Holding && s.wanted != 0
    case Startup(p) => At(s, p) == Out
    case Meet(p) => At(s, p).Giving? && At(s, At(s, p).taker).Waiting?
    case Sleep(p) => At(s, p) == Holding && !s.ready && s.wanted == 0
    case Execute(p, more) => At(s, p) == Holding
  }

  function Apply(s: State, e: Step): State
    requires Enabled(s, e)
  {
    match e
    case Acquire(p) =>
      if s.idle then s.(idle := false, ready := true, pcs := s.pcs[p := Holding])
      else s.(wanted := s.wanted + 1, vmq := [p] + s.vmq, pcs := s.pcs[p := if s.wanted == 0 then Nudging else Waiting(true)])
    case Nudge(p) =>
      var t := s.(irend := Nobody, pcs := s.pcs[p := Waiting(true)]);
      if s.irend == Nobody then t else t.(pcs := t.pcs[s.irend.p := Holding])
    case Release(p) =>
      if s.vmq == [] then s.(idle := true, pcs := s.pcs[p := Out])
      else s.(vmq := s.vmq[1..], pcs := s.pcs[p := Giving(s.vmq[0], false)])
    case Yield(p) =>
      if s.vmq == [] then s.(wanted := s.wanted - 1)
      else s.(wanted := s.wanted - 1, vmq := s.vmq[1..] + [p], pcs := s.pcs[p := Giving(s.vmq[0], true)])
    case Startup(p) =>
      if s.idle then s.(idle := false, pcs := s.pcs[p := Holding])
      else s.(vmq := s.vmq + [p], pcs := s.pcs[p := Waiting(false)])
    case Meet(p) =>
      var g, q := At(s, p), At(s, p).taker;
      s.(ready := s.ready || At(s, q).acquires, pcs := s.pcs[p := if g.back then Waiting(false) else Out][q := Holding])
    case Sleep(p) => s.(irend := Somebody(p), pcs := s.pcs[p := Asleep])
    case Execute(p, more) => s.(ready := more)
  }

  /** At the start the machine is idle and nobody is inside. */
  const START := State(true, 0, [], Nobody, false, map[])

  /** The states after each step of a run. */
  predicate IsRun(run: seq<State>, steps: seq<Step>) {
    |run| == |steps| + 1 && run[0] == START
    && forall i :: 0 <= i < |steps| ==> Enabled(run[i], steps[i]) && run[i + 1] == Apply(run[i], steps[i])
  }

  // ----- the invariant

  /** p holds the baton, or is giving it away. */
  predicate Active(s: State, p: Proc) {
    var c := At(s, p);
    c == Holding || c == Asleep || c.Giving?
  }

  predicate Queues(c: Pc) {
    c == Nudging || c.Waiting?
  }

  /** p was put in the queue by acquire. */
  predicate Acquirer(s: State, p: Proc) {
    At(s, p) == Nudging || At(s, p) == Waiting(true)
  }

  function Acquirers(s: State, q: seq<Proc>): nat {
    if q == [] then 0 else (if Acquirer(s, q[0]) then 1 else 0) + Acquirers(s, q[1..])
  }

  /** h is the one that has the baton; nobody has it just when the machine is idle, and then nobody queues. */
  ghost predicate OneActive(s: State, h: Maybe) {
    (forall p :: Active(s, p) <==> h == Somebody(p)) && (s.idle <==> h == Nobody) && (s.idle ==> s.vmq == [])
  }

  /** The one the baton is being given to. */
  function Taker(s: State, h: Maybe): Maybe {
    if h.Somebody? && At(s, h.p).Giving? then Somebody(At(s, h.p).taker) else Nobody
  }

  predicate GivesBack(s: State, p: Proc) {
    At(s, p).Giving? && At(s, p).back
  }

  /** The queue holds each process once, and just those that wait and are not being met, and a giver that will wait. */
  ghost predicate QueueRight(s: State, h: Maybe) {
    Distinct(s.vmq)
    && (forall p :: p in s.vmq <==> (Queues(At(s, p)) && Taker(s, h) != Somebody(p)) || GivesBack(s, p))
    && (Taker(s, h) != Nobody ==> Queues(At(s, Taker(s, h).p)))
  }

  /** Who comes by acquire stands before who does not. */
  ghost predicate AcquirersFirst(s: State) {
    forall i, j :: 0 <= i < j < |s.vmq| && Acquirer(s, s.vmq[j]) ==> Acquirer(s, s.vmq[i])
  }

  /** The sleeper is known to the Rendez, and does not sleep on while the baton is wanted and no one is about to wake it. */
  ghost predicate SleeperRight(s: State, h: Maybe) {
    s.irend == (if h.Somebody? && At(s, h.p) == Asleep then h else Nobody)
    && (s.irend != Nobody && s.wanted > 0 ==> exists p :: At(s, p) == Nudging)
  }

  ghost predicate InvBy(s: State, h: Maybe) {
    OneActive(s, h) && QueueRight(s, h) && AcquirersFirst(s) && SleeperRight(s, h) && s.wanted >= Acquirers(s, s.vmq)
  }

  ghost predicate Inv(s: State) {
    exists h :: InvBy(s, h)
  }

  // ----- counting

  lemma {:induction false} AcquirersSame(s: State, t: State, q: seq<Proc>)
    requires forall p :: p in q ==> Acquirer(s, p) == Acquirer(t, p)
    ensures Acquirers(s, q) == Acquirers(t, q)
  {
    if q == [] {
    } else {
      assert q[0] in q && forall p :: p in q[1..] ==> p in q;
      AcquirersSame(s, t, q[1..]);
    }
  }

  lemma {:induction false} AcquirersLast(s: State, q: seq<Proc>, p: Proc)
    ensures Acquirers(s, q + [p]) == Acquirers(s, q) + if Acquirer(s, p) then 1 else 0
  {
    if q == [] {
      assert [p][1..] == [];
    } else {
      assert (q + [p])[1..] == q[1..] + [p];
      AcquirersLast(s, q[1..], p);
    }
  }

  lemma {:induction false} SomeAcquirer(s: State, q: seq<Proc>, p: Proc)
    requires p in q && Acquirer(s, p)
    ensures Acquirers(s, q) > 0
  {
    if q[0] != p {
      assert p in q[1..];
      SomeAcquirer(s, q[1..], p);
    }
  }

  lemma {:induction false} NoAcquirers(s: State, q: seq<Proc>)
    requires forall i :: 0 <= i < |q| ==> !Acquirer(s, q[i])
    ensures Acquirers(s, q) == 0
  {
    if q == [] {
    } else {
      NoAcquirers(s, q[1..]);
    }
  }

  // ----- every step keeps the invariant

  lemma AcquireQueue(s: State, h: Maybe, p: Proc)
    requires OneActive(s, h) && QueueRight(s, h) && SleeperRight(s, h) && Enabled(s, Acquire(p))
    ensures QueueRight(Apply(s, Acquire(p)), if s.idle then Somebody(p) else h) && p !in s.vmq
  {
    hide AcquirersFirst;
    var t := Apply(s, Acquire(p));
    assert p !in s.vmq;
    if !s.idle { OnceMore(s.vmq, p); }
  }

  lemma AcquireKeeps(s: State, h: Maybe, p: Proc)
    requires InvBy(s, h) && Enabled(s, Acquire(p))
    ensures InvBy(Apply(s, Acquire(p)), if s.idle then Somebody(p) else h)
  {
    hide QueueRight;
    var t := Apply(s, Acquire(p));
    AcquireQueue(s, h, p);
    if !s.idle {
      AcquirersSame(s, t, s.vmq);
      assert t.vmq[1..] == s.vmq;
      if s.irend != Nobody && s.wanted > 0 {
        var q :| At(s, q) == Nudging;
        assert At(t, q) == Nudging;
      } else {
        assert s.wanted == 0 ==> At(t, p) == Nudging;
      }
    }
  }

  lemma NudgeQueue(s: State, h: Maybe, p: Proc)
    requires OneActive(s, h) && QueueRight(s, h) && SleeperRight(s, h) && Enabled(s, Nudge(p))
    ensures QueueRight(Apply(s, Nudge(p)), h)
  {
    hide AcquirersFirst;
    var t := Apply(s, Nudge(p));
    if s.irend != Nobody { assert h == s.irend; }
  }

  lemma NudgeKeeps(s: State, h: Maybe, p: Proc)
    requires InvBy(s, h) && Enabled(s, Nudge(p))
    ensures InvBy(Apply(s, Nudge(p)), h)
  {
    hide QueueRight;
    var t := Apply(s, Nudge(p));
    NudgeQueue(s, h, p);
    AcquirersSame(s, t, s.vmq);
  }

  lemma ReleaseQueue(s: State, h: Maybe, p: Proc)
    requires OneActive(s, h) && QueueRight(s, h) && SleeperRight(s, h) && Enabled(s, Release(p))
    ensures QueueRight(Apply(s, Release(p)), if s.vmq == [] then Nobody else h) && p !in s.vmq
  {
    hide AcquirersFirst;
    var t := Apply(s, Release(p));
    assert Active(s, p);
    if s.vmq != [] { Front(s.vmq); }
  }

  lemma ReleaseKeeps(s: State, h: Maybe, p: Proc)
    requires InvBy(s, h) && Enabled(s, Release(p))
    ensures InvBy(Apply(s, Release(p)), if s.vmq == [] then Nobody else h)
  {
    hide QueueRight;
    var t := Apply(s, Release(p));
    assert Active(s, p);
    ReleaseQueue(s, h, p);
    if s.vmq != [] {
      AcquirersSame(s, t, t.vmq);
    }
  }

  lemma YieldQueue(s: State, h: Maybe, p: Proc)
    requires OneActive(s, h) && QueueRight(s, h) && SleeperRight(s, h) && Enabled(s, Yield(p))
    ensures QueueRight(Apply(s, Yield(p)), h) && p !in s.vmq
  {
    hide AcquirersFirst;
    var t := Apply(s, Yield(p));
    assert Active(s, p);
    assert p !in s.vmq;
    if s.vmq != [] {
      Front(s.vmq);
      OnceMore(s.vmq[1..], p);
      assert h == Somebody(p) && Taker(t, h) == Somebody(s.vmq[0]);
      forall q ensures q in t.vmq <==> (Queues(At(t, q)) && Taker(t, h) != Somebody(q)) || GivesBack(t, q) {
        assert q in t.vmq <==> q in s.vmq[1..] || q == p;
        assert GivesBack(s, q) ==> Active(s, q);
      }
    }
  }

  lemma YieldKeeps(s: State, h: Maybe, p: Proc)
    requires InvBy(s, h) && Enabled(s, Yield(p))
    ensures InvBy(Apply(s, Yield(p)), h)
  {
    hide QueueRight;
    var t := Apply(s, Yield(p));
    assert Active(s, p);
    YieldQueue(s, h, p);
    if s.vmq != [] {
      AcquirersSame(s, t, s.vmq[1..]);
      AcquirersLast(t, s.vmq[1..], p);
      if !Acquirer(s, s.vmq[0]) { NoAcquirers(s, s.vmq[1..]); }
    }
  }

  lemma StartupQueue(s: State, h: Maybe, p: Proc)
    requires OneActive(s, h) && QueueRight(s, h) && SleeperRight(s, h) && Enabled(s, Startup(p))
    ensures QueueRight(Apply(s, Startup(p)), if s.idle then Somebody(p) else h) && p !in s.vmq
  {
    hide AcquirersFirst;
    var t := Apply(s, Startup(p));
    assert p !in s.vmq;
    if !s.idle { OnceMore(s.vmq, p); }
  }

  lemma StartupKeeps(s: State, h: Maybe, p: Proc)
    requires InvBy(s, h) && Enabled(s, Startup(p))
    ensures InvBy(Apply(s, Startup(p)), if s.idle then Somebody(p) else h)
  {
    hide QueueRight;
    var t := Apply(s, Startup(p));
    StartupQueue(s, h, p);
    if !s.idle {
      AcquirersSame(s, t, s.vmq);
      AcquirersLast(t, s.vmq, p);
      if s.irend != Nobody && s.wanted > 0 {
        var q :| At(s, q) == Nudging;
        assert At(t, q) == Nudging;
      }
    }
  }

  lemma MeetQueue(s: State, h: Maybe, p: Proc)
    requires OneActive(s, h) && QueueRight(s, h) && SleeperRight(s, h) && Enabled(s, Meet(p))
    ensures QueueRight(Apply(s, Meet(p)), Taker(s, h)) && At(s, p).taker != p && At(s, p).taker !in s.vmq && Queues(At(s, At(s, p).taker))
  {
    hide AcquirersFirst;
    var t := Apply(s, Meet(p));
    assert Active(s, p);
    assert At(s, p).taker != p;
  }

  lemma MeetKeeps(s: State, h: Maybe, p: Proc)
    requires InvBy(s, h) && Enabled(s, Meet(p))
    ensures InvBy(Apply(s, Meet(p)), Taker(s, h))
  {
    hide QueueRight;
    var t := Apply(s, Meet(p));
    assert Active(s, p);
    MeetQueue(s, h, p);
    AcquirersSame(s, t, s.vmq);
  }

  lemma SleepQueue(s: State, h: Maybe, p: Proc)
    requires OneActive(s, h) && QueueRight(s, h) && SleeperRight(s, h) && Enabled(s, Sleep(p))
    ensures QueueRight(Apply(s, Sleep(p)), h)
  {
    hide AcquirersFirst;
    var t := Apply(s, Sleep(p));
    assert Active(s, p);
  }

  lemma SleepKeeps(s: State, h: Maybe, p: Proc)
    requires InvBy(s, h) && Enabled(s, Sleep(p))
    ensures InvBy(Apply(s, Sleep(p)), h)
  {
    hide QueueRight;
    var t := Apply(s, Sleep(p));
    assert Active(s, p);
    SleepQueue(s, h, p);
    AcquirersSame(s, t, s.vmq);
  }

  lemma ExecuteKeeps(s: State, h: Maybe, p: Proc, more: bool)
    requires InvBy(s, h) && Enabled(s, Execute(p, more))
    ensures InvBy(Apply(s, Execute(p, more)), h)
  {
    var t := Apply(s, Execute(p, more));
    assert forall q :: At(s, q) == At(t, q) && Active(s, q) == Active(t, q);
    AcquirersSame(s, t, s.vmq);
  }

  lemma Front(q: seq<Proc>)
    requires q != [] && Distinct(q)
    ensures q[0] in q && Distinct(q[1..]) && forall p :: p in q[1..] <==> p in q && p != q[0]
  {
    forall p | p in q && p != q[0] ensures p in q[1..] {
      var i :| 0 <= i < |q| && q[i] == p;
      assert q[1..][i - 1] == p;
    }
  }

  lemma OnceMore(q: seq<Proc>, p: Proc)
    requires Distinct(q) && p !in q
    ensures Distinct([p] + q) && Distinct(q + [p])
  {
  }

  lemma StepKeeps(s: State, e: Step)
    requires Inv(s) && Enabled(s, e)
    ensures Inv(Apply(s, e))
  {
    hide InvBy, Apply;
    var h :| InvBy(s, h);
    match e
    case Acquire(p) => AcquireKeeps(s, h, p);
    case Nudge(p) => NudgeKeeps(s, h, p);
    case Release(p) => ReleaseKeeps(s, h, p);
    case Yield(p) => YieldKeeps(s, h, p);
    case Startup(p) => StartupKeeps(s, h, p);
    case Meet(p) => MeetKeeps(s, h, p);
    case Sleep(p) => SleepKeeps(s, h, p);
    case Execute(p, more) => ExecuteKeeps(s, h, p, more);
  }

  /** In every run, whatever the order of the steps, the invariant holds after each step. */
  lemma {:induction false} RunsKeep(run: seq<State>, steps: seq<Step>, k: nat)
    requires IsRun(run, steps) && k <= |steps|
    ensures Inv(run[k])
  {
    if k == 0 {
      assert InvBy(START, Nobody);
    } else {
      hide Inv, Apply;
      RunsKeep(run, steps, k - 1);
      StepKeeps(run[k - 1], steps[k - 1]);
    }
  }

  // ----- what the invariant means

  /** The machine is idle, or one process runs it, or one hand-off is under way: exactly one of these, and only once. */
  lemma OneBaton(run: seq<State>, steps: seq<Step>, k: nat, p: Proc, q: Proc)
    requires IsRun(run, steps) && k <= |steps|
    ensures Active(run[k], p) && Active(run[k], q) ==> p == q
    ensures run[k].idle ==> !Active(run[k], p) && run[k].vmq == []
    ensures !run[k].idle ==> exists h :: Active(run[k], h)
  {
    RunsKeep(run, steps, k);
    var s := run[k];
    var h :| InvBy(s, h);
    if !s.idle { assert Active(s, h.p); }
  }

  /**
   Never does the holder sleep on while a process queued by acquire waits, unless one is about to
   wake it; and that one can go on, and the holder then runs.
   */
  lemma NoLostWakeup(run: seq<State>, steps: seq<Step>, k: nat, h: Proc, p: Proc)
    requires IsRun(run, steps) && k <= |steps| && At(run[k], h) == Asleep && p in run[k].vmq && Acquirer(run[k], p)
    ensures exists q :: Enabled(run[k], Nudge(q)) && At(Apply(run[k], Nudge(q)), h) == Holding
  {
    RunsKeep(run, steps, k);
    var s := run[k];
    var o :| InvBy(s, o);
    assert Active(s, h);
    SomeAcquirer(s, s.vmq, p);
    var q :| At(s, q) == Nudging;
    assert Enabled(s, Nudge(q));
  }

  /** A hand-off always comes to its end: the taker is there, or is on its way and about to wake the sleeper. */
  lemma HandOffEnds(run: seq<State>, steps: seq<Step>, k: nat, p: Proc)
    requires IsRun(run, steps) && k <= |steps| && At(run[k], p).Giving?
    ensures var q := At(run[k], p).taker;
            Enabled(run[k], Meet(p)) || (Enabled(run[k], Nudge(q)) && Enabled(Apply(run[k], Nudge(q)), Meet(p)))
    ensures forall g :: At(run[k], g).Giving? ==> g == p
  {
    RunsKeep(run, steps, k);
    var s := run[k];
    var o :| InvBy(s, o);
    assert Active(s, p);
    assert Queues(At(s, At(s, p).taker));
    forall g | At(s, g).Giving? ensures g == p { assert Active(s, g); }
  }

  /**
   While a process queued by acquire waits, a machine that runs will yield, and what it gives
   way to, by yielding or by leaving, is such a process, whoever else waits.
   */
  lemma AcquirersAreNext(run: seq<State>, steps: seq<Step>, k: nat, h: Proc, p: Proc)
    requires IsRun(run, steps) && k <= |steps| && At(run[k], h) == Holding && p in run[k].vmq && Acquirer(run[k], p)
    ensures Enabled(run[k], Yield(h)) && !Enabled(run[k], Sleep(h)) && Acquirer(run[k], run[k].vmq[0])
    ensures At(Apply(run[k], Yield(h)), h) == Giving(run[k].vmq[0], true) && At(Apply(run[k], Release(h)), h) == Giving(run[k].vmq[0], false)
  {
    RunsKeep(run, steps, k);
    var s := run[k];
    var o :| InvBy(s, o);
    SomeAcquirer(s, s.vmq, p);
    var i :| 0 <= i < |s.vmq| && s.vmq[i] == p;
    assert i > 0 ==> Acquirer(s, s.vmq[0]);
  }

  /** How often acquire has queued a process, less how often a machine has yielded. */
  ghost function Owed(run: seq<State>, steps: seq<Step>, k: nat): int
    requires k <= |steps| <= |run|
  {
    if k == 0 then 0
    else Owed(run, steps, k - 1) + match steps[k - 1] case Acquire(_) => (if run[k - 1].idle then 0 else 1) case Yield(_) => -1 case _ => 0
  }

  /** The baton is wanted once for each process that acquire queued, and once less for each yield; never less than not at all. */
  lemma {:induction false} WantedIsOwed(run: seq<State>, steps: seq<Step>, k: nat)
    requires IsRun(run, steps) && k <= |steps|
    ensures 0 <= run[k].wanted == Owed(run, steps, k)
  {
    RunsKeep(run, steps, k);
    if k == 0 {
    } else {
      WantedIsOwed(run, steps, k - 1);
      assert run[k] == Apply(run[k - 1], steps[k - 1]);
    }
  }

  ghost predicate AllEnabled(s: State, es: seq<Step>)
    decreases |es|
  {
    es == [] || (Enabled(s, es[0]) && AllEnabled(Apply(s, es[0]), es[1..]))
  }

  ghost function ApplyAll(s: State, es: seq<Step>): State
    requires AllEnabled(s, es)
    decreases |es|
  {
    if es == [] then s else ApplyAll(Apply(s, es[0]), es[1..])
  }

  function Yields(es: seq<Step>): nat {
    if es == [] then 0 else (if es[0].Yield? then 1 else 0) + Yields(es[1..])
  }

  /** The steps are yields, one for each time the baton is wanted, and meetings; then some holder may sleep if there is no program to run. */
  ghost predicate Drains(s: State, es: seq<Step>) {
    (forall e :: e in es ==> e.Yield? || e.Meet?) && AllEnabled(s, es) && Yields(es) == s.wanted
    && exists h :: At(ApplyAll(s, es), h) == Holding && (!s.ready ==> Enabled(ApplyAll(s, es), Sleep(h)))
  }

  /**
   Once no process queued by acquire waits, as many yields as the baton is wanted, each with its
   meeting if a machine waits, let a holder with nothing to run sleep.
   */
  lemma WantsEnd(run: seq<State>, steps: seq<Step>, k: nat, h: Proc)
    requires IsRun(run, steps) && k <= |steps| && At(run[k], h) == Holding
    requires forall p :: p in run[k].vmq ==> !Acquirer(run[k], p)
    ensures exists es: seq<Step> :: Drains(run[k], es)
  {
    RunsKeep(run, steps, k);
    Drain(run[k], h);
  }

  lemma WantedNotNegative(s: State)
    requires Inv(s)
    ensures 0 <= s.wanted
  {
  }

  lemma {:induction false} Drain(s: State, h: Proc)
    requires Inv(s) && At(s, h) == Holding && forall p :: p in s.vmq ==> !Acquirer(s, p)
    ensures exists es: seq<Step> :: Drains(s, es)
    decreases s.wanted
  {
    hide Inv;
    WantedNotNegative(s);
    if s.wanted == 0 {
      var es: seq<Step> := [];
      assert ApplyAll(s, es) == s && Yields(es) == 0 && At(ApplyAll(s, es), h) == Holding;
      assert Drains(s, es);
    } else {
      var t := Apply(s, Yield(h));
      StepKeeps(s, Yield(h));
      if s.vmq == [] {
        Drain(t, h);
        var es :| Drains(t, es);
        DrainsOn(s, Yield(h), es);
      } else {
        var q := s.vmq[0];
        NextMachine(s, h);
        var u := Apply(t, Meet(h));
        StepKeeps(t, Meet(h));
        Drain(u, q);
        var es :| Drains(u, es);
        DrainsOn(t, Meet(h), es);
        DrainsOn(s, Yield(h), [Meet(h)] + es);
      }
    }
  }

  /** A yield with no acquirer queued: the first that waits is a machine, and meets. */
  lemma NextMachine(s: State, h: Proc)
    requires Inv(s) && At(s, h) == Holding && s.wanted != 0 && s.vmq != [] && forall p :: p in s.vmq ==> !Acquirer(s, p)
    ensures var t := Apply(s, Yield(h));
            Enabled(t, Meet(h)) && t.wanted == s.wanted - 1 && t.ready == s.ready
            && var u := Apply(t, Meet(h));
               u.wanted == t.wanted && u.ready == s.ready && At(u, s.vmq[0]) == Holding && forall p :: p in u.vmq ==> !Acquirer(u, p)
  {
    var o :| InvBy(s, o);
    var q := s.vmq[0];
    assert q in s.vmq && Active(s, h);
    assert GivesBack(s, q) ==> Active(s, q);
    assert At(s, q) == Waiting(false);
    forall p | p in s.vmq[1..] + [h] ensures p == h || p in s.vmq { }
  }

  lemma DrainsOn(s: State, e: Step, es: seq<Step>)
    requires Enabled(s, e) && (e.Yield? || e.Meet?) && Drains(Apply(s, e), es)
    requires Apply(s, e).ready == s.ready && Apply(s, e).wanted == s.wanted - if e.Yield? then 1 else 0
    ensures Drains(s, [e] + es)
  {
    hide Apply;
    assert ([e] + es)[1..] == es;
  }

  lemma NobodySleeps(s: State)
    requires Inv(s) && s.irend == Nobody
    ensures forall p :: At(s, p) != Asleep
  {
    var h :| InvBy(s, h);
    forall p ensures At(s, p) != Asleep {
      assert Active(s, p) ==> h == Somebody(p);
    }
  }

  /** The scheduler's own fields, changed by whichever process runs under its lock. */
  class Isched {
    var idle: bool
    var wanted: int
    var vmq: seq<Proc>
    var irend: Maybe
    var ready: bool
    ghost var pcs: map<Proc, Pc>

    ghost function View(): State
      reads this
    {
      State(idle, wanted, vmq, irend, ready, pcs)
    }

    constructor ()
      ensures View() == START
    {
      idle, wanted, vmq, irend, ready, pcs := true, 0, [], Nobody, false, map[];
    }

    /** The first part of acquire; holds: up has the baton at once. first: nobody wanted it before. */
    method AcquireQueue(up: Proc) returns (holds: bool, first: bool)
      requires Inv(View()) && Enabled(View(), Acquire(up))
      modifies this
      ensures View() == Apply(old(View()), Acquire(up)) && Inv(View())
      ensures holds <==> At(View(), up) == Holding
      ensures first <==> At(View(), up) == Nudging
    {
      StepKeeps(View(), Acquire(up));
      if idle {
        idle, ready := false, true;
        holds, first := true, false;
        pcs := pcs[up := Holding];
      } else {
        var n := wanted;
        wanted := wanted + 1;
        vmq := [up] + vmq;
        holds, first := false, n == 0;
        pcs := pcs[up := if n == 0 then Nudging else Waiting(true)];
      }
    }

    /** Wakes the holder, if it sleeps. */
    method WakeHolder(up: Proc)
      requires Inv(View()) && Enabled(View(), Nudge(up))
      modifies this
      ensures View() == Apply(old(View()), Nudge(up)) && Inv(View()) && forall p :: At(View(), p) != Asleep
    {
      StepKeeps(View(), Nudge(up));
      pcs := pcs[up := Waiting(true)];
      if irend.Somebody? {
        pcs := pcs[irend.p := Holding];
        irend := Nobody;
      }
      NobodySleeps(View());
    }

    /** Leaves the machine; who is to be met is returned, and if nobody waits the machine is idle. */
    method ReleaseBaton(up: Proc) returns (p: Maybe)
      requires Inv(View()) && Enabled(View(), Release(up))
      modifies this
      ensures View() == Apply(old(View()), Release(up)) && Inv(View())
      ensures if p == Nobody then idle else At(View(), up) == Giving(p.p, false)
    {
      StepKeeps(View(), Release(up));
      if vmq == [] {
        idle := true;
        pcs := pcs[up := Out];
        return Nobody;
      }
      p := Somebody(vmq[0]);
      pcs := pcs[up := Giving(vmq[0], false)];
      vmq := vmq[1..];
    }

    /** Gives way to the first that waits, and waits behind the last. */
    method IYield(up: Proc) returns (p: Maybe)
      requires Inv(View()) && Enabled(View(), Yield(up))
      modifies this
      ensures View() == Apply(old(View()), Yield(up)) && Inv(View())
      ensures p == if old(vmq) == [] then Nobody else Somebody(old(vmq)[0])
      ensures p != Nobody ==> At(View(), up) == Giving(p.p, true) && vmq[|vmq| - 1] == up
    {
      StepKeeps(View(), Yield(up));
      wanted := wanted - 1;
      if vmq == [] { return Nobody; }
      p := Somebody(vmq[0]);
      pcs := pcs[up := Giving(vmq[0], true)];
      vmq := vmq[1..] + [up];
    }

    /** A new machine runs at once, or waits behind the last. */
    method StartUp(up: Proc) returns (holds: bool)
      requires Inv(View()) && Enabled(View(), Startup(up))
      modifies this
      ensures View() == Apply(old(View()), Startup(up)) && Inv(View())
      ensures holds <==> At(View(), up) == Holding
    {
      StepKeeps(View(), Startup(up));
      if idle {
        idle := false;
        pcs := pcs[up := Holding];
        return true;
      }
      vmq := vmq + [up];
      pcs := pcs[up := Waiting(false)];
      holds := false;
    }

    /** The holder sleeps, if there is nothing to run and the baton is not wanted: seen under the Rendez's lock. */
    method SleepIdle(up: Proc) returns (slept: bool)
      requires Inv(View()) && At(View(), up) == Holding
      modifies this
      ensures slept <==> old(Enabled(View(), Sleep(up)))
      ensures View() == (if slept then Apply(old(View()), Sleep(up)) else old(View())) && Inv(View())
    {
      if ready || wanted != 0 { return false; }
      StepKeeps(View(), Sleep(up));
      irend := Somebody(up);
      pcs := pcs[up := Asleep];
      slept := true;
    }
  }
}
