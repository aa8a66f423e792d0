/**
 Many calls over one connection: each caller queues its call and sends it; one at a time goes
 through the gate and reads replies, its own and those of the others, until its own has come.
 The steps of all callers come in any order, and so do the replies.
 */
module Mux {
  import opened Sequences

  type Rpc = nat
  type Buf = nat
  type Tag = nat
  type Text = nat

  /** The text of a reply, the tag in it, and the buffer its data is in. */
  datatype Reply = Reply(tag: Tag, text: Text, at: Buf)

  /**
   Where a caller stands: outside; before the gate; about to sleep; asleep; woken; reading, as
   the one that is through the gate; with a reply to hand out; about to wake another for whom it
   was; about to open the gate; and about to wake the next one, outside otherwise.
   */
  datatype Pc = Out | Gate | Check | Asleep | Awake | Reader | Muxing | Waking(whom: Rpc) | Leaving | Nudging(next: Rpc)

  /** A call: the tag of its request, the tag of its flush if one was sent, all its flush tags, its buffer and its reply. */
  datatype Call = Call(pc: Pc, done: bool, tag: Tag, flushed: bool, flushtag: Tag, sent: set<Tag>, buf: Buf, reply: Reply)

  datatype Maybe = Nobody | Somebody(r: Rpc)

  /** The queue of calls not yet answered, newest first; the reader; the calls; and what is in the buffers. */
  datatype State = State(queue: seq<Rpc>, rip: Maybe, calls: map<Rpc, Call>, mem: map<Buf, Text>)

  datatype Step =
    | Start(r: Rpc, text: Text)
    | Enter(r: Rpc)
    | Look(r: Rpc)
    | Wake(r: Rpc)
    | Flush(r: Rpc, tag: Tag)
    | Read(r: Rpc, tag: Tag, text: Text)
    | Finish(r: Rpc)
    | Deliver(r: Rpc)
    | Tell(r: Rpc)
    | Open(r: Rpc)
    | Nudge(r: Rpc)

  predicate Enabled(s: State, e: Step) {
    e.r in s.calls &&
    var c := s.calls[e.r];
    match e
    case Start(_, _) => c.pc == Out
    case Enter(_) => c.pc == Gate
    case Look(_) => c.pc == Check
    case Wake(_) => c.pc == Awake
    case Flush(_, _) => c.pc == Gate || c.pc == Asleep || (c.pc == Reader && !c.done)
    case Read(_, _, _) => c.pc == Reader && !c.done
    case Finish(_) => c.pc == Reader && c.done
    case Deliver(_) => c.pc == Muxing
    case Tell(_) => c.pc.Waking? && c.pc.whom in s.calls
    case Open(_) => c.pc == Leaving
    case Nudge(_) => c.pc.Nudging? && c.pc.next in s.calls
  }

  /** The reply with tag t is for call c: it carries the tag of its request, or of its flush. */
  predicate Answers(c: Call, t: Tag) {
    c.tag == t || (c.flushed && c.flushtag == t)
  }

  /** The first in the queue that the reply is for. */
  function Find(calls: map<Rpc, Call>, q: seq<Rpc>, t: Tag): Maybe {
    if q == [] then Nobody
    else if q[0] in calls && Answers(calls[q[0]], t) then Somebody(q[0])
    else Find(calls, q[1..], t)
  }

  /** The first in the queue that is asleep and not done. */
  function Sleeper(calls: map<Rpc, Call>, q: seq<Rpc>): Maybe {
    if q == [] then Nobody
    else if q[0] in calls && !calls[q[0]].done && calls[q[0]].pc == Asleep then Somebody(q[0])
    else Sleeper(calls, q[1..])
  }

  function Without(q: seq<Rpc>, r: Rpc): seq<Rpc> {
    if q == [] then [] else if q[0] == r then q[1..] else [q[0]] + Without(q[1..], r)
  }

  function Woken(calls: map<Rpc, Call>, r: Rpc): map<Rpc, Call>
    requires r in calls
  {
    if calls[r].pc == Asleep then calls[r := calls[r].(pc := Awake)] else calls
  }

  function Apply(s: State, e: Step): State
    requires Enabled(s, e)
  {
    var r, c := e.r, s.calls[e.r];
    match e
    case Start(_, text) =>
      s.(queue := [r] + s.queue, mem := s.mem[c.buf := text], calls := s.calls[r := c.(pc := Gate, done := false, flushed := false, sent := {})])
    case Enter(_) =>
      if s.rip == Nobody then s.(rip := Somebody(r), calls := s.calls[r := c.(pc := Reader)])
      else s.(calls := s.calls[r := c.(pc := Check)])
    case Look(_) => s.(calls := s.calls[r := c.(pc := if c.done || s.rip == Nobody then Awake else Asleep)])
    case Wake(_) => s.(calls := s.calls[r := c.(pc := if c.done then Out else Gate)])
    case Flush(_, tag) =>
      s.(calls := s.calls[r := c.(pc := if c.pc == Asleep then Gate else c.pc, flushed := true, flushtag := tag, sent := c.sent + {tag})])
    case Read(_, tag, text) =>
      s.(mem := s.mem[c.buf := text], calls := s.calls[r := c.(pc := Muxing, reply := Reply(tag, text, c.buf))])
    case Finish(_) => s.(calls := s.calls[r := c.(pc := Leaving)])
    case Deliver(_) =>
      match Find(s.calls, s.queue, c.reply.tag) {
        case Nobody => s.(calls := s.calls[r := c.(pc := Reader)])
        case Somebody(q) =>
          if q == r then s.(queue := Without(s.queue, q), calls := s.calls[r := c.(pc := Reader, done := true)])
          else if q in s.calls then
            var d := s.calls[q];
            s.(queue := Without(s.queue, q),
               calls := s.calls[r := c.(pc := Waking(q), buf := d.buf)][q := d.(done := true, buf := c.buf, reply := c.reply)])
          else s
      }
    case Tell(_) =>
      var q := c.pc.whom;
      s.(calls := Woken(s.calls[r := c.(pc := Reader)], q))
    case Open(_) =>
      s.(rip := Nobody,
         calls := s.calls[r := c.(pc := match Sleeper(s.calls, s.queue) case Nobody => Out case Somebody(q) => Nudging(q))])
    case Nudge(_) =>
      s.(calls := Woken(s.calls[r := c.(pc := Out)], c.pc.next))
  }

  // ----- the invariant

  predicate Through(c: Pc) {
    c == Reader || c == Muxing || c.Waking? || c == Leaving
  }

  predicate Calling(c: Pc) {
    c != Out && !c.Nudging?
  }

  /** At most one caller is through the gate, and it is the one the connection knows. */
  ghost predicate OneReader(s: State) {
    forall r :: s.rip == Somebody(r) <==> r in s.calls && Through(s.calls[r].pc)
  }

  /** The queue holds, once, each call that is not answered. */
  ghost predicate QueueRight(s: State) {
    Distinct(s.queue) && forall r :: r in s.queue <==> r in s.calls && Calling(s.calls[r].pc) && !s.calls[r].done
  }

  /** Every call has a buffer of its own. */
  ghost predicate OwnBuffers(s: State) {
    forall r, q :: r in s.calls && q in s.calls && r != q ==> s.calls[r].buf != s.calls[q].buf
  }

  /** A reply is in the call's own buffer, whole. */
  predicate InPlace(s: State, c: Call) {
    c.reply.at == c.buf && c.buf in s.mem && s.mem[c.buf] == c.reply.text
  }

  predicate Mine(c: Call) {
    c.reply.tag == c.tag || c.reply.tag in c.sent
  }

  /** What is done has its reply, and a reply to hand out is there. */
  ghost predicate RepliesRight(s: State) {
    forall r :: r in s.calls ==>
      var c := s.calls[r];
      (c.flushed ==> c.flushtag in c.sent)
      && (Calling(c.pc) && c.done ==> InPlace(s, c) && Mine(c))
      && (c.pc == Muxing ==> !c.done && InPlace(s, c))
      && (c.pc == Leaving ==> c.done)
  }

  /** Who is answered sleeps only until the reader, about to, wakes it. */
  ghost predicate DoneAreWoken(s: State) {
    forall r :: r in s.calls && s.calls[r].done && s.calls[r].pc == Asleep ==> s.rip != Nobody && s.rip.r in s.calls && s.calls[s.rip.r].pc == Waking(r)
  }

  /** Who is to be woken is another caller. */
  ghost predicate OthersWoken(s: State) {
    forall r :: r in s.calls ==>
      var c := s.calls[r].pc;
      (c.Waking? ==> c.whom in s.calls && c.whom != r) && (c.Nudging? ==> c.next in s.calls && c.next != r)
  }

  /** r is not answered and on its way to the gate, or is about to wake one that is not answered and sleeps. */
  predicate OnTheWay(s: State, r: Rpc) {
    r in s.calls &&
    var c := s.calls[r];
    (!c.done && (c.pc == Gate || c.pc == Check || c.pc == Awake))
    || (c.pc.Nudging? && c.pc.next in s.calls && s.calls[c.pc.next].pc == Asleep && !s.calls[c.pc.next].done)
  }

  /** While the gate is open and someone not answered sleeps, someone is on the way to it. */
  ghost predicate GateServed(s: State) {
    s.rip == Nobody ==> forall r :: r in s.calls && s.calls[r].pc == Asleep && !s.calls[r].done ==> exists w :: OnTheWay(s, w)
  }

  ghost predicate Inv(s: State) {
    OneReader(s) && QueueRight(s) && OwnBuffers(s) && RepliesRight(s) && DoneAreWoken(s) && OthersWoken(s) && GateServed(s)
  }

  // ----- the queue

  lemma {:induction false} FindIs(calls: map<Rpc, Call>, q: seq<Rpc>, t: Tag)
    ensures match Find(calls, q, t)
            case Nobody => forall r :: r in q && r in calls ==> !Answers(calls[r], t)
            case Somebody(r) => r in q && r in calls && Answers(calls[r], t)
  {
    if q == [] {
    } else {
      FindIs(calls, q[1..], t);
    }
  }

  lemma {:induction false} SleeperIs(calls: map<Rpc, Call>, q: seq<Rpc>)
    ensures match Sleeper(calls, q)
            case Nobody => forall r :: r in q && r in calls && calls[r].pc == Asleep ==> calls[r].done
            case Somebody(r) => r in q && r in calls && calls[r].pc == Asleep && !calls[r].done
  {
    if q == [] {
    } else {
      SleeperIs(calls, q[1..]);
    }
  }

  lemma {:induction false} WithoutIs(q: seq<Rpc>, r: Rpc)
    requires Distinct(q)
    ensures Distinct(Without(q, r)) && forall p :: p in Without(q, r) <==> p in q && p != r
  {
    if q == [] {
    } else {
      assert forall i, j :: 0 <= i < j < |q[1..]| ==> q[1..][i] == q[i + 1] && q[1..][j] == q[j + 1];
      WithoutIs(q[1..], r);
      assert forall i :: 0 <= i < |q[1..]| ==> q[1..][i] == q[i + 1];
      assert q[0] !in q[1..];
      assert forall p :: p in q <==> p == q[0] || p in q[1..];
    }
  }

  // ----- every step keeps the invariant

  lemma OneReaderDeliver(s: State, e: Step)
    requires OneReader(s) && Enabled(s, e) && e.Deliver?
    ensures OneReader(Apply(s, e))
  {
  }

  lemma OneReaderWoken(s: State, e: Step)
    requires OneReader(s) && Enabled(s, e) && (e.Tell? || e.Nudge?)
    ensures OneReader(Apply(s, e))
  {
  }

  lemma OneReaderOther(s: State, e: Step)
    requires OneReader(s) && Enabled(s, e) && !e.Deliver? && !e.Tell? && !e.Nudge?
    ensures OneReader(Apply(s, e))
  {
  }

  lemma QueueRightDeliver(s: State, e: Step)
    requires QueueRight(s) && RepliesRight(s) && Enabled(s, e) && e.Deliver?
    ensures QueueRight(Apply(s, e))
  {
    hide InPlace, Mine;
    FindIs(s.calls, s.queue, s.calls[e.r].reply.tag);
    match Find(s.calls, s.queue, s.calls[e.r].reply.tag)
    case Nobody =>
    case Somebody(q) => WithoutIs(s.queue, q);
  }

  lemma QueueRightWoken(s: State, e: Step)
    requires QueueRight(s) && RepliesRight(s) && Enabled(s, e) && (e.Tell? || e.Nudge?)
    ensures QueueRight(Apply(s, e))
  {
    hide InPlace, Mine;
  }

  lemma QueueRightOther(s: State, e: Step)
    requires QueueRight(s) && RepliesRight(s) && Enabled(s, e) && !e.Deliver? && !e.Tell? && !e.Nudge?
    ensures QueueRight(Apply(s, e))
  {
    hide InPlace, Mine;
  }

  lemma OwnBuffersDeliver(s: State, e: Step)
    requires OwnBuffers(s) && Enabled(s, e) && e.Deliver?
    ensures OwnBuffers(Apply(s, e))
  {
  }

  lemma OwnBuffersWoken(s: State, e: Step)
    requires OwnBuffers(s) && Enabled(s, e) && (e.Tell? || e.Nudge?)
    ensures OwnBuffers(Apply(s, e))
  {
  }

  lemma OwnBuffersOther(s: State, e: Step)
    requires OwnBuffers(s) && Enabled(s, e) && !e.Deliver? && !e.Tell? && !e.Nudge?
    ensures OwnBuffers(Apply(s, e))
  {
  }

  lemma RepliesRightDeliver(s: State, e: Step)
    requires OneReader(s) && QueueRight(s) && OwnBuffers(s) && RepliesRight(s) && Enabled(s, e) && e.Deliver?
    ensures RepliesRight(Apply(s, e))
  {
    FindIs(s.calls, s.queue, s.calls[e.r].reply.tag);
  }

  lemma RepliesRightWoken(s: State, e: Step)
    requires OneReader(s) && QueueRight(s) && OwnBuffers(s) && RepliesRight(s) && Enabled(s, e) && (e.Tell? || e.Nudge?)
    ensures RepliesRight(Apply(s, e))
  {
  }

  lemma RepliesRightOther(s: State, e: Step)
    requires OneReader(s) && QueueRight(s) && OwnBuffers(s) && RepliesRight(s) && Enabled(s, e) && !e.Deliver? && !e.Tell? && !e.Nudge?
    ensures RepliesRight(Apply(s, e))
  {
  }

  lemma DoneAreWokenDeliver(s: State, e: Step)
    requires OneReader(s) && RepliesRight(s) && DoneAreWoken(s) && Enabled(s, e) && e.Deliver?
    ensures DoneAreWoken(Apply(s, e))
  {
    hide InPlace, Mine, Answers;
    FindIs(s.calls, s.queue, s.calls[e.r].reply.tag);
  }

  lemma DoneAreWokenWoken(s: State, e: Step)
    requires OneReader(s) && RepliesRight(s) && DoneAreWoken(s) && Enabled(s, e) && (e.Tell? || e.Nudge?)
    ensures DoneAreWoken(Apply(s, e))
  {
    hide InPlace, Mine, Answers;
  }

  lemma DoneAreWokenOther(s: State, e: Step)
    requires OneReader(s) && RepliesRight(s) && DoneAreWoken(s) && Enabled(s, e) && !e.Deliver? && !e.Tell? && !e.Nudge?
    ensures DoneAreWoken(Apply(s, e))
  {
    hide InPlace, Mine, Answers;
  }

  lemma OthersWokenDeliver(s: State, e: Step)
    requires RepliesRight(s) && OthersWoken(s) && Enabled(s, e) && e.Deliver?
    ensures OthersWoken(Apply(s, e))
  {
    hide InPlace, Mine, Answers;
    FindIs(s.calls, s.queue, s.calls[e.r].reply.tag);
  }

  lemma OthersWokenWoken(s: State, e: Step)
    requires RepliesRight(s) && OthersWoken(s) && Enabled(s, e) && (e.Tell? || e.Nudge?)
    ensures OthersWoken(Apply(s, e))
  {
    hide InPlace, Mine, Answers;
  }

  lemma OthersWokenOther(s: State, e: Step)
    requires RepliesRight(s) && OthersWoken(s) && Enabled(s, e) && !e.Deliver? && !e.Tell? && !e.Nudge?
    ensures OthersWoken(Apply(s, e))
  {
    hide InPlace, Mine, Answers;
    SleeperIs(s.calls, s.queue);
  }

  lemma GateServedDeliver(s: State, e: Step)
    requires OneReader(s) && QueueRight(s) && RepliesRight(s) && DoneAreWoken(s) && GateServed(s) && Enabled(s, e) && e.Deliver?
    ensures GateServed(Apply(s, e))
  {
    hide InPlace, Mine, Answers;
  }

  lemma GateServedWoken(s: State, e: Step)
    requires OneReader(s) && QueueRight(s) && RepliesRight(s) && DoneAreWoken(s) && GateServed(s) && Enabled(s, e) && (e.Tell? || e.Nudge?)
    ensures GateServed(Apply(s, e))
  {
    hide InPlace, Mine, Answers;
    var t := Apply(s, e);
    if t.rip == Nobody {
      forall r | r in t.calls && t.calls[r].pc == Asleep && !t.calls[r].done ensures exists w :: OnTheWay(t, w) {
        var w :| OnTheWay(s, w);
        assert OnTheWay(t, w) || (s.calls[w].pc.Nudging? && OnTheWay(t, s.calls[w].pc.next));
      }
    }
  }

  lemma GateServedOther(s: State, e: Step)
    requires OneReader(s) && QueueRight(s) && RepliesRight(s) && DoneAreWoken(s) && GateServed(s) && Enabled(s, e) && !e.Deliver? && !e.Tell? && !e.Nudge?
    ensures GateServed(Apply(s, e))
  {
    hide InPlace, Mine, Answers;
    if e.Open? { SleeperIs(s.calls, s.queue); }
    var t := Apply(s, e);
    if t.rip == Nobody {
      forall r | r in t.calls && t.calls[r].pc == Asleep && !t.calls[r].done ensures exists w :: OnTheWay(t, w) {
        StillServed(s, e, r);
      }
    }
  }

  lemma StillServed(s: State, e: Step, r: Rpc)
    requires OneReader(s) && QueueRight(s) && RepliesRight(s) && GateServed(s) && Enabled(s, e) && !e.Deliver? && !e.Tell? && !e.Nudge?
    requires Apply(s, e).rip == Nobody && r in s.calls && Apply(s, e).calls[r].pc == Asleep && !Apply(s, e).calls[r].done
    ensures exists w :: OnTheWay(Apply(s, e), w)
  {
    hide InPlace, Mine, Answers;
    var t := Apply(s, e);
    if e.Open? {
      SleeperIs(s.calls, s.queue);
      assert OnTheWay(t, e.r);
    } else {
      var w :| OnTheWay(s, w);
      assert OnTheWay(t, w) || OnTheWay(t, e.r);
    }
  }

  lemma StepKeeps(s: State, e: Step)
    requires Inv(s) && Enabled(s, e)
    ensures Inv(Apply(s, e))
  {
    hide Apply, OneReader, QueueRight, OwnBuffers, RepliesRight, DoneAreWoken, OthersWoken, GateServed;
    if e.Deliver? {
      OneReaderDeliver(s, e); QueueRightDeliver(s, e); OwnBuffersDeliver(s, e); RepliesRightDeliver(s, e);
      DoneAreWokenDeliver(s, e); OthersWokenDeliver(s, e); GateServedDeliver(s, e);
    } else if e.Tell? || e.Nudge? {
      OneReaderWoken(s, e); QueueRightWoken(s, e); OwnBuffersWoken(s, e); RepliesRightWoken(s, e);
      DoneAreWokenWoken(s, e); OthersWokenWoken(s, e); GateServedWoken(s, e);
    } else {
      OneReaderOther(s, e); QueueRightOther(s, e); OwnBuffersOther(s, e); RepliesRightOther(s, e);
      DoneAreWokenOther(s, e); OthersWokenOther(s, e); GateServedOther(s, e);
    }
  }

  // ----- whole runs

  /** Nobody has called yet. */
  ghost predicate Fresh(s: State) {
    s.queue == [] && s.rip == Nobody && OwnBuffers(s) && forall r :: r in s.calls ==> s.calls[r].pc == Out && !s.calls[r].flushed
  }

  ghost predicate IsRun(run: seq<State>, steps: seq<Step>) {
    |run| == |steps| + 1 && Fresh(run[0])
    && forall i :: 0 <= i < |steps| ==> Enabled(run[i], steps[i]) && run[i + 1] == Apply(run[i], steps[i])
  }

  /** In every run, whatever the order of the steps and of the replies, the invariant holds after each step. */
  lemma {:induction false} RunsKeep(run: seq<State>, steps: seq<Step>, k: nat)
    requires IsRun(run, steps) && k <= |steps|
    ensures Inv(run[k])
  {
    if k == 0 {
    } else {
      hide Inv, Apply;
      RunsKeep(run, steps, k - 1);
      StepKeeps(run[k - 1], steps[k - 1]);
    }
  }

  /** Two callers are never both through the gate. */
  lemma OneAtATime(run: seq<State>, steps: seq<Step>, k: nat, a: Rpc, b: Rpc)
    requires IsRun(run, steps) && k <= |steps| && a in run[k].calls && b in run[k].calls
    requires Through(run[k].calls[a].pc) && Through(run[k].calls[b].pc)
    ensures a == b
  {
    RunsKeep(run, steps, k);
    assert run[k].rip == Somebody(a) && run[k].rip == Somebody(b);
  }

  /** A caller that is answered has a reply with its tag, or the tag of a flush of its, whole and in its own buffer. */
  lemma AnsweredRight(run: seq<State>, steps: seq<Step>, k: nat, r: Rpc)
    requires IsRun(run, steps) && k <= |steps| && r in run[k].calls && run[k].calls[r].done && Calling(run[k].calls[r].pc)
    ensures InPlace(run[k], run[k].calls[r]) && Mine(run[k].calls[r])
    ensures forall q :: q in run[k].calls && q != r ==> run[k].calls[q].buf != run[k].calls[r].buf
    ensures run[k].calls[r].pc == Asleep ==> run[k].rip != Nobody && Enabled(run[k], Tell(run[k].rip.r)) && Apply(run[k], Tell(run[k].rip.r)).calls[r].pc == Awake
  {
    RunsKeep(run, steps, k);
  }

  /**
   What handing out a reply does to the i-th call in the queue: it is completed just when the tag
   of its request, or of its last flush if it sent one, is the tag of the reply, and no call before
   it in the queue has that tag in either place. Then it has just that reply and leaves the queue.
   No other call but the reader's changes.
   */
  lemma DeliveredRight(run: seq<State>, steps: seq<Step>, k: nat, r: Rpc, i: nat)
    requires IsRun(run, steps) && k <= |steps| && Enabled(run[k], Deliver(r)) && i < |run[k].queue|
    ensures run[k].queue[i] in run[k].calls
    ensures var s, t := run[k], Apply(run[k], Deliver(r));
            var c, q := s.calls[r], s.queue[i];
            var d := s.calls[q];
            !d.done
            && (t.calls[q].done <==>
                  (d.tag == c.reply.tag || (d.flushed && d.flushtag == c.reply.tag))
                  && forall p :: p in s.queue[..i] ==>
                       p in s.calls && s.calls[p].tag != c.reply.tag && (s.calls[p].flushed ==> s.calls[p].flushtag != c.reply.tag))
            && (t.calls[q].done ==> t.calls[q].reply == c.reply && InPlace(t, t.calls[q]) && q !in t.queue)
            && (!t.calls[q].done ==> q in t.queue && (q != r ==> t.calls[q] == d))
            && forall p :: p in s.calls && p !in s.queue && p != r ==> t.calls[p] == s.calls[p]
  {
    hide OneReader, DoneAreWoken, OthersWoken, GateServed;
    RunsKeep(run, steps, k);
    var s := run[k];
    var c := s.calls[r];
    QueuedCalls(s);
    assert s.queue[i] in s.queue;
    FindIs(s.calls, s.queue, c.reply.tag);
    FindFirst(s.calls, s.queue, c.reply.tag, i);
    match Find(s.calls, s.queue, c.reply.tag)
    case Nobody =>
    case Somebody(p) => WithoutIs(s.queue, p);
  }

  lemma {:induction false} FindFirst(calls: map<Rpc, Call>, q: seq<Rpc>, t: Tag, i: nat)
    requires Distinct(q) && i < |q| && forall p :: p in q ==> p in calls
    ensures Find(calls, q, t) == Somebody(q[i]) <==> Answers(calls[q[i]], t) && forall p :: p in q[..i] ==> !Answers(calls[p], t)
  {
    hide Answers;
    FindIs(calls, q, t);
    if i == 0 {
    } else {
      assert forall j :: 0 <= j < |q[1..]| ==> q[1..][j] == q[j + 1];
      FindFirst(calls, q[1..], t, i - 1);
      assert q[..i] == [q[0]] + q[1..][..i - 1];
    }
  }

  /** q has stayed in the queue and sent no further flush since its flush in step j. */
  ghost predicate Outstanding(run: seq<State>, steps: seq<Step>, j: nat, k: nat, q: Rpc, tag: Tag)
    requires IsRun(run, steps) && j < k <= |steps|
  {
    steps[j] == Flush(q, tag) && forall i :: j < i <= k ==> q in run[i].queue && (i < k ==> !(steps[i].Flush? && steps[i].r == q))
  }

  lemma FlushTagStays(s: State, e: Step, q: Rpc)
    requires Inv(s) && Enabled(s, e) && q in s.queue && !(e.Flush? && e.r == q)
    ensures q in s.calls && q in Apply(s, e).calls
    ensures Apply(s, e).calls[q].flushed == s.calls[q].flushed && Apply(s, e).calls[q].flushtag == s.calls[q].flushtag
  {
    hide OneReader, OwnBuffers, RepliesRight, DoneAreWoken, OthersWoken, GateServed;
  }

  lemma {:induction false} LastFlush(run: seq<State>, steps: seq<Step>, j: nat, k: nat, q: Rpc, tag: Tag)
    requires IsRun(run, steps) && j < k <= |steps| && Outstanding(run, steps, j, k, q, tag)
    ensures q in run[k].calls && run[k].calls[q].flushed && run[k].calls[q].flushtag == tag
  {
    if k == j + 1 {
      assert run[j + 1] == Apply(run[j], steps[j]);
    } else {
      hide Inv, Apply;
      LastFlush(run, steps, j, k - 1, q, tag);
      RunsKeep(run, steps, k - 1);
      assert q in run[k - 1].queue;
      FlushTagStays(run[k - 1], steps[k - 1], q);
    }
  }

  /**
   A call that was flushed and is still queued is completed by the reply to its last flush, in
   whatever order steps and replies have come since, unless a newer call goes by the same tag.
   */
  lemma FlushIsAnswered(run: seq<State>, steps: seq<Step>, j: nat, k: nat, r: Rpc, i: nat)
    requires IsRun(run, steps) && j < k <= |steps| && Enabled(run[k], Deliver(r)) && i < |run[k].queue|
    requires Outstanding(run, steps, j, k, run[k].queue[i], run[k].calls[r].reply.tag)
    requires forall p :: p in run[k].queue[..i] && p in run[k].calls ==>
               run[k].calls[p].tag != run[k].calls[r].reply.tag && (run[k].calls[p].flushed ==> run[k].calls[p].flushtag != run[k].calls[r].reply.tag)
    ensures var t, q := Apply(run[k], Deliver(r)), run[k].queue[i];
            q in t.calls && t.calls[q].done && t.calls[q].reply == run[k].calls[r].reply && InPlace(t, t.calls[q]) && q !in t.queue
  {
    hide Apply, Inv;
    var s := run[k];
    LastFlush(run, steps, j, k, s.queue[i], s.calls[r].reply.tag);
    RunsKeep(run, steps, k);
    QueuedCalls(s);
    forall p | p in s.queue[..i] ensures p in s.calls { assert p in s.queue; }
    DeliveredRight(run, steps, k, r, i);
    StillThere(s, Deliver(r), s.queue[i]);
  }

  lemma StillThere(s: State, e: Step, q: Rpc)
    requires Enabled(s, e) && q in s.calls
    ensures q in Apply(s, e).calls
  {
  }

  ghost predicate AllEnabled(s: State, es: seq<Step>)
    decreases |es|
  {
    es == [] || (Enabled(s, es[0]) && AllEnabled(Apply(s, es[0]), es[1..]))
  }

  ghost function ApplyAll(s: State, es: seq<Step>): State
    requires AllEnabled(s, es)
    decreases |es|
  {
    if es == [] then s else ApplyAll(Apply(s, es[0]), es[1..])
  }

  /** A caller under way to the gate goes on, or one wakes the next: no new call, no interrupt, and none of a sleeper. */
  predicate GoesOn(e: Step) {
    e.Enter? || e.Look? || e.Wake? || e.Nudge?
  }

  /** At most three such steps, and the gate is taken. */
  ghost predicate TakesGate(s: State, es: seq<Step>) {
    |es| <= 3 && (forall e :: e in es ==> GoesOn(e)) && AllEnabled(s, es) && ApplyAll(s, es).rip != Nobody
  }

  /**
   The gate never stays open while someone not answered sleeps: callers that are awake, and
   calling already, have it taken within three steps of theirs, without a new call or an interrupt.
   */
  lemma GateIsTaken(run: seq<State>, steps: seq<Step>, k: nat, r: Rpc)
    requires IsRun(run, steps) && k <= |steps| && run[k].rip == Nobody
    requires r in run[k].calls && run[k].calls[r].pc == Asleep && !run[k].calls[r].done
    ensures exists es: seq<Step> :: TakesGate(run[k], es)
  {
    RunsKeep(run, steps, k);
    var s := run[k];
    var w :| OnTheWay(s, w);
    Through3(s, w);
  }

  lemma Through3(s: State, w: Rpc)
    requires s.rip == Nobody && OnTheWay(s, w) && (s.calls[w].pc.Nudging? ==> s.calls[w].pc.next != w)
    ensures exists es: seq<Step> :: TakesGate(s, es)
  {
    hide OneReader, QueueRight;
    var c := s.calls[w];
    if c.pc == Gate {
      Then1(s, Enter(w));
    } else if c.pc == Awake {
      Then2(s, Wake(w), Enter(w));
    } else if c.pc == Check {
      Then3(s, Look(w), Wake(w), Enter(w));
    } else {
      Then3(s, Nudge(w), Wake(c.pc.next), Enter(c.pc.next));
    }
  }

  lemma Then1(s: State, a: Step)
    requires GoesOn(a) && Enabled(s, a) && Apply(s, a).rip != Nobody
    ensures TakesGate(s, [a])
  {
    hide Apply;
    assert [a][1..] == [];
    assert AllEnabled(s, [a]) && ApplyAll(s, [a]) == Apply(s, a);
  }

  lemma Then2(s: State, a: Step, b: Step)
    requires GoesOn(a) && GoesOn(b) && Enabled(s, a) && Enabled(Apply(s, a), b) && Apply(Apply(s, a), b).rip != Nobody
    ensures TakesGate(s, [a, b])
  {
    hide Apply;
    Then1(Apply(s, a), b);
    assert [a, b][1..] == [b];
  }

  lemma Then3(s: State, a: Step, b: Step, c: Step)
    requires GoesOn(a) && GoesOn(b) && GoesOn(c)
    requires Enabled(s, a) && Enabled(Apply(s, a), b) && Enabled(Apply(Apply(s, a), b), c) && Apply(Apply(Apply(s, a), b), c).rip != Nobody
    ensures TakesGate(s, [a, b, c])
  {
    hide Apply;
    Then2(Apply(s, a), b, c);
    assert [a, b, c][1..] == [b, c];
  }

  lemma QueuedCalls(s: State)
    requires Inv(s)
    ensures Distinct(s.queue) && forall i :: 0 <= i < |s.queue| ==> s.queue[i] in s.calls
  {
    forall i | 0 <= i < |s.queue| ensures s.queue[i] in s.calls { assert s.queue[i] in s.queue; }
  }

  lemma FindNext(calls: map<Rpc, Call>, q: seq<Rpc>, t: Tag, l: nat)
    requires l < |q| && q[l] in calls && !Answers(calls[q[l]], t)
    ensures Find(calls, q[l..], t) == Find(calls, q[l + 1..], t)
  {
    assert q[l..][1..] == q[l + 1..];
  }

  lemma FindAt(calls: map<Rpc, Call>, q: seq<Rpc>, t: Tag, l: nat)
    requires l <= |q| && (l < |q| ==> q[l] in calls && Answers(calls[q[l]], t))
    ensures Find(calls, q[l..], t) == if l < |q| then Somebody(q[l]) else Nobody
  {
  }

  lemma {:induction false} WithoutAt(q: seq<Rpc>, l: nat)
    requires Distinct(q) && l < |q|
    ensures Without(q, q[l]) == q[..l] + q[l + 1..]
  {
    if l > 0 {
      assert forall i :: 0 <= i < |q[1..]| ==> q[1..][i] == q[i + 1];
      WithoutAt(q[1..], l - 1);
      assert q[..l] + q[l + 1..] == [q[0]] + (q[1..][..l - 1] + q[1..][l..]);
    }
  }

  lemma Delivered(s: State, r: Rpc, m: Maybe)
    requires Enabled(s, Deliver(r)) && m == Find(s.calls, s.queue, s.calls[r].reply.tag) && (m != Nobody ==> m.r in s.calls)
    ensures var c := s.calls[r];
            Apply(s, Deliver(r)) ==
              match m
              case Nobody => s.(calls := s.calls[r := c.(pc := Reader)])
              case Somebody(q) =>
                if q == r then s.(queue := Without(s.queue, q), calls := s.calls[r := c.(pc := Reader, done := true)])
                else s.(queue := Without(s.queue, q),
                        calls := s.calls[r := c.(pc := Waking(q), buf := s.calls[q].buf)][q := s.calls[q].(done := true, buf := c.buf, reply := c.reply)])
  {
  }

  /** The connection as it is kept, and the calls on it. */
  class Mnt {
    var queue: seq<Rpc>
    var rip: Maybe
    var calls: map<Rpc, Call>
    var mem: map<Buf, Text>

    function View(): State
      reads this
    {
      State(queue, rip, calls, mem)
    }

    /** Puts a new call in the queue, in front, and its request in its buffer. */
    method Begin(r: Rpc, text: Text)
      requires Inv(View()) && Enabled(View(), Start(r, text))
      modifies this
      ensures View() == Apply(old(View()), Start(r, text)) && Inv(View())
    {
      hide Inv;
      StepKeeps(View(), Start(r, text));
      mem := mem[calls[r].buf := text];
      calls := calls[r := calls[r].(pc := Gate, done := false, flushed := false, sent := {})];
      queue := [r] + queue;
    }

    /** Tries the gate. */
    method TakeGate(r: Rpc) returns (taken: bool)
      requires Inv(View()) && Enabled(View(), Enter(r))
      modifies this
      ensures View() == Apply(old(View()), Enter(r)) && Inv(View())
      ensures taken <==> rip == Somebody(r)
    {
      StepKeeps(View(), Enter(r));
      taken := rip == Nobody;
      if taken {
        rip := Somebody(r);
        calls := calls[r := calls[r].(pc := Reader)];
      } else {
        calls := calls[r := calls[r].(pc := Check)];
      }
    }

    /** Hands out the reply r has read: to the first in the queue it answers, with the buffer it is in. */
    method MountMux(r: Rpc)
      requires Inv(View()) && Enabled(View(), Deliver(r))
      modifies this
      ensures View() == Apply(old(View()), Deliver(r)) && Inv(View())
    {
      hide Inv, Apply, Find;
      StepKeeps(View(), Deliver(r));
      QueuedCalls(View());
      ghost var s := View();
      var c := calls[r];
      var l := 0;
      while l < |queue| && !Answers(calls[queue[l]], c.reply.tag)
        invariant View() == s && l <= |queue| && Find(calls, queue, c.reply.tag) == Find(calls, queue[l..], c.reply.tag)
      {
        FindNext(calls, queue, c.reply.tag, l);
        l := l + 1;
      }
      FindAt(calls, queue, c.reply.tag, l);
      if l == |queue| {
        calls := calls[r := c.(pc := Reader)];
      } else {
        var q := queue[l];
        WithoutAt(queue, l);
        queue := queue[..l] + queue[l + 1..];
        if q == r {
          calls := calls[r := c.(pc := Reader, done := true)];
        } else {
          var d := calls[q];
          calls := calls[r := c.(pc := Waking(q), buf := d.buf)][q := d.(done := true, buf := c.buf, reply := c.reply)];
        }
      }
      Delivered(s, r, Find(s.calls, s.queue, c.reply.tag));
    }

    /** Opens the gate; the first in the queue that sleeps is who is to be woken. */
    method MntGate(r: Rpc) returns (next: Maybe)
      requires Inv(View()) && Enabled(View(), Open(r))
      modifies this
      ensures View() == Apply(old(View()), Open(r)) && Inv(View())
      ensures if next == Nobody then calls[r].pc == Out else calls[r].pc == Nudging(next.r)
    {
      hide Inv;
      StepKeeps(View(), Open(r));
      QueuedCalls(View());
      var l := 0;
      while l < |queue| && !(calls[queue[l]].pc == Asleep && !calls[queue[l]].done)
        invariant View() == old(View()) && l <= |queue| && Sleeper(calls, queue) == Sleeper(calls, queue[l..])
      {
        assert queue[l..][1..] == queue[l + 1..];
        l := l + 1;
      }
      next := if l == |queue| then Nobody else Somebody(queue[l]);
      rip := Nobody;
      calls := calls[r := calls[r].(pc := match next case Nobody => Out case Somebody(q) => Nudging(q))];
    }
  }
}
