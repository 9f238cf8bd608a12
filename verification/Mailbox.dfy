/** The IPCC mailbox between the A7 (master) and the M4 (slave), as interleaved steps.  On
    channel 1 the A7 announces free buffers, on channel 2 new messages; to the M4 the two
    work alike.  `rproc_virtio_notified` drains the virtqueue behind the channel. */
module Mailbox {
  import opened Options

  datatype Id = One | Two

  /** One receive channel: the virtqueue, what the M4 has taken from it, whether the A7 has
      put something there and not yet said so, the IPCC flag, and `msg_received_chN`. */
  datatype Channel = Channel(ring: seq<nat>, delivered: seq<nat>, toNotify: bool, occupied: bool, flag: bool)

  /** Where the M4 thread is: about to test a flag, or inside one of the two branches. */
  datatype Pc = AtTest(c: Id) | AtDrain(c: Id) | AtClear(c: Id)

  /** `isr` is the channel whose callback has set its flag and not yet acknowledged; the
      thread does not run meanwhile. */
  datatype State = State(one: Channel, two: Channel, isr: Option<Id>, pc: Pc) {
    function Ch(c: Id): Channel {
      if c == One then one else two
    }

    function With(c: Id, ch: Channel): State {
      if c == One then this.(one := ch) else this.(two := ch)
    }
  }

  const Empty := Channel([], [], false, false, false)
  const Init := State(Empty, Empty, None, AtTest(One))

  datatype Kind = Push | Notify | Enter | Ack | Test | Drain | Clear

  /** A7: Push, Notify.  Interrupt handler: Enter, Ack.  `MAILBOX_Poll`: Test, Drain, Clear. */
  datatype Action = Action(kind: Kind, c: Id, msg: nat)

  /** The test after the branch for `c`; after channel 2 the next call of Poll begins. */
  function Onward(c: Id): Pc {
    if c == One then AtTest(Two) else AtTest(One)
  }

  /** One step, if it can be taken. */
  function Step(s: State, a: Action): Option<State> {
    var ch := s.Ch(a.c);
    match a.kind
    case Push => Some(s.With(a.c, ch.(ring := ch.ring + [a.msg], toNotify := true)))
    case Notify =>
      if ch.toNotify && !ch.occupied then Some(s.With(a.c, ch.(toNotify := false, occupied := true))) else None
    case Enter =>
      if ch.occupied && s.isr.None? then Some(s.With(a.c, ch.(flag := true)).(isr := Some(a.c))) else None
    case Ack =>
      if s.isr == Some(a.c) then Some(s.With(a.c, ch.(occupied := false)).(isr := None)) else None
    case Test =>
      if s.isr.None? && s.pc == AtTest(a.c) then Some(s.(pc := if ch.flag then AtDrain(a.c) else Onward(a.c))) else None
    case Drain =>
      if s.isr.None? && s.pc == AtDrain(a.c) then
        Some(s.With(a.c, ch.(ring := [], delivered := ch.delivered + ch.ring)).(pc := AtClear(a.c)))
      else None
    case Clear =>
      if s.isr.None? && s.pc == AtClear(a.c) then Some(s.With(a.c, ch.(flag := false)).(pc := Onward(a.c))) else None
  }

  /** The state after a run, if every step of it could be taken. */
  function Exec(t: seq<Action>): Option<State> {
    if t == [] then Some(Init)
    else
      var before := Exec(t[..|t| - 1]);
      if before.None? then None else Step(before.value, t[|t| - 1])
  }

  /** A run goes on with a step if it can be taken, and ignores it if not. */
  function After(t: seq<Action>, a: Action): seq<Action> {
    if Exec(t).Some? && Step(Exec(t).value, a).Some? then t + [a] else t
  }

  function AfterAll(t: seq<Action>, actions: seq<Action>): seq<Action> {
    if actions == [] then t else After(AfterAll(t, actions[..|actions| - 1]), actions[|actions| - 1])
  }

  // ---------------------------------------------------------------- history

  /** When each kind of step was last taken on a channel; -1 for never. */
  datatype History = History(push: int, notify: int, enter: int, ack: int, drain: int, clear: int)

  /** The history once step number `n` is taken. */
  function Noted(h: History, a: Action, c: Id, n: nat): History {
    if a.c != c then h
    else
      match a.kind
      case Push => h.(push := n)
      case Notify => h.(notify := n)
      case Enter => h.(enter := n)
      case Ack => h.(ack := n)
      case Test => h
      case Drain => h.(drain := n)
      case Clear => h.(clear := n)
  }

  function HistoryOf(t: seq<Action>, c: Id): History {
    if t == [] then History(-1, -1, -1, -1, -1, -1)
    else Noted(HistoryOf(t[..|t| - 1], c), t[|t| - 1], c, |t| - 1)
  }

  function Count(t: seq<Action>, k: Kind, c: Id): (n: nat)
    ensures n <= |t|
  {
    if t == [] then 0
    else Count(t[..|t| - 1], k, c) + if t[|t| - 1].kind == k && t[|t| - 1].c == c then 1 else 0
  }

  function Pushed(t: seq<Action>, c: Id): seq<nat> {
    if t == [] then []
    else
      var a := t[|t| - 1];
      Pushed(t[..|t| - 1], c) + if a.kind == Push && a.c == c then [a.msg] else []
  }

  /** Every part of a channel's state is a matter of which step came last. */
  predicate Explains(h: History, s: State, c: Id, n: int) {
    var ch := s.Ch(c);
    && -1 <= h.push < n && -1 <= h.notify < n && -1 <= h.enter < n
    && -1 <= h.ack < n && -1 <= h.drain < n && -1 <= h.clear < n
    && (h.push == h.notify ==> h.push == -1) && (h.notify == h.ack ==> h.ack == -1)
    && (h.enter == h.clear ==> h.clear == -1)
    && (ch.ring != [] <==> h.drain < h.push)
    && (ch.toNotify <==> h.notify < h.push)
    && (ch.occupied <==> h.ack < h.notify)
    && (ch.flag <==> h.clear < h.enter)
    && (s.isr == Some(c) <==> h.ack < h.enter)
    && (s.isr == Some(c) ==> ch.occupied && ch.flag && h.notify < h.enter)
    && (h.notify < h.ack ==> h.notify < h.enter)
    && (s.pc == AtDrain(c) || s.pc == AtClear(c) ==> ch.flag)
  }

  lemma ExplainsStep(h: History, s: State, a: Action, c: Id, n: nat)
    requires Explains(h, s, c, n) && Step(s, a).Some?
    ensures Explains(Noted(h, a, c, n), Step(s, a).value, c, n + 1)
  {
  }

  lemma {:induction false} HistoryExplainsState(t: seq<Action>, c: Id)
    requires Exec(t).Some?
    ensures Explains(HistoryOf(t, c), Exec(t).value, c, |t|)
    decreases |t|
  {
    if t != [] {
      HistoryExplainsState(t[..|t| - 1], c);
      ExplainsStep(HistoryOf(t[..|t| - 1], c), Exec(t[..|t| - 1]).value, t[|t| - 1], c, |t| - 1);
    }
  }

  // ---------------------------------------------------------------- lost wake-ups

  /** Something was acknowledged but nobody will come for it: the virtqueue is not empty, the
      A7 has nothing left to say, the channel is free, and no poll will find the flag set. */
  predicate Stranded(s: State, c: Id) {
    s.Ch(c).ring != [] && !s.Ch(c).toNotify && !s.Ch(c).occupied && !s.Ch(c).flag
  }

  /** Exactly which schedules strand a message: after the last drain something was pushed,
      announced and acknowledged, and only then did the poll clear the flag. */
  lemma StrandedIff(t: seq<Action>, c: Id)
    requires Exec(t).Some?
    ensures var h := HistoryOf(t, c);
            Stranded(Exec(t).value, c) <==> h.drain < h.push < h.notify < h.enter < h.clear
  {
    HistoryExplainsState(t, c);
  }

  /** No interrupt of channel `c` is taken between a poll's drain and its clear. */
  predicate WindowQuiet(t: seq<Action>, c: Id) {
    if t == [] then true
    else
      var before, a := Exec(t[..|t| - 1]), t[|t| - 1];
      && WindowQuiet(t[..|t| - 1], c)
      && !(a.kind == Enter && a.c == c && before.Some? && before.value.pc == AtClear(c))
  }

  /** In every run with a quiet window nothing is stranded: a non-empty virtqueue is still to
      be announced, or announced, or flagged; and while a poll is about to clear the flag, the
      flag is not what is relied on. */
  lemma {:induction false} QuietWindowLosesNothing(t: seq<Action>, c: Id)
    requires Exec(t).Some? && WindowQuiet(t, c)
    ensures var s := Exec(t).value; var ch := s.Ch(c);
            && (ch.ring != [] ==> ch.toNotify || ch.occupied || ch.flag)
            && (ch.ring != [] && s.pc == AtClear(c) ==> ch.toNotify || ch.occupied)
            && (s.pc == AtClear(c) ==> s.isr != Some(c))
    ensures !Stranded(Exec(t).value, c)
    decreases |t|
  {
    if t != [] {
      QuietWindowLosesNothing(t[..|t| - 1], c);
      HistoryExplainsState(t[..|t| - 1], c);
    }
  }

  function LostRun(): seq<Action> {
    [Action(Push, Two, 7), Action(Notify, Two, 0), Action(Enter, Two, 0), Action(Ack, Two, 0),
     Action(Test, One, 0), Action(Test, Two, 0), Action(Drain, Two, 0),
     Action(Push, Two, 8), Action(Notify, Two, 0), Action(Enter, Two, 0), Action(Ack, Two, 0),
     Action(Clear, Two, 0)]
  }

  /** The states it passes through. */
  function LostStates(): seq<State> {
    var idle, next, drain, clear := AtTest(One), AtTest(Two), AtDrain(Two), AtClear(Two);
    [State(Empty, Empty, None, idle),
     State(Empty, Channel([7], [], true, false, false), None, idle),
     State(Empty, Channel([7], [], false, true, false), None, idle),
     State(Empty, Channel([7], [], false, true, true), Some(Two), idle),
     State(Empty, Channel([7], [], false, false, true), None, idle),
     State(Empty, Channel([7], [], false, false, true), None, next),
     State(Empty, Channel([7], [], false, false, true), None, drain),
     State(Empty, Channel([], [7], false, false, true), None, clear),
     State(Empty, Channel([8], [7], true, false, true), None, clear),
     State(Empty, Channel([8], [7], false, true, true), None, clear),
     State(Empty, Channel([8], [7], false, true, true), Some(Two), clear),
     State(Empty, Channel([8], [7], false, false, true), None, clear),
     State(Empty, Channel([8], [7], false, false, false), None, idle)]
  }

  lemma LostStep(n: nat)
    requires n < 12
    ensures Step(LostStates()[n], LostRun()[n]) == Some(LostStates()[n + 1])
  {
    assert Empty.ring + [7] == [7] && Empty.ring + [8] == [8];
  }

  lemma {:induction false} LostPrefix(n: nat)
    requires n <= 12
    ensures Exec(LostRun()[..n]) == Some(LostStates()[n])
  {
    if n != 0 {
      LostPrefix(n - 1);
      LostStep(n - 1);
      assert LostRun()[..n][..n - 1] == LostRun()[..n - 1];
    }
  }

  /** The claim without the condition is false: this run of channel 2 leaves message 8
      behind. */
  lemma LostWakeUpWitness()
    ensures Exec(LostRun()).Some?
    ensures Stranded(Exec(LostRun()).value, Two) && Exec(LostRun()).value.two.ring == [8]
  {
    LostPrefix(12);
    assert LostRun()[..12] == LostRun();
  }

  lemma ExecAppend(t: seq<Action>, a: Action)
    ensures Exec(t + [a]) == if Exec(t).None? then None else Step(Exec(t).value, a)
  {
    assert (t + [a])[..|t|] == t;
  }

  /** In any run at all, once an interrupt is taken outside the window, whatever the A7 and
      the handlers do next, the flag stays until a poll has drained: the poll's next test of
      that channel succeeds, and the thread's next step on the channel is the drain. */
  lemma {:induction false} InterruptCommitsPoll(t: seq<Action>, u: seq<Action>, c: Id)
    requires Exec(t).Some? && Exec(t).value.pc != AtClear(c) && Exec(t).value.Ch(c).flag
    requires Exec(t + u).Some?
    requires forall a :: a in u ==> !(a.kind == Drain && a.c == c)
    ensures var s := Exec(t + u).value;
            s.Ch(c).flag && s.pc != AtClear(c) && (s.isr.None? && s.pc == AtTest(c) ==>
              Step(s, Action(Test, c, 0)).Some? && Step(s, Action(Test, c, 0)).value.pc == AtDrain(c))
    decreases |u|
  {
    if u == [] {
      assert t + u == t;
    } else {
      var front := u[..|u| - 1];
      assert (t + u)[..|t + u| - 1] == t + front;
      assert u[|u| - 1] in u;
      InterruptCommitsPoll(t, front, c);
    }
  }

  /** So the next drain of the channel, whenever it comes, leaves nothing behind, stranded
      messages included; and they are delivered in the order they were sent. */
  lemma {:induction false} DeliveredInOrder(t: seq<Action>, c: Id)
    requires Exec(t).Some?
    ensures var ch := Exec(t).value.Ch(c); ch.delivered + ch.ring == Pushed(t, c)
    ensures t != [] && t[|t| - 1].kind == Drain && t[|t| - 1].c == c ==> Exec(t).value.Ch(c).delivered == Pushed(t, c)
    decreases |t|
  {
    if t != [] {
      DeliveredInOrder(t[..|t| - 1], c);
    }
  }

  lemma {:induction false} ExecPrefix(t: seq<Action>, u: seq<Action>)
    requires Exec(t + u).Some?
    ensures Exec(t).Some?
    decreases |u|
  {
    if u == [] {
      assert t + u == t;
    } else {
      assert (t + u)[..|t + u| - 1] == t + u[..|u| - 1];
      ExecPrefix(t, u[..|u| - 1]);
    }
  }

  /** A set flag is seen by the next test of the channel; only the drain leads on from there. */
  lemma {:induction false} TestLeadsToDrain(t: seq<Action>, u: seq<Action>, c: Id, k: nat)
    requires Exec(t).Some? && Exec(t).value.pc != AtClear(c) && Exec(t).value.Ch(c).flag
    requires Exec(t + u).Some? && k < |u| && u[k].kind == Test && u[k].c == c
    requires forall a :: a in u ==> !(a.kind == Drain && a.c == c)
    ensures Exec(t + u).value.pc == AtDrain(c)
    decreases |u|
  {
    var front := u[..|u| - 1];
    assert (t + u)[..|t + u| - 1] == t + front;
    assert u[|u| - 1] in u;
    InterruptCommitsPoll(t, front, c);
    if k < |u| - 1 {
      TestLeadsToDrain(t, front, c, k);
    }
  }

  lemma DeliveredGrows(s: State, a: Action, c: Id)
    requires Step(s, a).Some?
    ensures s.Ch(c).delivered <= Step(s, a).value.Ch(c).delivered
  {
  }

  /** What is delivered stays delivered, and after a drain it includes all that was pushed
      before. */
  lemma {:induction false} DrainDelivers(t: seq<Action>, u: seq<Action>, c: Id, j: nat)
    requires Exec(t + u).Some? && j < |u| && u[j].kind == Drain && u[j].c == c
    ensures Exec(t).Some? && Pushed(t, c) <= Exec(t + u).value.Ch(c).delivered
    decreases |u|
  {
    var front := u[..|u| - 1];
    assert (t + u)[..|t + u| - 1] == t + front;
    ExecPrefix(t, u);
    if j < |u| - 1 {
      DrainDelivers(t, front, c, j);
      DeliveredGrows(Exec(t + front).value, u[|u| - 1], c);
    } else {
      DeliveredInOrder(t + u, c);
      PushedGrows(t, u, c);
    }
  }

  lemma {:induction false} PushedGrows(t: seq<Action>, u: seq<Action>, c: Id)
    ensures Pushed(t, c) <= Pushed(t + u, c)
    decreases |u|
  {
    if u == [] {
      assert t + u == t;
    } else {
      PushedGrows(t, u[..|u| - 1], c);
      assert (t + u)[..|t + u| - 1] == t + u[..|u| - 1];
    }
  }

  /** In any run at all, once a channel is flagged outside the window, every later poll that
      has tested the channel and got past its drain has delivered everything sent before. */
  lemma FlaggedIsDelivered(t: seq<Action>, u: seq<Action>, c: Id, k: nat)
    requires Exec(t).Some? && Exec(t).value.pc != AtClear(c) && Exec(t).value.Ch(c).flag
    requires Exec(t + u).Some? && Exec(t + u).value.pc != AtDrain(c)
    requires k < |u| && u[k].kind == Test && u[k].c == c
    ensures Pushed(t, c) <= Exec(t + u).value.Ch(c).delivered
  {
    if forall a :: a in u ==> !(a.kind == Drain && a.c == c) {
      TestLeadsToDrain(t, u, c, k);
    } else {
      var j :| 0 <= j < |u| && u[j].kind == Drain && u[j].c == c;
      DrainDelivers(t, u, c, j);
    }
  }

  /** So a later interrupt followed by a poll rescues whatever was stranded, in any run: it
      only must not itself fall into the window. */
  lemma LaterInterruptRescues(t: seq<Action>, m: nat, u: seq<Action>, c: Id, k: nat)
    requires Exec(t).Some? && Exec(t).value.pc != AtClear(c)
    requires Exec(t + [Action(Enter, c, m)] + u).Some? && Exec(t + [Action(Enter, c, m)] + u).value.pc != AtDrain(c)
    requires k < |u| && u[k].kind == Test && u[k].c == c
    ensures Pushed(t, c) <= Exec(t + [Action(Enter, c, m)] + u).value.Ch(c).delivered
  {
    var entered := t + [Action(Enter, c, m)];
    ExecPrefix(entered, u);
    ExecAppend(t, Action(Enter, c, m));
    FlaggedIsDelivered(entered, u, c, k);
    PushedGrows(t, [Action(Enter, c, m)], c);
  }

  // ---------------------------------------------------------------- handler calls

  /** On each channel the virtqueue handler runs no more often than interrupts are taken: a
      call spends the interrupt that set the flag. */
  lemma {:induction false} HandlerCallsNeedInterrupts(t: seq<Action>, c: Id)
    requires Exec(t).Some?
    ensures var s := Exec(t).value;
            Count(t, Drain, c) + (if s.Ch(c).flag && s.pc != AtClear(c) then 1 else 0) <= Count(t, Enter, c)
    decreases |t|
  {
    if t != [] {
      HandlerCallsNeedInterrupts(t[..|t| - 1], c);
      HistoryExplainsState(t[..|t| - 1], c);
    }
  }

  /** And every call has an interrupt since the flag was last cleared. */
  lemma HandlerCallHasFreshInterrupt(t: seq<Action>, c: Id, m: nat)
    requires Exec(t + [Action(Drain, c, m)]).Some?
    ensures HistoryOf(t, c).clear < HistoryOf(t, c).enter
  {
    ExecAppend(t, Action(Drain, c, m));
    HistoryExplainsState(t, c);
  }
}
