/** `MAILBOX_Poll`, its callbacks and `MAILBOX_Notify` as they run.  Poll and the callbacks,
    with the A7 and the interrupt handler let in between any two statements, go through runs
    of the step system of `Mailbox`; Notify, with the A7 and other notifiers let in, goes
    through runs of the transmit steps declared here. */
module MailboxPoll {
  import opened Mailbox
  import opened Options

  const MBOX_NO_MSG := 0
  const MBOX_NEW_MSG := 1
  const MBOX_BUF_FREE := 2

  /** What lies outside mbox_ipcc.c, for one receive channel. */
  datatype Wire = Wire(ring: seq<nat>, delivered: seq<nat>, toNotify: bool, occupied: bool)

  /** A step of the A7 or of the interrupt handler; only a push carries a message. */
  predicate OfOthers(a: Action) {
    a.kind == Push || ((a.kind == Kind.Notify || a.kind == Enter || a.kind == Ack) && a.msg == 0)
  }

  /** Every step is the thread's, or the others' up to the message only a push carries. */
  lemma EveryStepIsSomeones(a: Action)
    ensures a.kind == Test || a.kind == Drain || a.kind == Clear <==> !OfOthers(a.(msg := 0))
    ensures a.kind == Push ==> OfOthers(a)
  {
  }

  predicate AllOfOthers(actions: seq<Action>) {
    forall a :: a in actions ==> OfOthers(a)
  }

  /** How often `rproc_virtio_notified` has been called. */
  function HandlerCalls(t: seq<Action>): nat {
    Count(t, Drain, One) + Count(t, Drain, Two)
  }

  /** What the A7 and the handler may do to a channel: fill its queue, set its flag. */
  predicate OnlyOthers(s: State, s': State) {
    s'.pc == s.pc && forall c :: Undrained(s.Ch(c), s'.Ch(c))
  }

  predicate Undrained(ch: Channel, ch': Channel) {
    (ch.flag ==> ch'.flag) && ch'.delivered == ch.delivered && ch.ring <= ch'.ring
  }

  /** The handler returns before the thread resumes. */
  function Settled(t: seq<Action>): seq<Action> {
    if Exec(t).Some? && Exec(t).value.isr.Some? then t + [Action(Ack, Exec(t).value.isr.value, 0)] else t
  }

  /** A run in which the others act until the thread has its next turn. */
  function Resumed(t: seq<Action>, others: seq<Action>): seq<Action> {
    Settled(AfterAll(t, others))
  }

  /** The body of `if (msg_received_chN == ...)`, with the others acting before each statement. */
  function Finished(t: seq<Action>, c: Id, atDrain: seq<Action>, atClear: seq<Action>): seq<Action> {
    Resumed(Resumed(t, atDrain) + [Action(Drain, c, 0)], atClear) + [Action(Clear, c, 0)]
  }

  /** The whole statement. */
  function Visit(t: seq<Action>, c: Id, atTest: seq<Action>, atDrain: seq<Action>, atClear: seq<Action>): seq<Action> {
    var tested := Resumed(t, atTest) + [Action(Test, c, 0)];
    if Exec(tested).None? || Exec(tested).value.pc != AtDrain(c) then tested
    else Finished(tested, c, atDrain, atClear)
  }

  lemma AfterAllNext(t: seq<Action>, actions: seq<Action>, i: nat)
    requires i < |actions|
    ensures AfterAll(t, actions[..i + 1]) == After(AfterAll(t, actions[..i]), actions[i])
  {
    assert actions[..i + 1][..i] == actions[..i];
  }

  predicate Emptied(ch: Channel, ch': Channel) {
    ch.delivered + ch.ring <= ch'.delivered
  }

  /** What was queued at `c` is delivered; the other channel is left to the others. */
  predicate Drained(s: State, s': State, c: Id) {
    Emptied(s.Ch(c), s'.Ch(c)) && forall d :: d != c ==> Undrained(s.Ch(d), s'.Ch(d))
  }

  /** What was queued at `c`, if it was flagged, is delivered; and so on. */
  predicate Visited(s: State, s': State, c: Id) {
    && (s.Ch(c).flag ==> Emptied(s.Ch(c), s'.Ch(c))) && s.Ch(c).delivered <= s'.Ch(c).delivered
    && forall d :: d != c ==> Undrained(s.Ch(d), s'.Ch(d))
  }

  /** Clearing the flag of `c` loses nothing that is delivered, and leaves the other channel. */
  predicate Cleared(s: State, s': State, c: Id) {
    s'.Ch(c).delivered == s.Ch(c).delivered && forall d :: d != c ==> Undrained(s.Ch(d), s'.Ch(d))
  }

  lemma DrainServes(s: State, before: State, drained: State, c: Id)
    requires OnlyOthers(s, before) && Step(before, Action(Drain, c, 0)) == Some(drained)
    ensures Drained(s, drained, c)
  {
    PrefixKept(s.Ch(c).delivered, s.Ch(c).ring, before.Ch(c).ring);
  }

  lemma ClearKeeps(s: State, drained: State, after: State, c: Id)
    requires Drained(s, drained, c) && Cleared(drained, after, c)
    ensures Drained(s, after, c)
  {
    forall d | d != c
      ensures Undrained(s.Ch(d), after.Ch(d))
    {
      UndrainedTwice(s.Ch(d), drained.Ch(d), after.Ch(d));
    }
  }

  lemma UndrainedTwice(a: Channel, b: Channel, c: Channel)
    requires Undrained(a, b) && Undrained(b, c)
    ensures Undrained(a, c)
  {
    assert c.ring[..|a.ring|] == b.ring[..|a.ring|];
  }

  lemma PrefixKept(a: seq<nat>, r: seq<nat>, r': seq<nat>)
    requires r <= r'
    ensures a + r <= a + r'
  {
    assert (a + r')[..|a + r|] == a + r;
  }

  lemma VisitServes(s: State, before: State, tested: State, after: State, c: Id)
    requires OnlyOthers(s, before) && Step(before, Action(Test, c, 0)) == Some(tested)
    requires if before.Ch(c).flag then Drained(tested, after, c) else after == tested
    ensures Visited(s, after, c)
  {
  }

  lemma OnlyOthersTwice(s: State, mid: State, after: State)
    requires OnlyOthers(s, mid) && OnlyOthers(mid, after)
    ensures OnlyOthers(s, after)
  {
    forall c
      ensures Undrained(s.Ch(c), after.Ch(c))
    {
      UndrainedTwice(s.Ch(c), mid.Ch(c), after.Ch(c));
    }
  }

  lemma HandlerIsOther(s: State, after: State, a: Action)
    requires (a.kind == Enter || a.kind == Ack) && Step(s, a) == Some(after)
    ensures OnlyOthers(s, after)
  {
  }

  lemma A7IsOther(s: State, after: State, a: Action)
    requires (a.kind == Push || a.kind == Kind.Notify) && Step(s, a) == Some(after)
    ensures OnlyOthers(s, after)
  {
  }

  /** Two visits serve both channels. */
  lemma BothServed(s: State, mid: State, after: State)
    requires Visited(s, mid, One) && Visited(mid, after, Two)
    ensures forall c :: s.Ch(c).flag ==> Emptied(s.Ch(c), after.Ch(c))
  {
    assert Undrained(s.Ch(Two), mid.Ch(Two)) && Undrained(mid.Ch(One), after.Ch(One));
    PrefixKept(s.two.delivered, s.two.ring, mid.two.ring);
    forall c | s.Ch(c).flag
      ensures Emptied(s.Ch(c), after.Ch(c))
    {
    }
  }

  lemma CallsAfter(t: seq<Action>, a: Action)
    ensures HandlerCalls(t + [a]) == HandlerCalls(t) + if a.kind == Drain then 1 else 0
  {
    assert (t + [a])[..|t|] == t;
  }

  class Board {
    var msgReceivedCh1: int
    var msgReceivedCh2: int
    var one: Wire
    var two: Wire
    var isr: Option<Id>
    ghost var pc: Pc
    ghost var trace: seq<Action>

    ghost function View(): State
      reads this
    {
      State(Channel(one.ring, one.delivered, one.toNotify, one.occupied, msgReceivedCh1 == MBOX_BUF_FREE),
            Channel(two.ring, two.delivered, two.toNotify, two.occupied, msgReceivedCh2 == MBOX_NEW_MSG), isr, pc)
    }

    /** The globals hold only the two values each channel uses, and the board is where its
        trace says. */
    ghost predicate Valid()
      reads this
    {
      && (msgReceivedCh1 == MBOX_NO_MSG || msgReceivedCh1 == MBOX_BUF_FREE)
      && (msgReceivedCh2 == MBOX_NO_MSG || msgReceivedCh2 == MBOX_NEW_MSG)
      && Exec(trace) == Some(View())
    }

    constructor ()
      ensures Valid() && trace == [] && isr == None && pc == AtTest(One)
    {
      msgReceivedCh1, msgReceivedCh2 := MBOX_NO_MSG, MBOX_NO_MSG;
      one, two := Wire([], [], false, false), Wire([], [], false, false);
      isr, pc, trace := None, AtTest(One), [];
    }

    /** Append a step to the history. */
    ghost method Record(a: Action)
      requires Exec(trace).Some? && Step(Exec(trace).value, a) == Some(View())
      modifies this`trace
      ensures trace == old(trace) + [a] && Exec(trace) == Some(View())
      ensures HandlerCalls(trace) == HandlerCalls(old(trace)) + if a.kind == Drain then 1 else 0
    {
      ExecAppend(trace, a);
      CallsAfter(trace, a);
      trace := trace + [a];
    }

    /** The first statement of `IPCC_channel1_callback` or `IPCC_channel2_callback`. */
    method CallbackSetsFlag(c: Id)
      requires Valid() && View().Ch(c).occupied && isr == None
      modifies this
      ensures Valid() && isr == Some(c) && trace == old(trace) + [Action(Enter, c, 0)]
      ensures Step(old(View()), Action(Enter, c, 0)) == Some(View())
      ensures pc == old(pc) && HandlerCalls(trace) == HandlerCalls(old(trace))
    {
      if c == One {
        msgReceivedCh1 := MBOX_BUF_FREE;
      } else {
        msgReceivedCh2 := MBOX_NEW_MSG;
      }
      isr := Some(c);
      Record(Action(Enter, c, 0));
    }

    /** The rest of the callback: `HAL_IPCC_NotifyCPU` in the receive direction. */
    method CallbackAcknowledges(c: Id)
      requires Valid() && isr == Some(c)
      modifies this
      ensures Valid() && isr == None && trace == old(trace) + [Action(Ack, c, 0)]
      ensures Step(old(View()), Action(Ack, c, 0)) == Some(View())
      ensures pc == old(pc) && HandlerCalls(trace) == HandlerCalls(old(trace))
    {
      if c == One {
        one := one.(occupied := false);
      } else {
        two := two.(occupied := false);
      }
      isr := None;
      Record(Action(Ack, c, 0));
    }

    /** The A7 pushes, or notifies if it has something to say and the channel is free. */
    method A7Step(a: Action)
      requires Valid() && OfOthers(a) && (a.kind == Push || a.kind == Kind.Notify)
      modifies this
      ensures Valid() && trace == After(old(trace), a) && old(trace) <= trace
      ensures OnlyOthers(old(View()), View()) && HandlerCalls(trace) == HandlerCalls(old(trace))
    {
      var w := if a.c == One then one else two;
      if a.kind == Push {
        A7Writes(a, w.(ring := w.ring + [a.msg], toNotify := true));
      } else if w.toNotify && !w.occupied {
        A7Writes(a, w.(toNotify := false, occupied := true));
      }
    }

    /** Its effect on one channel. */
    method A7Writes(a: Action, w: Wire)
      requires Valid() && (a.kind == Push || a.kind == Kind.Notify)
      requires Step(View(), a) == Some(View().With(a.c, Channel(w.ring, w.delivered, w.toNotify, w.occupied, View().Ch(a.c).flag)))
      modifies this
      ensures Valid() && trace == old(trace) + [a]
      ensures OnlyOthers(old(View()), View()) && HandlerCalls(trace) == HandlerCalls(old(trace))
    {
      if a.c == One {
        one := w;
      } else {
        two := w;
      }
      Record(a);
      A7IsOther(old(View()), View(), a);
    }

    /** A step of the A7 or of the handler, if it can be taken now. */
    method OtherStep(a: Action)
      requires Valid() && OfOthers(a)
      modifies this
      ensures Valid() && trace == After(old(trace), a) && old(trace) <= trace
      ensures OnlyOthers(old(View()), View()) && HandlerCalls(trace) == HandlerCalls(old(trace))
    {
      if a.kind == Enter {
        if (if a.c == One then one else two).occupied && isr == None {
          CallbackSetsFlag(a.c);
        }
      } else if a.kind == Ack {
        if isr == Some(a.c) {
          CallbackAcknowledges(a.c);
        }
      } else {
        A7Step(a);
      }
    }

    /** Everything else runs for a while; the handler returns before the thread resumes. */
    method Interference(others: seq<Action>)
      requires Valid() && AllOfOthers(others)
      modifies this
      ensures Valid() && isr == None && trace == Resumed(old(trace), others) && old(trace) <= trace
      ensures OnlyOthers(old(View()), View()) && HandlerCalls(trace) == HandlerCalls(old(trace))
    {
      ghost var before := View();
      for i := 0 to |others|
        invariant Valid() && trace == AfterAll(old(trace), others[..i]) && old(trace) <= trace
        invariant OnlyOthers(before, View()) && HandlerCalls(trace) == HandlerCalls(old(trace))
      {
        ghost var mid := View();
        AfterAllNext(old(trace), others, i);
        OtherStep(others[i]);
        OnlyOthersTwice(before, mid, View());
      }
      assert others[..|others|] == others;
      ghost var mid := View();
      if isr.Some? {
        CallbackAcknowledges(isr.value);
        HandlerIsOther(mid, View(), Action(Ack, mid.isr.value, 0));
        OnlyOthersTwice(before, mid, View());
      }
    }

    /** `rproc_virtio_notified` on one virtqueue. */
    method Notified(c: Id)
      requires Valid() && isr == None && pc == AtDrain(c)
      modifies this
      ensures Valid() && Step(old(View()), Action(Drain, c, 0)) == Some(View())
      ensures trace == old(trace) + [Action(Drain, c, 0)] && HandlerCalls(trace) == HandlerCalls(old(trace)) + 1
    {
      if c == One {
        one := one.(ring := [], delivered := one.delivered + one.ring);
      } else {
        two := two.(ring := [], delivered := two.delivered + two.ring);
      }
      pc := AtClear(c);
      Record(Action(Drain, c, 0));
    }

    /** `if (msg_received_chN == ...)`. */
    method TestFlag(c: Id) returns (got: bool)
      requires Valid() && isr == None && pc == AtTest(c)
      modifies this
      ensures Valid() && Step(old(View()), Action(Test, c, 0)) == Some(View()) && got == old(View()).Ch(c).flag
      ensures trace == old(trace) + [Action(Test, c, 0)] && HandlerCalls(trace) == HandlerCalls(old(trace))
    {
      got := if c == One then msgReceivedCh1 == MBOX_BUF_FREE else msgReceivedCh2 == MBOX_NEW_MSG;
      pc := if got then AtDrain(c) else Onward(c);
      Record(Action(Test, c, 0));
    }

    /** `msg_received_chN = MBOX_NO_MSG`. */
    method ClearFlag(c: Id)
      requires Valid() && isr == None && pc == AtClear(c)
      modifies this
      ensures Valid() && Step(old(View()), Action(Clear, c, 0)) == Some(View())
      ensures trace == old(trace) + [Action(Clear, c, 0)] && HandlerCalls(trace) == HandlerCalls(old(trace))
    {
      if c == One {
        msgReceivedCh1 := MBOX_NO_MSG;
      } else {
        msgReceivedCh2 := MBOX_NO_MSG;
      }
      pc := Onward(c);
      Record(Action(Clear, c, 0));
    }

    /** The others act, and then the virtqueue handler is called. */
    method DrainNext(c: Id, others: seq<Action>)
      requires Valid() && pc == AtDrain(c) && AllOfOthers(others)
      modifies this
      ensures Valid() && pc == AtClear(c) && trace == Resumed(old(trace), others) + [Action(Drain, c, 0)]
      ensures old(trace) <= trace && HandlerCalls(trace) == HandlerCalls(old(trace)) + 1
      ensures Drained(old(View()), View(), c)
    {
      Interference(others);
      ghost var before := View();
      Notified(c);
      DrainServes(old(View()), before, View(), c);
    }

    /** The others act, and then the flag is cleared. */
    method ClearNext(c: Id, others: seq<Action>)
      requires Valid() && pc == AtClear(c) && AllOfOthers(others)
      modifies this
      ensures Valid() && pc == Onward(c) && trace == Resumed(old(trace), others) + [Action(Clear, c, 0)]
      ensures old(trace) <= trace && HandlerCalls(trace) == HandlerCalls(old(trace))
      ensures Cleared(old(View()), View(), c)
    {
      Interference(others);
      ClearFlag(c);
    }

    /** The body of one of the two `if` statements of `MAILBOX_Poll`. */
    method DrainAndClear(c: Id, atDrain: seq<Action>, atClear: seq<Action>)
      requires Valid() && pc == AtDrain(c) && AllOfOthers(atDrain) && AllOfOthers(atClear)
      modifies this
      ensures Valid() && pc == Onward(c) && trace == Finished(old(trace), c, atDrain, atClear) && old(trace) <= trace
      ensures HandlerCalls(trace) == HandlerCalls(old(trace)) + 1
      ensures Drained(old(View()), View(), c)
    {
      DrainNext(c, atDrain);
      ghost var drained := View();
      ClearNext(c, atClear);
      ClearKeeps(old(View()), drained, View(), c);
    }

    /** One of those `if` statements; `ran` tells whether it called the handler. */
    method VisitChannel(c: Id, atTest: seq<Action>, atDrain: seq<Action>, atClear: seq<Action>) returns (ran: bool)
      requires Valid() && pc == AtTest(c)
      requires AllOfOthers(atTest) && AllOfOthers(atDrain) && AllOfOthers(atClear)
      modifies this
      ensures Valid() && pc == Onward(c) && trace == Visit(old(trace), c, atTest, atDrain, atClear) && old(trace) <= trace
      ensures HandlerCalls(trace) == HandlerCalls(old(trace)) + if ran then 1 else 0
      ensures Visited(old(View()), View(), c)
    {
      Interference(atTest);
      ghost var before := View();
      ran := TestFlag(c);
      ghost var tested := View();
      if ran {
        DrainAndClear(c, atDrain, atClear);
      }
      VisitServes(old(View()), before, tested, View(), c);
    }

    /** `MAILBOX_Poll`.  `others` says what happens before each of its statements.  Whatever
        that is, what was queued at a flagged channel is delivered. */
    method Poll(others: seq<seq<Action>>) returns (ret: int)
      requires Valid() && pc == AtTest(One) && |others| == 6
      requires forall s :: s in others ==> AllOfOthers(s)
      modifies this
      ensures Valid() && pc == AtTest(One) && old(trace) <= trace
      ensures trace == Visit(Visit(old(trace), One, others[0], others[1], others[2]), Two, others[3], others[4], others[5])
      ensures forall c :: old(View()).Ch(c).flag ==> Emptied(old(View()).Ch(c), View().Ch(c))
      ensures ret == 0 || ret == -1
      ensures ret == 0 <==> HandlerCalls(trace) > HandlerCalls(old(trace))
    {
      ret := -1;
      var ran := VisitChannel(One, others[0], others[1], others[2]);
      if ran {
        ret := 0;
      }
      ghost var mid := View();
      ran := VisitChannel(Two, others[3], others[4], others[5]);
      if ran {
        ret := 0;
      }
      BothServed(old(View()), mid, View());
    }
  }

  // ---------------------------------------------------------------- MAILBOX_Notify

  /** The transmit direction of one channel.  A notifier is a caller of `MAILBOX_Notify`; it
      is `ready` between seeing the channel free and setting the flag. */
  datatype Tx = Tx(occupied: bool, ready: set<nat>, sent: nat, acknowledged: nat)

  datatype TxStep = SeesFree(who: nat) | Sends(who: nat) | A7Acks

  /** One step, with notifiers 0..n-1; spinning on an occupied channel changes nothing. */
  function TxNext(s: Tx, a: TxStep, n: nat): Option<Tx> {
    match a
    case SeesFree(i) => if i < n && i !in s.ready && !s.occupied then Some(s.(ready := s.ready + {i})) else None
    case Sends(i) =>
      if i in s.ready then Some(Tx(true, s.ready - {i}, s.sent + 1, s.acknowledged)) else None
    case A7Acks => if s.occupied then Some(s.(occupied := false, acknowledged := s.acknowledged + 1)) else None
  }

  function TxRun(t: seq<TxStep>, n: nat): Option<Tx> {
    if t == [] then Some(Tx(false, {}, 0, 0))
    else
      var before := TxRun(t[..|t| - 1], n);
      if before.None? then None else TxNext(before.value, t[|t| - 1], n)
  }

  /** Every notification sent is acknowledged or still standing in the flag. */
  predicate NoneOverwritten(s: Tx) {
    s.sent == s.acknowledged + if s.occupied then 1 else 0
  }

  lemma {:induction false} OneNotifierNeverOverwrites(t: seq<TxStep>, n: nat)
    requires n <= 1 && TxRun(t, n).Some?
    ensures NoneOverwritten(TxRun(t, n).value)
    ensures forall i :: i in TxRun(t, n).value.ready ==> i == 0 && n == 1
    ensures TxRun(t, n).value.ready != {} ==> !TxRun(t, n).value.occupied
    decreases |t|
  {
    if t != [] {
      OneNotifierNeverOverwrites(t[..|t| - 1], n);
    }
  }

  /** Testing and sending are not atomic: no notification is lost in any run exactly when
      there is at most one notifier. */
  lemma NoOverwriteIff(n: nat)
    ensures (forall t :: TxRun(t, n).Some? ==> NoneOverwritten(TxRun(t, n).value)) <==> n <= 1
  {
    if n <= 1 {
      forall t | TxRun(t, n).Some?
        ensures NoneOverwritten(TxRun(t, n).value)
      {
        OneNotifierNeverOverwrites(t, n);
      }
    } else {
      TwoNotifiersRace(n);
    }
  }

  lemma TxAppend(t: seq<TxStep>, a: TxStep, n: nat)
    ensures TxRun(t + [a], n) == if TxRun(t, n).None? then None else TxNext(TxRun(t, n).value, a, n)
  {
    assert (t + [a])[..|t|] == t;
  }

  /** Both see the channel free, both send, and one notification is gone. */
  lemma TwoNotifiersRace(n: nat)
    requires n >= 2
    ensures exists t :: TxRun(t, n).Some? && !NoneOverwritten(TxRun(t, n).value)
  {
    var t0: seq<TxStep> := [];
    var t1, t2 := t0 + [SeesFree(0)], t0 + [SeesFree(0)] + [SeesFree(1)];
    var t3, t4 := t2 + [Sends(0)], t2 + [Sends(0)] + [Sends(1)];
    TxAppend(t0, SeesFree(0), n);
    TxAppend(t1, SeesFree(1), n);
    var both := TxRun(t2, n).value;
    assert both.sent == both.acknowledged == 0 && 0 in both.ready && 1 in both.ready;
    TxAppend(t2, Sends(0), n);
    TxAppend(t3, Sends(1), n);
    assert TxRun(t4, n).value.sent == 2;
  }

  /** `k` notifications, each acknowledged before the next. */
  function Exchanges(k: nat): seq<TxStep> {
    if k == 0 then [] else Exchanges(k - 1) + [SeesFree(0)] + [Sends(0)] + [A7Acks]
  }

  /** One notifier gets any number of notifications through. */
  lemma {:induction false} ExchangesSucceed(k: nat)
    ensures TxRun(Exchanges(k), 1) == Some(Tx(false, {}, k, k))
  {
    if k != 0 {
      ExchangesSucceed(k - 1);
      var t := Exchanges(k - 1);
      TxAppend(t, SeesFree(0), 1);
      TxAppend(t + [SeesFree(0)], Sends(0), 1);
      TxAppend(t + [SeesFree(0)] + [Sends(0)], A7Acks, 1);
      assert {} + {0} - {0} == {};
    }
  }

  // ---------------------------------------------------------------- the code of MAILBOX_Notify

  function TxAfter(t: seq<TxStep>, a: TxStep, n: nat): seq<TxStep> {
    if TxRun(t, n).Some? && TxNext(TxRun(t, n).value, a, n).Some? then t + [a] else t
  }

  function TxAfterAll(t: seq<TxStep>, steps: seq<TxStep>, n: nat): seq<TxStep> {
    if steps == [] then t else TxAfter(TxAfterAll(t, steps[..|steps| - 1], n), steps[|steps| - 1], n)
  }

  /** A run in which the others act for some rounds. */
  function Rounds(t: seq<TxStep>, rounds: seq<seq<TxStep>>, n: nat): seq<TxStep> {
    if rounds == [] then t else TxAfterAll(Rounds(t, rounds[..|rounds| - 1], n), rounds[|rounds| - 1], n)
  }

  lemma NextRound(t: seq<TxStep>, rounds: seq<seq<TxStep>>, k: nat, n: nat)
    requires k < |rounds|
    ensures Rounds(t, rounds[..k + 1], n) == TxAfterAll(Rounds(t, rounds[..k], n), rounds[k], n)
  {
    assert rounds[..k + 1][..k] == rounds[..k];
  }

  /** The A7 or another notifier. */
  predicate NotBy(who: nat, steps: seq<TxStep>) {
    forall a :: a in steps ==> a.A7Acks? || a.who != who
  }

  predicate Busy(t: seq<TxStep>, n: nat) {
    TxRun(t, n).Some? && TxRun(t, n).value.occupied
  }

  /** The transmit direction of one IPCC channel, and the run it has been through. */
  class TxLine {
    const notifiers: nat
    var tx: Tx
    ghost var trace: seq<TxStep>

    ghost predicate Valid()
      reads this
    {
      TxRun(trace, notifiers) == Some(tx)
    }

    constructor (n: nat)
      ensures Valid() && trace == [] && notifiers == n
    {
      notifiers, tx, trace := n, Tx(false, {}, 0, 0), [];
    }

    /** A step, if it can be taken. */
    method Perform(a: TxStep)
      requires Valid()
      modifies this
      ensures Valid() && trace == TxAfter(old(trace), a, notifiers)
      ensures tx == if TxNext(old(tx), a, notifiers).Some? then TxNext(old(tx), a, notifiers).value else old(tx)
    {
      var next := TxNext(tx, a, notifiers);
      if next.Some? {
        TxAppend(trace, a, notifiers);
        tx := next.value;
        trace := trace + [a];
      }
    }

    method OthersRun(who: nat, steps: seq<TxStep>)
      requires Valid() && NotBy(who, steps)
      modifies this
      ensures Valid() && trace == TxAfterAll(old(trace), steps, notifiers)
      ensures who in tx.ready <==> who in old(tx).ready
    {
      for i := 0 to |steps|
        invariant Valid() && trace == TxAfterAll(old(trace), steps[..i], notifiers)
        invariant who in tx.ready <==> who in old(tx).ready
      {
        assert steps[..i + 1][..i] == steps[..i];
        Perform(steps[i]);
      }
      assert steps[..|steps|] == steps;
    }

    /** The waiting loop and the notification.  The others act for a round before each reading
        of the status, and for `gap` between the reading that finds the channel free and the
        setting of the flag.  The run observed ends with the flag set, or when the rounds run
        out. */
    method Announce(who: nat, rounds: seq<seq<TxStep>>, gap: seq<TxStep>) returns (done: bool, looks: nat)
      requires Valid() && who < notifiers && who !in tx.ready
      requires NotBy(who, gap) && forall r :: r in rounds ==> NotBy(who, r)
      modifies this
      ensures Valid() && Observed(old(trace), trace, who, rounds, gap, notifiers, done, looks)
    {
      looks, done := 0, false;
      while looks < |rounds| && !done
        invariant Valid() && Looked(old(trace), rounds, looks, notifiers) && who !in tx.ready
        invariant trace == Rounds(old(trace), rounds[..looks], notifiers)
        invariant if looks > 0 then done == !tx.occupied else !done
      {
        LookAgain(old(trace), rounds, looks, notifiers);
        NextRound(old(trace), rounds, looks, notifiers);
        OthersRun(who, rounds[looks]);
        looks := looks + 1;
        done := !tx.occupied;
      }
      assert rounds[..|rounds|] == rounds;
      if done {
        Send(who, gap);
      }
    }

    /** The last reading found the channel free; `HAL_IPCC_NotifyCPU` follows. */
    method Send(who: nat, gap: seq<TxStep>)
      requires Valid() && who < notifiers && who !in tx.ready && !tx.occupied && NotBy(who, gap)
      modifies this
      ensures Valid() && trace == Announced(old(trace), who, gap, notifiers)
    {
      Perform(SeesFree(who));
      OthersRun(who, gap);
      Perform(Sends(who));
    }
  }

  /** All readings but the last of `looks` found the channel occupied. */
  ghost predicate Looked(t: seq<TxStep>, rounds: seq<seq<TxStep>>, looks: nat, n: nat) {
    looks <= |rounds| && forall k :: 0 < k < looks ==> Busy(Rounds(t, rounds[..k], n), n)
  }

  lemma LookAgain(t: seq<TxStep>, rounds: seq<seq<TxStep>>, looks: nat, n: nat)
    requires Looked(t, rounds, looks, n) && looks < |rounds|
    requires looks > 0 ==> Busy(Rounds(t, rounds[..looks], n), n)
    ensures Looked(t, rounds, looks + 1, n)
  {
  }

  /** A run that goes on with `who` finding the channel free and then setting the flag. */
  function Announced(t: seq<TxStep>, who: nat, gap: seq<TxStep>, n: nat): seq<TxStep> {
    TxAfterAll(t + [SeesFree(who)], gap, n) + [Sends(who)]
  }

  /** What is seen of a call: it has `done` its sending after the first reading that found the
      channel free, or has found it occupied as often as it looked. */
  ghost predicate Observed(t: seq<TxStep>, t': seq<TxStep>, who: nat, rounds: seq<seq<TxStep>>, gap: seq<TxStep>, n: nat,
                           done: bool, looks: nat) {
    && Looked(t, rounds, looks, n)
    && if done then
         && looks > 0 && !Busy(Rounds(t, rounds[..looks], n), n)
         && t' == Announced(Rounds(t, rounds[..looks], n), who, gap, n)
       else looks == |rounds| && t' == Rounds(t, rounds, n) && (looks > 0 ==> Busy(t', n))
  }

  const VRING0_ID := 0
  const VRING1_ID := 1

  /** `MAILBOX_Notify` by notifier `who`: nothing happens for an unknown vring; otherwise one
      notification goes out, on the vring's channel, after a reading that found it free, and
      the other channel is not touched. */
  method Notify(who: nat, id: nat, one: TxLine, two: TxLine, rounds: seq<seq<TxStep>>, gap: seq<TxStep>)
    returns (ret: Option<int>, looks: nat)
    requires one.Valid() && two.Valid() && one != two
    requires who < one.notifiers && who < two.notifiers && who !in one.tx.ready && who !in two.tx.ready
    requires NotBy(who, gap) && forall r :: r in rounds ==> NotBy(who, r)
    modifies one, two
    ensures one.Valid() && two.Valid()
    ensures ret == Some(-1) <==> id != 0 && id != 1
    ensures ret == Some(-1) ==> looks == 0
    ensures ret != Some(-1) ==> ret == Some(0) || ret == None
    ensures id != 0 ==> one.trace == old(one.trace) && one.tx == old(one.tx)
    ensures id != 1 ==> two.trace == old(two.trace) && two.tx == old(two.tx)
    ensures id == 0 ==> Observed(old(one.trace), one.trace, who, rounds, gap, one.notifiers, ret == Some(0), looks)
    ensures id == 1 ==> Observed(old(two.trace), two.trace, who, rounds, gap, two.notifiers, ret == Some(0), looks)
  {
    ret, looks := Some(-1), 0;
    var done: bool;
    if id == VRING0_ID {
      done, looks := one.Announce(who, rounds, gap);
      ret := if done then Some(0) else None;
    } else if id == VRING1_ID {
      done, looks := two.Announce(who, rounds, gap);
      ret := if done then Some(0) else None;
    }
  }
}
