/** `Periph_Lock` and `Periph_Unlock`: mutual exclusion between cores over the hardware
    semaphores.  HSEM takes a free semaphore, or one the reading core already owns, in one
    step, keeps no nesting count, and ignores a release by a core that is not the owner. */
module PeriphLock {
  import opened Options
  import opened Words

  // ---------------------------------------------------------------- semaphore indices

  datatype Bank = A | B | C | D | E | F | G | H | I | J | K | Z
  datatype Peripheral = Gpio(bank: Bank) | Exti | Other

  const HSEM_SEMID_MAX: nat := 31

  /** `GET_HSEM_SEM_INDEX`. */
  function Index(p: Peripheral): byte {
    match p
    case Gpio(_) => 0
    case Exti => 1
    case Other => 32
  }

  /** The index names a semaphore exactly for the peripherals the macro lists; all GPIO banks
      share one semaphore, and EXTI does not share it. */
  lemma IndexFacts(p: Peripheral, q: Peripheral)
    ensures p.Gpio? ==> Index(p) == 0
    ensures p.Exti? ==> Index(p) == 1
    ensures p.Other? ==> Index(p) == 32
    ensures Index(p) <= HSEM_SEMID_MAX <==> p.Gpio? || p.Exti?
    ensures Index(p) <= HSEM_SEMID_MAX && Index(q) <= HSEM_SEMID_MAX ==> (Index(p) == Index(q) <==> p.Gpio? == q.Gpio?)
  {
  }

  // ---------------------------------------------------------------- the cores, step by step

  /** Inside `Periph_Lock` a core is about to try the semaphore, or has been refused it and is
      about to look at the time, or has taken it and is about to return; `Error_Handler`
      halts it for good. */
  datatype Phase = Idle | Trying(p: Peripheral) | Refused(p: Peripheral) | Won(p: Peripheral) | Halted

  datatype State = State(owner: seq<Option<nat>>, phase: seq<Phase>) {
    predicate Ok() {
      |owner| == HSEM_SEMID_MAX + 1
    }
  }

  datatype Kind = Call | Take | Retry | GiveUp | Return | Unlock
  datatype Step = Step(kind: Kind, core: nat, p: Peripheral)

  /** `HAL_HSEM_FastTake` succeeds. */
  predicate CanTake(s: State, core: nat, i: nat)
    requires s.Ok() && i < 32
  {
    s.owner[i] == None || s.owner[i] == Some(core)
  }

  /** One step, if it can be taken.  The peripheral of a step inside `Periph_Lock` is the one
      it was called with. */
  function Next(s: State, a: Step): (r: Option<State>)
    requires s.Ok()
    ensures r.Some? ==> r.value.Ok() && |r.value.phase| == |s.phase|
  {
    if a.core >= |s.phase| || Index(a.p) > HSEM_SEMID_MAX then None
    else
      var ph, i := s.phase[a.core], Index(a.p);
      match a.kind
      case Call => if ph == Idle then Some(s.(phase := s.phase[a.core := Trying(a.p)])) else None
      case Take =>
        if ph != Trying(a.p) then None
        else if CanTake(s, a.core, i) then
          Some(State(s.owner[i := Some(a.core)], s.phase[a.core := Won(a.p)]))
        else Some(s.(phase := s.phase[a.core := Refused(a.p)]))
      case Retry => if ph == Refused(a.p) then Some(s.(phase := s.phase[a.core := Trying(a.p)])) else None
      case GiveUp => if ph == Refused(a.p) then Some(s.(phase := s.phase[a.core := Halted])) else None
      case Return => if ph == Won(a.p) then Some(s.(phase := s.phase[a.core := Idle])) else None
      case Unlock =>
        if ph != Idle then None
        else Some(s.(owner := s.owner[i := if s.owner[i] == Some(a.core) then None else s.owner[i]]))
  }

  /** `cores` cores, all semaphores free. */
  function Start(cores: nat): (s: State)
    ensures s.Ok() && |s.phase| == cores
  {
    State(seq(32, _ => None), seq(cores, _ => Idle))
  }

  function Exec(t: seq<Step>, cores: nat): (r: Option<State>)
    ensures r.Some? ==> r.value.Ok() && |r.value.phase| == cores
  {
    if t == [] then Some(Start(cores))
    else
      var before := Exec(t[..|t| - 1], cores);
      if before.None? then None else Next(before.value, t[|t| - 1])
  }

  lemma ExecAppend(t: seq<Step>, a: Step, cores: nat)
    ensures Exec(t + [a], cores) == if Exec(t, cores).None? then None else Next(Exec(t, cores).value, a)
  {
    assert (t + [a])[..|t|] == t;
  }

  // ---------------------------------------------------------------- mutual exclusion

  /** The semaphores on which core `c` has returned from `Periph_Lock` and not unlocked since. */
  function HeldBy(t: seq<Step>, c: nat): set<nat> {
    if t == [] then {}
    else
      var held, a := HeldBy(t[..|t| - 1], c), t[|t| - 1];
      if a.core != c then held
      else if a.kind == Return then held + {Index(a.p)}
      else if a.kind == Unlock then held - {Index(a.p)}
      else held
  }

  predicate Holds(t: seq<Step>, c: nat, i: nat) {
    i in HeldBy(t, c)
  }

  /** Whoever is past the take, inside the call or out of it, owns the semaphore. */
  lemma {:induction false} HolderOwns(t: seq<Step>, cores: nat, c: nat, i: nat)
    requires Exec(t, cores).Some? && i < 32 && c < cores
    ensures var s := Exec(t, cores).value;
            && (Holds(t, c, i) ==> s.owner[i] == Some(c))
            && (s.phase[c].Won? && Index(s.phase[c].p) == i ==> s.owner[i] == Some(c))
    decreases |t|
  {
    if t != [] {
      HolderOwns(t[..|t| - 1], cores, c, i);
    }
  }

  /** Where core `c` is after a run. */
  function PhaseOf(t: seq<Step>, c: nat, cores: nat): Option<Phase> {
    if Exec(t, cores).Some? && c < cores then Some(Exec(t, cores).value.phase[c]) else None
  }

  /** Core `d` holds semaphore `i`, or has won it and is about to return. */
  predicate HasIt(t: seq<Step>, d: nat, i: nat, cores: nat) {
    || Holds(t, d, i)
    || (PhaseOf(t, d, cores).Some? && PhaseOf(t, d, cores).value.Won? && Index(PhaseOf(t, d, cores).value.p) == i)
  }

  /** The converse: only such a core owns a semaphore. */
  lemma {:induction false} OwnerHasIt(t: seq<Step>, cores: nat, d: nat, i: nat)
    requires Exec(t, cores).Some? && i < 32 && Exec(t, cores).value.owner[i] == Some(d)
    ensures d < cores && HasIt(t, d, i, cores)
    decreases |t|
  {
    if t != [] {
      var front, a := t[..|t| - 1], t[|t| - 1];
      if Exec(front, cores).value.owner[i] == Some(d) {
        OwnerHasIt(front, cores, d, i);
      }
    }
  }

  ghost predicate TakenByOther(t: seq<Step>, me: nat, i: nat, cores: nat) {
    exists d: nat :: d < cores && d != me && HasIt(t, d, i, cores)
  }

  /** In every run a take is refused exactly if another core has the semaphore. */
  lemma TakeRefusedIff(t: seq<Step>, cores: nat, c: nat, p: Peripheral)
    requires PhaseOf(t, c, cores) == Some(Trying(p)) && Index(p) <= HSEM_SEMID_MAX
    ensures PhaseOf(t + [Step(Take, c, p)], c, cores)
         == Some(if TakenByOther(t, c, Index(p), cores) then Refused(p) else Won(p))
  {
    ExecAppend(t, Step(Take, c, p), cores);
    var s, i := Exec(t, cores).value, Index(p);
    if s.owner[i].Some? {
      OwnerHasIt(t, cores, s.owner[i].value, i);
    }
    forall d: nat | d < cores && d != c && HasIt(t, d, i, cores)
      ensures s.owner[i] == Some(d)
    {
      HolderOwns(t, cores, d, i);
    }
  }

  /** At no point of any run do two cores hold semaphores of the same index. */
  lemma MutualExclusion(t: seq<Step>, cores: nat, c: nat, d: nat, i: nat)
    requires Exec(t, cores).Some? && i < 32 && c < cores && d < cores
    requires Holds(t, c, i) && Holds(t, d, i)
    ensures c == d
  {
    HolderOwns(t, cores, c, i);
    HolderOwns(t, cores, d, i);
  }

  lemma {:induction false} HoldsUntilUnlock(t: seq<Step>, j: nat, c: nat, i: nat)
    requires j < |t| && t[j].kind == Return && t[j].core == c && Index(t[j].p) == i
    requires forall k :: j < k < |t| ==> !(t[k].kind == Unlock && t[k].core == c && Index(t[k].p) == i)
    ensures Holds(t, c, i)
    decreases |t|
  {
    if j < |t| - 1 {
      HoldsUntilUnlock(t[..|t| - 1], j, c, i);
    }
  }

  lemma {:induction false} ExecPrefix(t: seq<Step>, n: nat, cores: nat)
    requires n <= |t| && Exec(t, cores).Some?
    ensures Exec(t[..n], cores).Some?
    decreases |t| - n
  {
    if n == |t| {
      assert t[..n] == t;
    } else {
      ExecPrefix(t, n + 1, cores);
      assert t[..n + 1][..n] == t[..n];
    }
  }

  lemma StepInRange(t: seq<Step>, k: nat, cores: nat)
    requires Exec(t, cores).Some? && k < |t|
    ensures Exec(t[..k + 1], cores).Some? && t[k].core < cores && Index(t[k].p) <= HSEM_SEMID_MAX
  {
    ExecPrefix(t, k + 1, cores);
    assert t[..k + 1][k] == t[k];
  }

  /** Between one core's return from the lock and another core's return on the same index,
      the first core has unlocked. */
  lemma UnlockComesBetween(t: seq<Step>, cores: nat, j: nat, k: nat)
    requires Exec(t, cores).Some? && j < k < |t|
    requires t[j].kind == Return && t[k].kind == Return && Index(t[j].p) == Index(t[k].p)
    requires t[j].core != t[k].core
    ensures exists m :: j < m < k && t[m].kind == Unlock && t[m].core == t[j].core && Index(t[m].p) == Index(t[j].p)
  {
    var c, d, i, upto := t[j].core, t[k].core, Index(t[j].p), t[..k + 1];
    StepInRange(t, j, cores);
    StepInRange(t, k, cores);
    if forall m :: j < m < k ==> !(t[m].kind == Unlock && t[m].core == c && Index(t[m].p) == i) {
      HoldsUntilUnlock(upto, j, c, i);
      HoldsUntilUnlock(upto, k, d, i);
      MutualExclusion(upto, cores, c, d, i);
    }
  }

  // ---------------------------------------------------------------- time-outs

  /** `HAL_GetTick() - tickstart`, on a 32-bit counter that wraps. */
  function Elapsed(now: nat, start: nat): word {
    Wrap(Wrap(now) - Wrap(start))
  }

  /** The wrapped difference never exceeds the true one, whatever the start tick, and is the
      true one until it reaches 2^32. */
  lemma ElapsedIsSound(now: nat, start: nat)
    requires start <= now
    ensures Elapsed(now, start) <= now - start
    ensures Elapsed(now, start) == now - start <==> now - start < 0x1_0000_0000
  {
    WrapDifference(now, start);
  }

  lemma WrapDifference(a: nat, b: nat)
    requires b <= a
    ensures Wrap(Wrap(a) - Wrap(b)) == Wrap(a - b)
  {
    var d := Wrap(a) - Wrap(b);
    WrapOnce(d);
    assert Wrap(a - b) == if d >= 0 then d else d + 0x1_0000_0000;
  }

  predicate Expired(timeout: word, now: nat, start: nat) {
    timeout == 0 || Elapsed(now, start) > timeout
  }

  /** The test never fires early, from any start tick; it fires on time as long as the tick
      counter has not gone all the way round. */
  lemma ExpiredMeansTimeIsUp(timeout: word, now: nat, start: nat)
    requires start <= now
    ensures Expired(timeout, now, start) ==> timeout == 0 || now - start > timeout
    ensures now - start < 0x1_0000_0000 && (timeout == 0 || now - start > timeout) ==> Expired(timeout, now, start)
  {
    ElapsedIsSound(now, start);
  }

  // ---------------------------------------------------------------- the code

  /** One turn of the retry loop: what other cores do before the take, what they do between
      the take and the reading of the tick counter, and the true time of that reading. */
  datatype Moment = Moment(before: seq<Step>, between: seq<Step>, now: nat)

  predicate NotBy(me: nat, steps: seq<Step>) {
    forall a :: a in steps ==> a.core != me
  }

  /** What happens around each turn is other cores' doing, and time does not run backwards. */
  predicate Possible(me: nat, start: nat, m: Moment) {
    start <= m.now && NotBy(me, m.before) && NotBy(me, m.between)
  }

  /** The first `n` turns all looked at the time before it was up. */
  predicate InTime(timeout: word, start: nat, moments: seq<Moment>, n: nat)
    requires n <= |moments|
  {
    forall k :: 0 <= k < n ==> !Expired(timeout, moments[k].now, start)
  }

  /** No turn lets core `c` act. */
  predicate NoneBy(c: nat, moments: seq<Moment>) {
    forall m :: m in moments ==> NotBy(c, m.before) && NotBy(c, m.between)
  }

  /** A run goes on with a step if it can be taken, and ignores it if not. */
  function After(t: seq<Step>, a: Step, cores: nat): seq<Step> {
    if Exec(t, cores).Some? && Next(Exec(t, cores).value, a).Some? then t + [a] else t
  }

  function AfterAll(t: seq<Step>, steps: seq<Step>, cores: nat): seq<Step> {
    if steps == [] then t else After(AfterAll(t, steps[..|steps| - 1], cores), steps[|steps| - 1], cores)
  }

  /** A turn: others act, then core `me` tries the semaphore. */
  function Asked(t: seq<Step>, me: nat, p: Peripheral, m: Moment, cores: nat): seq<Step> {
    AfterAll(t, m.before, cores) + [Step(Take, me, p)]
  }

  /** A refused turn: others act, and core `me` tries again or gives up. */
  function Refusal(t: seq<Step>, me: nat, p: Peripheral, m: Moment, kind: Kind, cores: nat): seq<Step> {
    AfterAll(Asked(t, me, p, m, cores), m.between, cores) + [Step(kind, me, p)]
  }

  /** A call that has only been refused so far, once for every turn of `moments`. */
  function Waited(t: seq<Step>, me: nat, p: Peripheral, moments: seq<Moment>, cores: nat): seq<Step> {
    if moments == [] then t + [Step(Call, me, p)]
    else Refusal(Waited(t, me, p, moments[..|moments| - 1], cores), me, p, moments[|moments| - 1], Retry, cores)
  }

  /** How a call is seen to end: `LOCK_RESOURCE_STATUS_OK`, `Error_Handler`, or not yet. */
  datatype Outcome = ReturnsOk | Halts | StillTrying

  /** The run of one turn: it ends in the return exactly if no other core has the semaphore
      when it takes, and else in another try or in `Error_Handler`. */
  ghost predicate TurnRun(t: seq<Step>, t': seq<Step>, me: nat, p: Peripheral, m: Moment, outcome: Outcome, cores: nat) {
    && (outcome == ReturnsOk <==> !TakenByOther(AfterAll(t, m.before, cores), me, Index(p), cores))
    && PhaseOf(Asked(t, me, p, m, cores), me, cores) == Some(if outcome == ReturnsOk then Won(p) else Refused(p))
    && t' == match outcome
             case ReturnsOk => Asked(t, me, p, m, cores) + [Step(Return, me, p)]
             case Halts => Refusal(t, me, p, m, GiveUp, cores)
             case StillTrying => Refusal(t, me, p, m, Retry, cores)
  }

  /** The run of a whole call, `turns` turns long, all but the last of them refused. */
  ghost predicate CallRun(t: seq<Step>, t': seq<Step>, me: nat, p: Peripheral, moments: seq<Moment>, turns: nat,
                          outcome: Outcome, cores: nat)
    requires turns <= |moments|
  {
    if outcome == StillTrying then t' == Waited(t, me, p, moments[..turns], cores)
    else turns > 0 && TurnRun(Waited(t, me, p, moments[..turns - 1], cores), t', me, p, moments[turns - 1], outcome, cores)
  }

  /** Between two points of a run core `c` has not moved: it is where it was and holds what it
      held. */
  ghost predicate LeftAlone(t: seq<Step>, t': seq<Step>, c: nat, cores: nat) {
    t <= t' && PhaseOf(t', c, cores) == PhaseOf(t, c, cores) && HeldBy(t', c) == HeldBy(t, c)
  }

  lemma StepLeavesAlone(t: seq<Step>, a: Step, c: nat, cores: nat)
    requires Exec(t + [a], cores).Some? && a.core != c
    ensures LeftAlone(t, t + [a], c, cores)
  {
    ExecAppend(t, a, cores);
    assert (t + [a])[..|t|] == t;
  }

  lemma LeftAloneTwice(t: seq<Step>, u: seq<Step>, v: seq<Step>, c: nat, cores: nat)
    requires LeftAlone(t, u, c, cores) && LeftAlone(u, v, c, cores)
    ensures LeftAlone(t, v, c, cores)
  {
    assert v[..|t|] == u[..|t|];
  }

  lemma {:induction false} AfterAllLeavesAlone(t: seq<Step>, steps: seq<Step>, c: nat, cores: nat)
    requires Exec(t, cores).Some? && NotBy(c, steps)
    ensures Exec(AfterAll(t, steps, cores), cores).Some? && LeftAlone(t, AfterAll(t, steps, cores), c, cores)
    decreases |steps|
  {
    if steps != [] {
      var front, a := steps[..|steps| - 1], steps[|steps| - 1];
      AfterAllLeavesAlone(t, front, c, cores);
      var u := AfterAll(t, front, cores);
      if After(u, a, cores) != u {
        ExecAppend(u, a, cores);
        StepLeavesAlone(u, a, c, cores);
        LeftAloneTwice(t, u, u + [a], c, cores);
      }
    }
  }

  /** All cores but `me` that no turn lets act. */
  ghost predicate Bystanders(t: seq<Step>, t': seq<Step>, me: nat, moments: seq<Moment>, cores: nat) {
    t <= t' && forall c: nat :: c != me && NoneBy(c, moments) ==> LeftAlone(t, t', c, cores)
  }

  lemma BystandersTwice(t: seq<Step>, u: seq<Step>, v: seq<Step>, me: nat, moments: seq<Moment>, cores: nat)
    requires Bystanders(t, u, me, moments, cores) && Bystanders(u, v, me, moments, cores)
    ensures Bystanders(t, v, me, moments, cores)
  {
    assert v[..|t|] == u[..|t|];
    forall c: nat | c != me && NoneBy(c, moments)
      ensures LeftAlone(t, v, c, cores)
    {
      LeftAloneTwice(t, u, v, c, cores);
    }
  }

  lemma OwnStep(t: seq<Step>, a: Step, moments: seq<Moment>, cores: nat)
    requires Exec(t + [a], cores).Some?
    ensures Bystanders(t, t + [a], a.core, moments, cores)
  {
    forall c: nat | c != a.core
      ensures LeftAlone(t, t + [a], c, cores)
    {
      StepLeavesAlone(t, a, c, cores);
    }
  }

  lemma {:induction false} AfterAllExtends(t: seq<Step>, steps: seq<Step>, cores: nat)
    ensures t <= AfterAll(t, steps, cores)
    decreases |steps|
  {
    if steps != [] {
      AfterAllExtends(t, steps[..|steps| - 1], cores);
    }
  }

  lemma OthersSteps(t: seq<Step>, steps: seq<Step>, me: nat, m: Moment, moments: seq<Moment>, cores: nat)
    requires Exec(t, cores).Some? && m in moments && (steps == m.before || steps == m.between)
    ensures Bystanders(t, AfterAll(t, steps, cores), me, moments, cores)
  {
    AfterAllExtends(t, steps, cores);
    forall c: nat | c != me && NoneBy(c, moments)
      ensures LeftAlone(t, AfterAll(t, steps, cores), c, cores)
    {
      AfterAllLeavesAlone(t, steps, c, cores);
    }
  }

  lemma WaitedNext(t: seq<Step>, me: nat, p: Peripheral, moments: seq<Moment>, k: nat, cores: nat)
    requires k < |moments|
    ensures Waited(t, me, p, moments[..k + 1], cores)
         == Refusal(Waited(t, me, p, moments[..k], cores), me, p, moments[k], Retry, cores)
  {
    assert moments[..k + 1][..k] == moments[..k];
  }

  lemma AllLeftAlone(t: seq<Step>, steps: seq<Step>, cores: nat, s: State, s': State)
    requires Exec(t, cores) == Some(s) && Exec(AfterAll(t, steps, cores), cores) == Some(s')
    ensures t <= AfterAll(t, steps, cores)
    ensures forall c: nat :: NotBy(c, steps) ==> LeftAlone(t, AfterAll(t, steps, cores), c, cores)
    ensures forall c: nat :: c < cores && NotBy(c, steps) ==> s'.phase[c] == s.phase[c]
  {
    AfterAllExtends(t, steps, cores);
    forall c: nat | NotBy(c, steps)
      ensures LeftAlone(t, AfterAll(t, steps, cores), c, cores) && (c < cores ==> s'.phase[c] == s.phase[c])
    {
      AfterAllLeavesAlone(t, steps, c, cores);
    }
  }

  lemma InTimeNext(timeout: word, start: nat, moments: seq<Moment>, n: nat)
    requires n < |moments| && InTime(timeout, start, moments, n) && !Expired(timeout, moments[n].now, start)
    ensures InTime(timeout, start, moments, n + 1)
  {
  }

  /** The history when turn `k` of a call tries the semaphore. */
  function AtTake(t: seq<Step>, me: nat, p: Peripheral, moments: seq<Moment>, k: nat, cores: nat): seq<Step>
    requires k < |moments|
  {
    AfterAll(Waited(t, me, p, moments[..k], cores), moments[k].before, cores)
  }

  /** Every turn was refused exactly if another core had the semaphore; the one that was not is
      the last, and the call returned. */
  ghost predicate Deserved(t: seq<Step>, me: nat, p: Peripheral, moments: seq<Moment>, turns: nat, outcome: Outcome, cores: nat)
    requires turns <= |moments|
  {
    forall k :: 0 <= k < turns ==>
      (TakenByOther(AtTake(t, me, p, moments, k, cores), me, Index(p), cores) <==> !(k == turns - 1 && outcome == ReturnsOk))
  }

  lemma DeservedNext(t: seq<Step>, u: seq<Step>, v: seq<Step>, me: nat, p: Peripheral, moments: seq<Moment>,
                     turns: nat, outcome: Outcome, cores: nat)
    requires turns < |moments| && CallRun(t, u, me, p, moments, turns, StillTrying, cores)
    requires Deserved(t, me, p, moments, turns, StillTrying, cores)
    requires TurnRun(u, v, me, p, moments[turns], outcome, cores)
    ensures Deserved(t, me, p, moments, turns + 1, outcome, cores)
  {
  }

  /** Beginning a call leaves to every other core what it has. */
  lemma CallTakesNothing(t: seq<Step>, me: nat, p: Peripheral, moments: seq<Moment>, cores: nat)
    requires Exec(t + [Step(Call, me, p)], cores).Some? && moments != [] && moments[0].before == []
    ensures TakenByOther(AtTake(t, me, p, moments, 0, cores), me, Index(p), cores) <==> TakenByOther(t, me, Index(p), cores)
  {
    var t' := t + [Step(Call, me, p)];
    assert moments[..0] == [];
    forall d: nat | d < cores && d != me
      ensures HasIt(t', d, Index(p), cores) == HasIt(t, d, Index(p), cores)
    {
      StepLeavesAlone(t, Step(Call, me, p), d, cores);
    }
  }

  /** A call as the history shows it: its own run, nobody else disturbed, every turn decided by
      who has the semaphore, all turns but the last in time. */
  ghost predicate CallSoFar(t: seq<Step>, t': seq<Step>, me: nat, p: Peripheral, timeout: word, start: nat,
                            moments: seq<Moment>, turns: nat, outcome: Outcome, cores: nat)
    requires turns <= |moments| && (outcome != StillTrying ==> turns > 0)
  {
    && CallRun(t, t', me, p, moments, turns, outcome, cores)
    && Bystanders(t, t', me, moments, cores)
    && Deserved(t, me, p, moments, turns, outcome, cores)
    && InTime(timeout, start, moments, if outcome == StillTrying then turns else turns - 1)
  }

  lemma TurnGoesOn(t: seq<Step>, u: seq<Step>, v: seq<Step>, me: nat, p: Peripheral, timeout: word, start: nat,
                   moments: seq<Moment>, turns: nat, outcome: Outcome, cores: nat)
    requires turns < |moments| && CallSoFar(t, u, me, p, timeout, start, moments, turns, StillTrying, cores)
    requires TurnRun(u, v, me, p, moments[turns], outcome, cores) && Bystanders(u, v, me, moments, cores)
    requires outcome == StillTrying ==> !Expired(timeout, moments[turns].now, start)
    ensures CallSoFar(t, v, me, p, timeout, start, moments, turns + 1, outcome, cores)
  {
    RunGoesOn(t, u, v, me, p, moments, turns, outcome, cores);
    DeservedNext(t, u, v, me, p, moments, turns, outcome, cores);
    BystandersTwice(t, u, v, me, moments, cores);
    if outcome == StillTrying {
      InTimeNext(timeout, start, moments, turns);
    }
  }

  lemma RunGoesOn(t: seq<Step>, u: seq<Step>, v: seq<Step>, me: nat, p: Peripheral, moments: seq<Moment>,
                  turns: nat, outcome: Outcome, cores: nat)
    requires turns < |moments| && CallRun(t, u, me, p, moments, turns, StillTrying, cores)
    requires TurnRun(u, v, me, p, moments[turns], outcome, cores)
    ensures CallRun(t, v, me, p, moments, turns + 1, outcome, cores)
  {
    WaitedNext(t, me, p, moments, turns, cores);
  }

  /** Nobody else has the semaphore, and nobody acts before the first take. */
  ghost predicate Quiet(t: seq<Step>, me: nat, p: Peripheral, moments: seq<Moment>, cores: nat) {
    moments != [] && moments[0].before == [] && !TakenByOther(t, me, Index(p), cores)
  }

  /** Then that take gets it. */
  lemma QuietCallSucceeds(t: seq<Step>, t': seq<Step>, me: nat, p: Peripheral, timeout: word, start: nat,
                          moments: seq<Moment>, turns: nat, outcome: Outcome, cores: nat)
    requires Exec(t + [Step(Call, me, p)], cores).Some? && turns <= |moments| && (outcome != StillTrying ==> turns > 0)
    requires outcome == StillTrying ==> turns == |moments|
    requires CallSoFar(t, t', me, p, timeout, start, moments, turns, outcome, cores)
    ensures Quiet(t, me, p, moments, cores) ==> outcome == ReturnsOk && turns == 1
  {
    if Quiet(t, me, p, moments, cores) {
      CallTakesNothing(t, me, p, moments, cores);
    }
  }

  class Cores {
    const cores: nat
    var owner: seq<Option<nat>>
    var phase: seq<Phase>
    ghost var trace: seq<Step>

    ghost function View(): State
      reads this
    {
      State(owner, phase)
    }

    ghost predicate Valid()
      reads this
    {
      Exec(trace, cores) == Some(View())
    }

    constructor (n: nat)
      ensures Valid() && trace == [] && cores == n && View() == Start(n)
    {
      cores := n;
      owner, phase := seq(32, _ => None), seq(n, _ => Idle);
      trace := [];
    }

    /** A step of some core, if it can be taken. */
    method Perform(a: Step) returns (taken: bool)
      requires Valid()
      modifies this
      ensures Valid() && taken == Next(old(View()), a).Some?
      ensures if taken then Some(View()) == Next(old(View()), a) && trace == old(trace) + [a]
              else View() == old(View()) && trace == old(trace)
    {
      var next := Next(State(owner, phase), a);
      taken := next.Some?;
      if taken {
        ExecAppend(trace, a, cores);
        owner, phase := next.value.owner, next.value.phase;
        trace := trace + [a];
      }
    }

    /** Where a turn of `Periph_Lock` that looks at the time `now` leaves core `me`: returned as
        the owner, halted because the time was truly up, or still inside the call. */
    ghost predicate Ended(outcome: Outcome, me: nat, p: Peripheral, timeout: word, start: nat, now: nat)
      requires Valid() && me < cores && Index(p) <= HSEM_SEMID_MAX
      reads this
    {
      match outcome
      case ReturnsOk => Holds(trace, me, Index(p)) && owner[Index(p)] == Some(me) && phase[me] == Idle
      case Halts => phase[me] == Halted && Expired(timeout, now, start) && (timeout == 0 || now - start > timeout)
      case StillTrying => phase[me] == Trying(p)
    }

    /** The other cores act. */
    method OthersRun(others: seq<Step>)
      requires Valid()
      modifies this
      ensures Valid() && trace == AfterAll(old(trace), others, cores) && old(trace) <= trace
      ensures forall c: nat :: NotBy(c, others) ==> LeftAlone(old(trace), trace, c, cores)
      ensures forall c: nat :: c < cores && NotBy(c, others) ==> phase[c] == old(phase)[c]
    {
      for i := 0 to |others|
        invariant Valid() && trace == AfterAll(old(trace), others[..i], cores)
      {
        assert others[..i + 1][..i] == others[..i];
        var taken := Perform(others[i]);
      }
      assert others[..|others|] == others;
      AllLeftAlone(old(trace), others, cores, old(View()), View());
    }

    /** Other cores act, and then `HAL_HSEM_FastTake`. */
    method FastTake(me: nat, p: Peripheral, m: Moment, ghost moments: seq<Moment>) returns (ok: bool)
      requires Valid() && me < cores && phase[me] == Trying(p) && Index(p) <= HSEM_SEMID_MAX
      requires NotBy(me, m.before) && m in moments
      modifies this
      ensures Valid() && phase[me] == if ok then Won(p) else Refused(p)
      ensures ok <==> !TakenByOther(AfterAll(old(trace), m.before, cores), me, Index(p), cores)
      ensures trace == Asked(old(trace), me, p, m, cores) && PhaseOf(trace, me, cores) == Some(phase[me])
      ensures Bystanders(old(trace), trace, me, moments, cores)
    {
      OthersRun(m.before);
      OthersSteps(old(trace), m.before, me, m, moments, cores);
      ghost var before := trace;
      TakeRefusedIff(trace, cores, me, p);
      var taken := Perform(Step(Take, me, p));
      OwnStep(before, Step(Take, me, p), moments, cores);
      BystandersTwice(old(trace), before, trace, me, moments, cores);
      return phase[me] == Won(p);
    }

    /** A refused core looks at the time, after others have acted, and halts in
        `Error_Handler` or tries again. */
    method CheckTime(me: nat, p: Peripheral, timeout: word, start: nat, m: Moment, ghost moments: seq<Moment>) returns (up: bool)
      requires Valid() && me < cores && phase[me] == Refused(p) && Index(p) <= HSEM_SEMID_MAX
      requires Possible(me, start, m) && m in moments
      modifies this
      ensures Valid() && up == Expired(timeout, m.now, start)
      ensures phase[me] == if up then Halted else Trying(p)
      ensures up ==> timeout == 0 || m.now - start > timeout
      ensures trace == AfterAll(old(trace), m.between, cores) + [Step(if up then GiveUp else Retry, me, p)]
      ensures Bystanders(old(trace), trace, me, moments, cores)
    {
      OthersRun(m.between);
      OthersSteps(old(trace), m.between, me, m, moments, cores);
      ghost var before := trace;
      ExpiredMeansTimeIsUp(timeout, m.now, start);
      up := Expired(timeout, m.now, start);
      var taken := Perform(Step(if up then GiveUp else Retry, me, p));
      OwnStep(before, Step(if up then GiveUp else Retry, me, p), moments, cores);
      BystandersTwice(old(trace), before, trace, me, moments, cores);
    }

    /** One turn of the loop of `Periph_Lock`. */
    method Turn(me: nat, p: Peripheral, timeout: word, start: nat, m: Moment, ghost moments: seq<Moment>) returns (outcome: Outcome)
      requires Valid() && me < cores && phase[me] == Trying(p) && Index(p) <= HSEM_SEMID_MAX
      requires Possible(me, start, m) && m in moments
      modifies this
      ensures Valid() && TurnRun(old(trace), trace, me, p, m, outcome, cores)
      ensures Bystanders(old(trace), trace, me, moments, cores)
      ensures Ended(outcome, me, p, timeout, start, m.now)
      ensures outcome == StillTrying ==> !Expired(timeout, m.now, start)
    {
      var ok := FastTake(me, p, m, moments);
      ghost var before := trace;
      if ok {
        ReturnOk(me, p, moments);
        outcome := ReturnsOk;
      } else {
        var up := CheckTime(me, p, timeout, start, m, moments);
        outcome := if up then Halts else StillTrying;
      }
      BystandersTwice(old(trace), before, trace, me, moments, cores);
    }

    method Begin(me: nat, p: Peripheral, ghost moments: seq<Moment>)
      requires Valid() && me < cores && phase[me] == Idle && Index(p) <= HSEM_SEMID_MAX
      modifies this
      ensures Valid() && phase[me] == Trying(p) && trace == old(trace) + [Step(Call, me, p)]
      ensures Exec(old(trace) + [Step(Call, me, p)], cores).Some?
      ensures Bystanders(old(trace), trace, me, moments, cores)
    {
      var taken := Perform(Step(Call, me, p));
      OwnStep(old(trace), Step(Call, me, p), moments, cores);
    }

    method ReturnOk(me: nat, p: Peripheral, ghost moments: seq<Moment>)
      requires Valid() && me < cores && phase[me] == Won(p) && Index(p) <= HSEM_SEMID_MAX
      modifies this
      ensures Valid() && phase[me] == Idle && Holds(trace, me, Index(p)) && owner[Index(p)] == Some(me)
      ensures trace == old(trace) + [Step(Return, me, p)]
      ensures Bystanders(old(trace), trace, me, moments, cores)
    {
      var taken := Perform(Step(Return, me, p));
      HolderOwns(trace, cores, me, Index(p));
      OwnStep(old(trace), Step(Return, me, p), moments, cores);
    }

    /** `Periph_Lock`.  It returns only `OK`, and only as the owner.  It stops in
        `Error_Handler` only when the take of that turn was refused and the time was then
        up, which means that no waiting was wanted or that truly more than `timeout` ticks
        had passed; and every turn before the last was refused in time.  `turns` counts the
        turns.  A core that no turn lets act is where it was and holds what it held; and if
        nobody else has the semaphore the first turn gets it, with any time-out. */
    method Lock(me: nat, p: Peripheral, timeout: word, start: nat, moments: seq<Moment>) returns (outcome: Outcome, turns: nat)
      requires Valid() && me < cores && phase[me] == Idle && Index(p) <= HSEM_SEMID_MAX
      requires forall m :: m in moments ==> Possible(me, start, m)
      modifies this
      ensures Valid() && turns <= |moments| && (outcome != StillTrying ==> turns > 0)
      ensures CallSoFar(old(trace), trace, me, p, timeout, start, moments, turns, outcome, cores)
      ensures Ended(outcome, me, p, timeout, start, if turns == 0 then start else moments[turns - 1].now)
      ensures outcome == StillTrying ==> turns == |moments|
      ensures Quiet(old(trace), me, p, moments, cores) ==> outcome == ReturnsOk && turns == 1
    {
      turns, outcome := 0, StillTrying;
      Begin(me, p, moments);
      while turns < |moments| && outcome == StillTrying
        invariant Valid() && turns <= |moments| && (outcome != StillTrying ==> turns > 0)
        invariant CallSoFar(old(trace), trace, me, p, timeout, start, moments, turns, outcome, cores)
        invariant Ended(outcome, me, p, timeout, start, if turns == 0 then start else moments[turns - 1].now)
        decreases |moments| - turns
      {
        ghost var before := trace;
        assert Possible(me, start, moments[turns]);
        outcome := Turn(me, p, timeout, start, moments[turns], moments);
        TurnGoesOn(old(trace), before, trace, me, p, timeout, start, moments, turns, outcome, cores);
        turns := turns + 1;
      }
      QuietCallSucceeds(old(trace), trace, me, p, timeout, start, moments, turns, outcome, cores);
    }

    /** `Periph_Unlock`. */
    method UnlockPeripheral(me: nat, p: Peripheral)
      requires Valid() && me < cores && phase[me] == Idle && Index(p) <= HSEM_SEMID_MAX
      modifies this
      ensures Valid() && trace == old(trace) + [Step(Unlock, me, p)]
      ensures !Holds(trace, me, Index(p)) && phase == old(phase)
      ensures owner == old(owner)[Index(p) := if old(owner)[Index(p)] == Some(me) then None else old(owner)[Index(p)]]
      ensures Bystanders(old(trace), trace, me, [], cores)
    {
      var taken := Perform(Step(Unlock, me, p));
      OwnStep(old(trace), Step(Unlock, me, p), [], cores);
    }
  }
}
