/** The counting semaphore of src/semaphore.c as interleaved atomic steps over the futex
    of src/futex.h. */
module Semaphore {

  type Tid = t: int | 0 < t witness 1

  /** sem_wait, sem_timedwait and sem_trywait share their decrement loop. */
  datatype Kind = Blocking | Timed | Try

  /** Where a thread stands: outside; about to load the count; about to exchange the value
      `c` it has seen; about to look at the clock; about to sleep; asleep; about to wake a
      waiter after a post. */
  datatype Pc =
    | Out
    | Load(k: Kind)
    | Cas(k: Kind, c: int)
    | Clock
    | Sleep(k: Kind)
    | Parked(k: Kind)
    | Waking

  /** The count, and for the statements how many posts and successful waits there were. */
  datatype Shared = Shared(count: int, posts: nat, takes: nat)

  datatype State = State(sh: Shared, th: map<Tid, Pc>)

  function Th(s: State, t: Tid): Pc {
    if t in s.th then s.th[t] else Out
  }

  /** Where a thread goes when it has found the count at 0. */
  function Refused(k: Kind): Pc {
    match k
    case Blocking => Sleep(Blocking)
    case Timed => Clock
    case Try => Out
  }

  /** A step on the semaphore and on the thread's own state, other than a wake. */
  ghost predicate Local(m: Shared, a: Pc, m': Shared, a': Pc) {
    match a
    case Out =>
      || (m' == m && a'.Load?)
      || (m' == m.(count := m.count + 1, posts := m.posts + 1) && a' == Waking)
    case Load(k) => m' == m && a' == if m.count > 0 then Cas(k, m.count) else Refused(k)
    case Cas(k, c) =>
      if m.count == c then m' == m.(count := c - 1, takes := m.takes + 1) && a' == Out
      else m' == m && a' == if m.count > 0 then Cas(k, m.count) else Refused(k)
    case Clock => m' == m && (a' == Out || a' == Sleep(Timed))
    case Sleep(k) =>
      // queued only if the count is still 0; otherwise round again, or an error
      m' == m && ((m.count == 0 && a' == Parked(k)) || a' == Load(k) || a' == Out)
    case Parked(k) =>
      // interrupted, timed out, or back early
      m' == m && (a' == Out || a' == Load(k))
    case Waking => false
  }

  /** FUTEX_WAKE of one waiter: `u` is unparked and tries again, or nobody is parked. */
  ghost predicate Wakes(s: State, t: Tid, s': State) {
    || (exists u: Tid :: Th(s, u).Parked? && s' == State(s.sh, s.th[t := Out][u := Load(Th(s, u).k)]))
    || ((forall u: Tid :: !Th(s, u).Parked?) && s' == State(s.sh, s.th[t := Out]))
  }

  ghost predicate Step(s: State, t: Tid, s': State) {
    if Th(s, t).Waking? then Wakes(s, t, s')
    else Local(s.sh, Th(s, t), s'.sh, Th(s', t)) && s'.th == s.th[t := Th(s', t)]
  }

  ghost predicate Next(s: State, s': State) {
    exists t: Tid :: Step(s, t, s')
  }

  /** sem_init with a value that fits an int. */
  function Init(value: nat): State {
    State(Shared(value, 0, 0), map[])
  }

  ghost predicate IsRun(value: nat, run: seq<State>) {
    && |run| > 0 && run[0] == Init(value)
    && forall i | 0 <= i < |run| - 1 :: Next(run[i], run[i + 1])
  }

  // ----- the invariant -----

  /** The thread owes a wake, or is awake and has not yet found the count at 0. */
  predicate Hopeful(p: Pc) {
    p.Waking? || p.Load? || p.Cas?
  }

  ghost function Hope(s: State): set<Tid> {
    set t | t in s.th && Hopeful(s.th[t])
  }

  ghost predicate Balanced(value: nat, s: State) {
    s.sh.count == value + s.sh.posts - s.sh.takes && s.sh.count >= 0
  }

  ghost predicate Seen(s: State) {
    forall t: Tid :: Th(s, t).Cas? ==> Th(s, t).c > 0
  }

  /** No lost wakeup: while somebody sleeps, every unit of the count is spoken for by an
      owed wake or by a thread that will still look at it. */
  ghost predicate WakeInv(s: State) {
    (exists t: Tid :: Th(s, t).Parked?) ==> s.sh.count <= |Hope(s)|
  }

  ghost predicate Inv(value: nat, s: State) {
    Balanced(value, s) && Seen(s) && WakeInv(s)
  }

  // ----- one step -----

  lemma HopeUpdate(s: State, t: Tid, m: Shared, p: Pc)
    ensures var s' := State(m, s.th[t := p]);
            |Hope(s')| == |Hope(s)| - (if Hopeful(Th(s, t)) then 1 else 0) + (if Hopeful(p) then 1 else 0)
  {
    var s' := State(m, s.th[t := p]);
    var rest := Hope(s) - {t};
    assert Hope(s) == if Hopeful(Th(s, t)) then rest + {t} else rest;
    assert Hope(s') == if Hopeful(p) then rest + {t} else rest;
  }

  lemma LocalStep(value: nat, s: State, t: Tid, s': State)
    requires Inv(value, s) && Step(s, t, s') && !Th(s, t).Waking?
    ensures Inv(value, s')
  {
    assert s' == State(s'.sh, s.th[t := Th(s', t)]);
    HopeUpdate(s, t, s'.sh, Th(s', t));
    assert forall u: Tid | u != t :: Th(s', u) == Th(s, u);
  }

  lemma WakeStep(value: nat, s: State, t: Tid, s': State)
    requires Inv(value, s) && Step(s, t, s') && Th(s, t).Waking?
    ensures Inv(value, s')
  {
    assert s'.sh == s.sh;
    assert forall u: Tid :: Th(s', u) == Th(s, u) || Th(s', u).Out? || Th(s', u).Load?;
    if v: Tid :| Th(s, v).Parked? {
      var u: Tid :| Th(s, u).Parked? && s' == State(s.sh, s.th[t := Out][u := Load(Th(s, u).k)]);
      var mid := State(s.sh, s.th[t := Out]);
      HopeUpdate(s, t, s.sh, Out);
      HopeUpdate(mid, u, s.sh, Load(Th(s, u).k));
    }
  }

  lemma {:induction false} RunInv(value: nat, run: seq<State>, i: nat)
    requires IsRun(value, run) && i < |run|
    ensures Inv(value, run[i])
  {
    if i > 0 {
      RunInv(value, run, i - 1);
      assert Next(run[i - 1], run[i]);
      var t: Tid :| Step(run[i - 1], t, run[i]);
      if Th(run[i - 1], t).Waking? {
        WakeStep(value, run[i - 1], t, run[i]);
      } else {
        LocalStep(value, run[i - 1], t, run[i]);
      }
    }
  }

  // ----- what clients rely on -----

  /** In every state of every run the count is the initial value plus the posts minus the
      successful waits, and never negative: no more waits succeed than there were units. */
  lemma CountConserved(value: nat, run: seq<State>, i: nat)
    requires IsRun(value, run) && i < |run|
    ensures run[i].sh.count == value + run[i].sh.posts - run[i].sh.takes
    ensures run[i].sh.takes <= value + run[i].sh.posts
  {
    RunInv(value, run, i);
  }

  /** While anybody sleeps, the count is at most the wakes owed plus the threads that have
      yet to look at it. */
  lemma NoLostWakeup(value: nat, run: seq<State>, i: nat, t: Tid)
    requires IsRun(value, run) && i < |run| && Th(run[i], t).Parked?
    ensures run[i].sh.count <= |Hope(run[i])|
  {
    RunInv(value, run, i);
  }

  /** Once every thread is outside or asleep, nobody sleeps on a positive count. */
  lemma NobodySleepsOnAUnit(value: nat, run: seq<State>, i: nat, t: Tid)
    requires IsRun(value, run) && i < |run| && Th(run[i], t).Parked?
    requires forall u: Tid :: Th(run[i], u).Out? || Th(run[i], u).Parked?
    ensures run[i].sh.count == 0
  {
    RunInv(value, run, i);
    var s := run[i];
    forall u: Tid
      ensures u !in Hope(s)
    {
      assert Th(s, u).Out? || Th(s, u).Parked?;
    }
    assert Hope(s) == {};
  }

  // ----- threads that run alone -----

  /** Every thread can always make a step. */
  lemma NeverStuck(s: State, t: Tid)
    ensures exists s' :: Step(s, t, s')
  {
    var m := s.sh;
    if Th(s, t).Waking? {
      if u: Tid :| Th(s, u).Parked? {
        assert Step(s, t, State(m, s.th[t := Out][u := Load(Th(s, u).k)]));
      } else {
        assert Step(s, t, State(m, s.th[t := Out]));
      }
    } else {
      var m', p := LocalExists(m, Th(s, t));
      var s' := State(m', s.th[t := p]);
      assert Th(s', t) == p;
      assert Step(s, t, s');
    }
  }

  lemma LocalExists(m: Shared, a: Pc) returns (m': Shared, p: Pc)
    requires !a.Waking?
    ensures Local(m, a, m', p)
  {
    m' := m;
    match a
    case Out => p := Load(Try);
    case Load(k) => p := if m.count > 0 then Cas(k, m.count) else Refused(k);
    case Cas(k, c) =>
      if m.count == c { m', p := m.(count := c - 1, takes := m.takes + 1), Out; }
      else { p := if m.count > 0 then Cas(k, m.count) else Refused(k); }
    case Clock => p := Out;
    case Sleep(k) => p := Load(k);
    case Parked(k) => p := Load(k);
  }

  /** The three waits of a thread that runs alone on a positive count take a unit, in at most two steps
      from the load or from a failed exchange. */
  lemma TakesAlone(value: nat, s: State, t: Tid, s': State, s'': State)
    requires Inv(value, s) && s.sh.count > 0 && (Th(s, t).Load? || Th(s, t).Cas?)
    requires Step(s, t, s') && Step(s', t, s'')
    ensures var r := if Th(s', t).Out? then s' else s'';
            Th(r, t).Out? && r.sh == s.sh.(count := s.sh.count - 1, takes := s.sh.takes + 1)
  {
    LocalStep(value, s, t, s');
  }

  /** On a count of 0 a trywait gives up and changes nothing, and the others go to look at the clock or to
      sleep. */
  lemma RefusedOnZero(s: State, t: Tid, s': State)
    requires s.sh.count == 0 && Th(s, t).Load? && Step(s, t, s')
    ensures s'.sh == s.sh
    ensures match Th(s, t).k
            case Try => Th(s', t).Out?
            case Blocking => Th(s', t) == Sleep(Blocking)
            case Timed => Th(s', t).Clock?
  {
  }

  /** A sleep on a positive count does not come about. */
  lemma NoSleepOnUnits(s: State, t: Tid, s': State)
    requires s.sh.count > 0 && Th(s, t).Sleep? && Step(s, t, s')
    ensures !Th(s', t).Parked?
  {
  }

  /** A post adds a unit and goes on to wake. */
  lemma PostAdds(s: State, t: Tid, s': State)
    requires Th(s, t).Out? && Step(s, t, s') && Th(s', t).Waking?
    ensures s'.sh.count == s.sh.count + 1 && s'.sh.posts == s.sh.posts + 1
  {
  }
}
