/** pthread_once of src/pthread.c as interleaved atomic steps over the futex of src/futex.h. */
module Once {

  type Tid = t: int | 0 < t witness 1

  /** Where a thread stands: outside; about to load the word, to exchange it, inside the routine,
      about to store, about to wake all; about to look again, to wait, asleep; back from the call. */
  datatype Pc = Out | Load | Cas | Running | Store | Waking | Check | Wait | Parked | Back

  /** The word, and for the statements how often the routine was begun and ended. */
  datatype Shared = Shared(done: int, begun: nat, ended: nat)

  datatype State = State(sh: Shared, th: map<Tid, Pc>)

  function Th(s: State, t: Tid): Pc {
    if t in s.th then s.th[t] else Out
  }

  ghost predicate Local(m: Shared, a: Pc, m': Shared, a': Pc) {
    match a
    case Out => m' == m && a' == Load
    case Load => m' == m && a' == if m.done == 2 then Back else Cas
    case Cas =>
      if m.done == 0 then m' == m.(done := 1, begun := m.begun + 1) && a' == Running else m' == m && a' == Check
    case Running => m' == m.(ended := m.ended + 1) && a' == Store
    case Store => m' == m.(done := 2) && a' == Waking
    case Waking => false
    case Check => m' == m && a' == if m.done == 2 then Back else Wait
    case Wait => m' == m && (a' == Check || (m.done == 1 && a' == Parked))
    case Parked => m' == m && a' == Check
    case Back => m' == m && a' == Load
  }

  /** FUTEX_WAKE of all waiters. */
  ghost predicate WakesAll(s: State, t: Tid, s': State) {
    s' == State(s.sh, map u | u in s.th :: if u == t then Back else if s.th[u].Parked? then Check else s.th[u])
  }

  ghost predicate Step(s: State, t: Tid, s': State) {
    if Th(s, t).Waking? then WakesAll(s, t, s')
    else Local(s.sh, Th(s, t), s'.sh, Th(s', t)) && s'.th == s.th[t := Th(s', t)]
  }

  ghost predicate Next(s: State, s': State) {
    exists t: Tid :: Step(s, t, s')
  }

  ghost predicate IsRun(run: seq<State>) {
    && |run| > 0 && run[0] == State(Shared(0, 0, 0), map[])
    && forall i | 0 <= i < |run| - 1 :: Next(run[i], run[i + 1])
  }

  // ----- the invariant -----

  predicate Chosen(p: Pc) {
    p.Running? || p.Store?
  }

  /** The word says how far the routine is, and whether a thread is at it. */
  ghost predicate WordInv(s: State) {
    && 0 <= s.sh.done <= 2
    && (s.sh.done == 0 ==> s.sh.begun == 0)
    && (s.sh.done > 0 ==> s.sh.begun == 1)
    && (s.sh.done == 2 ==> s.sh.ended == 1)
    && (s.sh.begun == 0 ==> s.sh.ended == 0)
    && (s.sh.done == 1 <==> exists t: Tid :: Chosen(Th(s, t)))
  }

  ghost predicate Threads(s: State) {
    forall t: Tid ::
      && (Th(s, t).Running? ==> s.sh.ended == 0)
      && (Th(s, t).Store? ==> s.sh.ended == 1)
      && (Th(s, t).Waking? || Th(s, t).Back? ==> s.sh.done == 2)
      && (Th(s, t).Check? || Th(s, t).Wait? || Th(s, t).Parked? ==> s.sh.done > 0)
  }

  ghost predicate OneChosen(s: State) {
    forall t: Tid, u: Tid :: Chosen(Th(s, t)) && Chosen(Th(s, u)) ==> t == u
  }

  /** Whoever sleeps though the routine has ended is owed a wake. */
  ghost predicate WakeInv(s: State) {
    (exists t: Tid :: Th(s, t).Parked?) && s.sh.done == 2 ==> exists u: Tid :: Th(s, u).Waking?
  }

  ghost predicate Inv(s: State) {
    WordInv(s) && Threads(s) && OneChosen(s) && WakeInv(s)
  }

  lemma LocalStep(s: State, t: Tid, s': State)
    requires Inv(s) && Step(s, t, s') && !Th(s, t).Waking?
    ensures Inv(s')
  {
    assert forall u: Tid | u != t :: Th(s', u) == Th(s, u);
    if s'.sh.done == 1 {
      if s.sh.done == 1 {
        var c: Tid :| Chosen(Th(s, c));
        assert Chosen(Th(s', c));
      } else {
        assert Chosen(Th(s', t));
      }
    }
    if v: Tid :| Th(s', v).Parked? && s'.sh.done == 2 {
      assert Th(s, v).Parked?;
      if s.sh.done == 2 {
        var u: Tid :| Th(s, u).Waking?;
        assert Th(s', u).Waking?;
      } else {
        assert Th(s', t).Waking?;
      }
    }
  }

  lemma WakeStep(s: State, t: Tid, s': State)
    requires Inv(s) && Step(s, t, s') && Th(s, t).Waking?
    ensures Inv(s')
  {
    assert s.sh.done == 2 && s'.sh == s.sh;
    forall u: Tid
      ensures !Th(s', u).Parked? && Chosen(Th(s', u)) == Chosen(Th(s, u))
      ensures Th(s', u) == Th(s, u) || Th(s', u).Back? || Th(s', u).Check?
    {
    }
  }

  lemma {:induction false} RunInv(run: seq<State>, i: nat)
    requires IsRun(run) && i < |run|
    ensures Inv(run[i])
  {
    if i > 0 {
      RunInv(run, i - 1);
      assert Next(run[i - 1], run[i]);
      var t: Tid :| Step(run[i - 1], t, run[i]);
      if Th(run[i - 1], t).Waking? {
        WakeStep(run[i - 1], t, run[i]);
      } else {
        LocalStep(run[i - 1], t, run[i]);
      }
    }
  }

  // ----- what clients rely on -----

  /** In every state of every run the routine was begun at most once, and a thread that is back from
      its call finds it ended. */
  lemma RunsOnce(run: seq<State>, i: nat, t: Tid)
    requires IsRun(run) && i < |run|
    ensures run[i].sh.ended <= run[i].sh.begun <= 1
    ensures Th(run[i], t).Back? ==> run[i].sh.ended == 1
  {
    RunInv(run, i);
    var s := run[i];
    if s.sh.done == 1 {
      var c: Tid :| Chosen(Th(s, c));
    }
  }

  /** Unless a thread is in the routine or on its way out of it, nobody sleeps. */
  lemma NobodySleepsForGood(run: seq<State>, i: nat, t: Tid)
    requires IsRun(run) && i < |run| && Th(run[i], t).Parked?
    ensures exists u: Tid :: Chosen(Th(run[i], u)) || Th(run[i], u).Waking?
  {
    RunInv(run, i);
  }

  // ----- threads that run alone -----

  ghost predicate Alone(t: Tid, ss: seq<State>) {
    |ss| > 0 && Inv(ss[0]) && forall i | 0 <= i < |ss| - 1 :: Step(ss[i], t, ss[i + 1])
  }

  lemma AloneStep(t: Tid, ss: seq<State>)
    requires Alone(t, ss) && |ss| > 1
    ensures Alone(t, ss[1..]) && Step(ss[0], t, ss[1])
  {
    if Th(ss[0], t).Waking? { WakeStep(ss[0], t, ss[1]); } else { LocalStep(ss[0], t, ss[1]); }
    assert forall i | 0 <= i < |ss[1..]| :: ss[1..][i] == ss[i + 1];
  }

  /** The steps left to a thread that the routine does not keep waiting. */
  function Left(p: Pc): nat {
    match p
    case Out => 6
    case Load => 5
    case Cas => 4
    case Running => 3
    case Store => 2
    case Waking => 1
    case Parked => 4
    case Wait => 4
    case Check => 3
    case Back => 0
  }

  /** A thread that finds the routine not begun, or ended, or is at it itself, is back after at most six
      steps of its own, and then the routine has ended. */
  lemma {:induction false} ReturnsAlone(t: Tid, ss: seq<State>)
    requires Alone(t, ss) && |ss| > Left(Th(ss[0], t)) && !Th(ss[0], t).Back?
    requires ss[0].sh.done != 1 || Chosen(Th(ss[0], t))
    ensures exists k :: 0 < k <= Left(Th(ss[0], t)) && Th(ss[k], t).Back? && ss[k].sh.ended == 1
    decreases Left(Th(ss[0], t))
  {
    AloneStep(t, ss);
    if Th(ss[1], t).Back? {
      assert ss[1].sh.done == 2 && ss[1].sh.ended == 1;
    } else {
      ReturnsAlone(t, ss[1..]);
      var k :| 0 < k <= Left(Th(ss[1], t)) && Th(ss[1..][k], t).Back? && ss[1..][k].sh.ended == 1;
      assert ss[1..][k] == ss[k + 1];
    }
  }

  /** Every thread can always make a step. */
  lemma NeverStuck(s: State, t: Tid)
    ensures exists s' :: Step(s, t, s')
  {
    var m := s.sh;
    if Th(s, t).Waking? {
      var th := map u | u in s.th :: if u == t then Back else if s.th[u].Parked? then Check else s.th[u];
      assert Step(s, t, State(m, th));
    } else {
      var m', p := LocalExists(m, Th(s, t));
      var s' := State(m', s.th[t := p]);
      assert Th(s', t) == p;
      assert Step(s, t, s');
    }
  }

  lemma LocalExists(m: Shared, a: Pc) returns (m': Shared, p: Pc)
    requires !a.Waking?
    ensures Local(m, a, m', p)
  {
    m' := m;
    match a
    case Out => p := Load;
    case Load => p := if m.done == 2 then Back else Cas;
    case Cas =>
      if m.done == 0 { m', p := m.(done := 1, begun := m.begun + 1), Running; } else { p := Check; }
    case Running => m', p := m.(ended := m.ended + 1), Store;
    case Store => m', p := m.(done := 2), Waking;
    case Check => p := if m.done == 2 then Back else Wait;
    case Wait => p := Check;
    case Parked => p := Check;
    case Back => p := Load;
  }
}
