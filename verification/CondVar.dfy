/** The condition variable of src/pthread.c in the use it is made for, as interleaved atomic steps.

    Producers lock the mutex, add an item, and signal or broadcast before or after they unlock.
    Consumers lock it and wait on the condition variable as long as there is no item.  The mutex
    is the one `Mutex` is about, taken as a lock with one holder; the futex is that of
    src/futex.h, which says nothing about the order in which waiters are woken.
 */
module CondVar {

  type Tid = t: int | 0 < t witness 1

  const WORD: nat := 0x1_0000_0000

  /** Where a thread stands.  A consumer: about to lock; about to look, woken or not; about to call
      wait; with the sequence word `v` loaded after `c` signals, before and after it unlocks; asleep;
      about to lock again; about to unlock and go.  A producer: about to lock; about to add; with its
      signal to send; with its wake to make. */
  datatype Pc =
    | Out
    | Enter
    | Look(woken: bool)
    | Call
    | Loaded(v: int, c: nat)
    | Waiting(v: int, c: nat)
    | Parked(c: nat)
    | Relock(woken: bool)
    | Leave
    | Want
    | Adding
    | Added
    | Waking(all: bool)

  /** The items, the signals and broadcasts so far (the word is their number modulo 2^32), and the
      holder of the mutex, or 0. */
  datatype Shared = Shared(items: nat, sigs: nat, holder: int)

  datatype State = State(sh: Shared, th: map<Tid, Pc>)

  function Th(s: State, t: Tid): Pc {
    if t in s.th then s.th[t] else Out
  }

  /** A step of thread `t` other than a wake. */
  ghost predicate Local(t: Tid, m: Shared, a: Pc, m': Shared, a': Pc) {
    match a
    case Out => (m' == m && (a'.Enter? || a'.Want?)) || (m' == m.(sigs := m.sigs + 1) && a'.Waking?)
    case Enter => m.holder == 0 && m' == m.(holder := t) && a' == Look(false)
    case Look(_) =>
      if m.items > 0 then m' == m.(items := m.items - 1) && a' == Leave else m' == m && a' == Call
    case Call => m' == m && a' == Loaded(m.sigs % WORD, m.sigs)
    case Loaded(v, c) => m' == m.(holder := 0) && a' == Waiting(v, c)
    case Waiting(v, c) =>
      // queued only if the word is still the one loaded; otherwise, or interrupted, back at once
      m' == m && ((m.sigs % WORD == v && a' == Parked(c)) || a' == Relock(false))
    case Parked(_) => m' == m && a' == Relock(false)
    case Relock(woken) =>
      // a wait that was interrupted or timed out may be given up
      m.holder == 0 && m' == m.(holder := t) && (a' == Look(woken) || (!woken && a' == Leave))
    case Leave => m' == m.(holder := 0) && a' == Out
    case Want => m.holder == 0 && m' == m.(holder := t) && a' == Adding
    case Adding => m' == m.(items := m.items + 1) && a' == Added
    case Added =>
      || (m.holder == t && m' == m.(holder := 0) && a' == a)
      || (m' == m.(sigs := m.sigs + 1) && a'.Waking?)
    case Waking(_) => m.holder == t && m' == m.(holder := 0) && a' == a
  }

  /** Behind its wake a thread that still holds the mutex has to unlock. */
  function Woke(s: State, t: Tid): Pc {
    if s.sh.holder == t then Leave else Out
  }

  /** FUTEX_WAKE of one waiter, if there is any, or of all. */
  ghost predicate Wakes(s: State, t: Tid, s': State) {
    && Th(s, t).Waking? && s'.sh == s.sh
    && if Th(s, t).all then
         s'.th == map u | u in s.th :: if u == t then Woke(s, t) else if s.th[u].Parked? then Relock(true) else s.th[u]
       else
         || (exists u: Tid :: Th(s, u).Parked? && s'.th == s.th[t := Woke(s, t)][u := Relock(true)])
         || ((forall u: Tid :: !Th(s, u).Parked?) && s'.th == s.th[t := Woke(s, t)])
  }

  ghost predicate Moves(s: State, t: Tid, s': State) {
    Local(t, s.sh, Th(s, t), s'.sh, Th(s', t)) && s'.th == s.th[t := Th(s', t)]
  }

  ghost predicate Step(s: State, t: Tid, s': State) {
    Moves(s, t, s') || Wakes(s, t, s')
  }

  ghost predicate Next(s: State, s': State) {
    exists t: Tid :: Step(s, t, s')
  }

  /** pthread_cond_init and pthread_mutex_init, with no item and every thread outside. */
  const INIT: State := State(Shared(0, 0, 0), map[])

  ghost predicate IsRun(run: seq<State>) {
    && |run| > 0 && run[0] == INIT
    && forall i | 0 <= i < |run| - 1 :: Next(run[i], run[i + 1])
  }

  /** No waiter is overtaken by 2^32 signals between its load and its sleep. */
  ghost predicate Close(s: State) {
    forall t: Tid :: Th(s, t).Waiting? ==> s.sh.sigs - Th(s, t).c < WORD
  }

  // ----- the invariant -----

  predicate Inside(p: Pc) {
    p.Look? || p.Call? || p.Loaded? || p.Leave? || p.Adding?
  }

  /** Asleep or on the way there, with no signal since the thread looked at the word. */
  predicate Asleep(p: Pc, sigs: nat) {
    (p.Loaded? || p.Waiting? || p.Parked?) && p.c == sigs
  }

  /** An item is in, and its signal is still to be sent. */
  ghost function Unsent(s: State): set<Tid> {
    set t | t in s.th && s.th[t].Added?
  }

  /** The thread owes a signal or a wake, or has been woken and will look. */
  predicate Hopeful(p: Pc) {
    p.Added? || p.Waking? || (p.Relock? && p.woken) || (p.Look? && p.woken)
  }

  ghost function Hope(s: State): set<Tid> {
    set t | t in s.th && Hopeful(s.th[t])
  }

  ghost predicate ThreadInv(m: Shared, t: Tid, p: Pc) {
    && (Inside(p) ==> m.holder == t)
    && (p.Call? || p.Loaded? ==> m.items == 0)
    && (p.Loaded? || p.Waiting? ==> p.c <= m.sigs && p.v == p.c % WORD)
    && (p.Parked? ==> p.c <= m.sigs)
  }

  ghost predicate Threads(s: State) {
    forall t: Tid :: ThreadInv(s.sh, t, Th(s, t))
  }

  /** Since the last signal no item came in but those whose signal is still to be sent, if anyone
      has gone to sleep since. */
  ghost predicate FreshInv(s: State) {
    (exists t: Tid :: Asleep(Th(s, t), s.sh.sigs)) ==> s.sh.items <= |Unsent(s)|
  }

  /** While somebody sleeps every item is spoken for. */
  ghost predicate WakeInv(s: State) {
    (exists t: Tid :: Th(s, t).Parked?) ==> s.sh.items <= |Hope(s)|
  }

  ghost predicate Inv(s: State) {
    Threads(s) && FreshInv(s) && WakeInv(s)
  }

  // ----- one step -----

  /** Sets that differ in `t` at most. */
  lemma SizesDiffer(a: set<Tid>, b: set<Tid>, t: Tid)
    requires forall u: Tid | u != t :: u in a <==> u in b
    ensures |b| == |a| - (if t in a then 1 else 0) + (if t in b then 1 else 0)
  {
    var rest := a - {t};
    assert rest == b - {t};
    assert a == if t in a then rest + {t} else rest;
    assert b == if t in b then rest + {t} else rest;
  }

  lemma HopeUpdate(s: State, t: Tid, m: Shared, p: Pc)
    ensures var s' := State(m, s.th[t := p]);
            |Hope(s')| == |Hope(s)| - (if Hopeful(Th(s, t)) then 1 else 0) + (if Hopeful(p) then 1 else 0)
  {
    SizesDiffer(Hope(s), Hope(State(m, s.th[t := p])), t);
  }

  lemma UnsentUpdate(s: State, t: Tid, m: Shared, p: Pc)
    ensures var s' := State(m, s.th[t := p]);
            |Unsent(s')| == |Unsent(s)| - (if Th(s, t).Added? then 1 else 0) + (if p.Added? then 1 else 0)
  {
    SizesDiffer(Unsent(s), Unsent(State(m, s.th[t := p])), t);
  }

  lemma UnsentAreHopeful(s: State)
    ensures |Unsent(s)| <= |Hope(s)|
  {
    assert Unsent(s) <= Hope(s);
    Smaller(Unsent(s), Hope(s));
  }

  lemma Smaller(a: set<Tid>, b: set<Tid>)
    requires a <= b
    ensures |a| <= |b|
  {
    assert b == a + (b - a);
  }

  lemma LocalThreads(s: State, t: Tid, s': State)
    requires Threads(s) && Moves(s, t, s')
    ensures Threads(s')
  {
    assert ThreadInv(s.sh, t, Th(s, t));
    forall u: Tid
      ensures ThreadInv(s'.sh, u, Th(s', u))
    {
      assert ThreadInv(s.sh, u, Th(s, u));
      if u != t {
        assert Th(s', u) == Th(s, u);
      }
    }
  }

  lemma LocalFresh(s: State, t: Tid, s': State)
    requires Inv(s) && Moves(s, t, s')
    ensures FreshInv(s')
  {
    assert s' == State(s'.sh, s.th[t := Th(s', t)]);
    UnsentUpdate(s, t, s'.sh, Th(s', t));
    if w: Tid :| Asleep(Th(s', w), s'.sh.sigs) {
      assert ThreadInv(s.sh, w, Th(s, w)) && ThreadInv(s.sh, t, Th(s, t));
      if s'.sh.sigs == s.sh.sigs && !Th(s, t).Call? {
        assert Asleep(Th(s, w), s.sh.sigs);
      }
    }
  }

  /** A thread parks only if there was no signal since it looked at the word. */
  lemma ParksFresh(s: State, t: Tid, s': State)
    requires Threads(s) && Close(s) && Moves(s, t, s') && Th(s', t).Parked?
    ensures Asleep(Th(s, t), s.sh.sigs)
  {
    assert ThreadInv(s.sh, t, Th(s, t));
    assert Th(s, t).Waiting?;
    SameResidue(Th(s, t).c, s.sh.sigs);
  }

  lemma SameResidue(c: nat, n: nat)
    requires c <= n < c + WORD && c % WORD == n % WORD
    ensures c == n
  {
  }

  lemma LocalWake(s: State, t: Tid, s': State)
    requires Inv(s) && Close(s) && Moves(s, t, s')
    ensures WakeInv(s')
  {
    assert s' == State(s'.sh, s.th[t := Th(s', t)]);
    HopeUpdate(s, t, s'.sh, Th(s', t));
    if w: Tid :| Th(s', w).Parked? {
      if Th(s', t).Parked? {
        ParksFresh(s, t, s');
        UnsentAreHopeful(s);
      } else {
        assert Th(s, w).Parked?;
      }
    }
  }

  lemma LocalStep(s: State, t: Tid, s': State)
    requires Inv(s) && Close(s) && Moves(s, t, s')
    ensures Inv(s')
  {
    LocalThreads(s, t, s');
    LocalFresh(s, t, s');
    LocalWake(s, t, s');
  }

  lemma WakeStep(s: State, t: Tid, s': State)
    requires Inv(s) && Wakes(s, t, s')
    ensures Inv(s')
  {
    assert ThreadInv(s.sh, t, Th(s, t));
    forall u: Tid
      ensures Th(s', u) == Th(s, u) || (u == t && !Th(s', u).Added?) || (Th(s, u).Parked? && Th(s', u) == Relock(true))
      ensures ThreadInv(s'.sh, u, Th(s', u))
    {
      assert ThreadInv(s.sh, u, Th(s, u));
    }
    assert Unsent(s') == Unsent(s);
    if w: Tid :| Asleep(Th(s', w), s'.sh.sigs) {
      assert Asleep(Th(s, w), s.sh.sigs);
    }
    WakeHope(s, t, s');
  }

  lemma WakeHope(s: State, t: Tid, s': State)
    requires WakeInv(s) && Wakes(s, t, s')
    ensures WakeInv(s')
  {
    if w: Tid :| Th(s', w).Parked? {
      assert Th(s, w).Parked?;
      var u: Tid :| Th(s, u).Parked? && s'.th == s.th[t := Woke(s, t)][u := Relock(true)];
      var mid := State(s.sh, s.th[t := Woke(s, t)]);
      HopeUpdate(s, t, s.sh, Woke(s, t));
      HopeUpdate(mid, u, s.sh, Relock(true));
      assert s' == State(s.sh, mid.th[u := Relock(true)]);
    }
  }

  lemma {:induction false} RunInv(run: seq<State>, i: nat)
    requires IsRun(run) && i < |run| && forall j | 0 <= j < i :: Close(run[j])
    ensures Inv(run[i])
  {
    if i > 0 {
      RunInv(run, i - 1);
      assert Next(run[i - 1], run[i]);
      var t: Tid :| Step(run[i - 1], t, run[i]);
      if Wakes(run[i - 1], t, run[i]) {
        WakeStep(run[i - 1], t, run[i]);
      } else {
        LocalStep(run[i - 1], t, run[i]);
      }
    }
  }

  // ----- what clients rely on -----

  /** While anybody sleeps the items are at most the signals and wakes owed plus the consumers woken
      that have yet to look, whichever waiters the wakes pick. */
  lemma NoLostSignal(run: seq<State>, i: nat, t: Tid)
    requires IsRun(run) && i < |run| && (forall j | 0 <= j < i :: Close(run[j])) && Th(run[i], t).Parked?
    ensures run[i].sh.items <= |Hope(run[i])|
  {
    RunInv(run, i);
  }

  /** Once every thread is outside or asleep nobody sleeps while there is an item. */
  lemma NobodySleepsOnAnItem(run: seq<State>, i: nat, t: Tid)
    requires IsRun(run) && i < |run| && (forall j | 0 <= j < i :: Close(run[j])) && Th(run[i], t).Parked?
    requires forall u: Tid :: Th(run[i], u).Out? || Th(run[i], u).Parked?
    ensures run[i].sh.items == 0
  {
    RunInv(run, i);
    var s := run[i];
    forall u: Tid
      ensures u !in Hope(s)
    {
      assert Th(s, u).Out? || Th(s, u).Parked?;
    }
    assert Hope(s) == {};
  }

  /** A waiter can go to sleep if and only if the signals since its load are a multiple of 2^32: any
      smaller number of them keeps it awake. */
  lemma SignalKeepsAwake(run: seq<State>, i: nat, t: Tid)
    requires IsRun(run) && i < |run| && (forall j | 0 <= j < i :: Close(run[j])) && Th(run[i], t).Waiting?
    ensures (exists s' :: Step(run[i], t, s') && Th(s', t).Parked?) <==> (run[i].sh.sigs - Th(run[i], t).c) % WORD == 0
  {
    RunInv(run, i);
    var s, p := run[i], Th(run[i], t);
    assert ThreadInv(s.sh, t, p);
    Residues(p.c, s.sh.sigs);
    if s.sh.sigs % WORD == p.v {
      var s' := State(s.sh, s.th[t := Parked(p.c)]);
      assert Th(s', t) == Parked(p.c);
      assert Moves(s, t, s');
    }
  }

  lemma Residues(c: nat, n: nat)
    requires c <= n
    ensures (n - c) % WORD == 0 <==> n % WORD == c % WORD
  {
  }

  lemma WakeAllWakes(s: State, t: Tid, s': State, u: Tid)
    requires Th(s, t) == Waking(true) && Wakes(s, t, s')
    ensures !Th(s', u).Parked?
  {
  }

  /** A thread asleep behind a step was asleep before it, or has gone to sleep in it. */
  lemma SleptBefore(s: State, v: Tid, s': State, u: Tid)
    requires Step(s, v, s') && Th(s', u).Parked? && Th(s', u) != Th(s, u)
    ensures v == u && Moves(s, u, s')
  {
  }

  lemma FallsAsleep(s: State, u: Tid, s': State)
    requires Inv(s) && Close(s) && Moves(s, u, s') && Th(s', u).Parked?
    ensures Th(s', u).c == s.sh.sigs
  {
    ParksFresh(s, u, s');
  }

  /** Behind the wake of a broadcast nobody sleeps who looked at the word before the broadcast: its own
      signal is among those that every sleeper has seen. */
  lemma {:induction false} BroadcastReachesAll(run: seq<State>, t: Tid, j: nat, k: nat, u: Tid)
    requires IsRun(run) && j < k < |run| && forall l | 0 <= l < k :: Close(run[l])
    requires Th(run[j], t) == Waking(true) && Wakes(run[j], t, run[j + 1])
    ensures Th(run[k], u).Parked? ==> Th(run[k], u).c >= run[j].sh.sigs
  {
    hide Wakes, Close, Local, Th;
    if k == j + 1 {
      WakeAllWakes(run[j], t, run[k], u);
    } else if Th(run[k], u).Parked? {
      assert Next(run[k - 1], run[k]);
      var v: Tid :| Step(run[k - 1], v, run[k]);
      if Th(run[k - 1], u) == Th(run[k], u) {
        BroadcastReachesAll(run, t, j, k - 1, u);
      } else {
        SleptBefore(run[k - 1], v, run[k], u);
        RunInv(run, k - 1);
        FallsAsleep(run[k - 1], u, run[k]);
        SigsGrow(run, j, k - 1);
      }
    }
  }

  lemma {:induction false} SigsGrow(run: seq<State>, i: nat, k: nat)
    requires IsRun(run) && i <= k < |run|
    ensures run[i].sh.sigs <= run[k].sh.sigs
    decreases k - i
  {
    if i < k {
      assert Next(run[i], run[i + 1]);
      SigsGrow(run, i + 1, k);
    }
  }

  // ----- threads that run alone -----

  ghost predicate Alone(t: Tid, ss: seq<State>) {
    |ss| > 0 && Threads(ss[0]) && forall i | 0 <= i < |ss| - 1 :: Step(ss[i], t, ss[i + 1])
  }

  lemma AloneStep(t: Tid, ss: seq<State>)
    requires Alone(t, ss) && |ss| > 1
    ensures Alone(t, ss[1..]) && Step(ss[0], t, ss[1])
  {
    var s, s' := ss[0], ss[1];
    if Moves(s, t, s') {
      LocalThreads(s, t, s');
    } else {
      forall u: Tid
        ensures ThreadInv(s'.sh, u, Th(s', u))
      {
        assert ThreadInv(s.sh, u, Th(s, u)) && ThreadInv(s.sh, t, Th(s, t));
      }
    }
    assert forall i | 0 <= i < |ss[1..]| :: ss[1..][i] == ss[i + 1];
  }

  /** A consumer that comes in, or has been woken, and runs alone with an item there takes one and is
      gone after at most three steps. */
  lemma ConsumerTakes(t: Tid, ss: seq<State>)
    requires Alone(t, ss) && |ss| == 4 && ss[0].sh.items > 0
    requires var p := Th(ss[0], t); (p.Enter? || p == Relock(true)) && ss[0].sh.holder == 0
    ensures Th(ss[3], t).Out? && ss[3].sh == ss[0].sh.(items := ss[0].sh.items - 1)
  {
    AloneStep(t, ss);
    assert Step(ss[1], t, ss[2]) && Step(ss[2], t, ss[3]);
  }

  /** A consumer that finds no item goes to sleep with the mutex released, unless it is interrupted. */
  lemma ConsumerWaits(t: Tid, ss: seq<State>)
    requires Alone(t, ss) && |ss| == 6 && ss[0].sh.items == 0 && Th(ss[0], t).Enter? && ss[0].sh.holder == 0
    ensures ss[5].sh == ss[0].sh
    ensures Th(ss[5], t) == Parked(ss[0].sh.sigs) || Th(ss[5], t) == Relock(false)
  {
    AloneStep(t, ss);
    assert Step(ss[1], t, ss[2]) && Step(ss[2], t, ss[3]) && Step(ss[3], t, ss[4]) && Step(ss[4], t, ss[5]);
  }

  /** The steps left to a producer, which may unlock before or after it signals. */
  function ProducerLeft(t: Tid, m: Shared, p: Pc): nat {
    match p
    case Want => 6
    case Adding => 5
    case Added => if m.holder == t then 4 else 3
    case Waking(_) => if m.holder == t then 3 else 2
    case Leave => 1
    case _ => 0
  }

  ghost predicate Produced(t: Tid, s: State, items: nat, sigs: nat) {
    Th(s, t).Out? && s.sh.items == items && s.sh.sigs == sigs && s.sh.holder != t
  }

  /** A producer that runs alone has added its item, signalled once and released the mutex after at most
      six steps. */
  lemma {:induction false} ProducerAdds(t: Tid, ss: seq<State>)
    requires Alone(t, ss)
    requires var p, m := Th(ss[0], t), ss[0].sh; ProducerLeft(t, m, p) > 0 && |ss| > ProducerLeft(t, m, p)
    requires Th(ss[0], t).Want? ==> ss[0].sh.holder == 0
    ensures var p, m := Th(ss[0], t), ss[0].sh;
            var items := m.items + if p.Want? || p.Adding? then 1 else 0;
            var sigs := m.sigs + if p.Want? || p.Adding? || p.Added? then 1 else 0;
            exists k :: 0 < k <= ProducerLeft(t, m, p) && Produced(t, ss[k], items, sigs)
    decreases ProducerLeft(t, ss[0].sh, Th(ss[0], t))
  {
    var p, m := Th(ss[0], t), ss[0].sh;
    var items := m.items + if p.Want? || p.Adding? then 1 else 0;
    var sigs := m.sigs + if p.Want? || p.Adding? || p.Added? then 1 else 0;
    AloneStep(t, ss);
    assert ThreadInv(m, t, p);
    if Th(ss[1], t).Out? {
      assert Produced(t, ss[1], items, sigs);
    } else {
      assert ss[1..][0] == ss[1];
      ProducerAdds(t, ss[1..]);
      var k :| 0 < k <= ProducerLeft(t, ss[1].sh, Th(ss[1], t)) && Produced(t, ss[1..][k], items, sigs);
      assert ss[1..][k] == ss[k + 1];
    }
  }

  /** A thread can make a step unless it waits for a mutex that is held. */
  lemma NeverStuck(s: State, t: Tid)
    requires var p := Th(s, t); p.Enter? || p.Relock? || p.Want? ==> s.sh.holder == 0
    ensures exists s' :: Step(s, t, s')
  {
    if Th(s, t).Waking? {
      var m := s.sh;
      if Th(s, t).all {
        var th := map u | u in s.th :: if u == t then Woke(s, t) else if s.th[u].Parked? then Relock(true) else s.th[u];
        assert Step(s, t, State(m, th));
      } else if u: Tid :| Th(s, u).Parked? {
        assert Step(s, t, State(m, s.th[t := Woke(s, t)][u := Relock(true)]));
      } else {
        assert Step(s, t, State(m, s.th[t := Woke(s, t)]));
      }
    } else {
      var m', p := LocalExists(t, s.sh, Th(s, t));
      var s' := State(m', s.th[t := p]);
      assert Th(s', t) == p;
      assert Step(s, t, s');
    }
  }

  lemma LocalExists(t: Tid, m: Shared, a: Pc) returns (m': Shared, p: Pc)
    requires !a.Waking? && (a.Enter? || a.Relock? || a.Want? ==> m.holder == 0)
    ensures Local(t, m, a, m', p)
  {
    m' := m;
    match a
    case Out => p := Enter;
    case Enter => m', p := m.(holder := t), Look(false);
    case Look(_) =>
      if m.items > 0 { m', p := m.(items := m.items - 1), Leave; } else { p := Call; }
    case Call => p := Loaded(m.sigs % WORD, m.sigs);
    case Loaded(v, c) => m', p := m.(holder := 0), Waiting(v, c);
    case Waiting(_, _) => p := Relock(false);
    case Parked(_) => p := Relock(false);
    case Relock(woken) => m', p := m.(holder := t), Look(woken);
    case Leave => m', p := m.(holder := 0), Out;
    case Want => m', p := m.(holder := t), Adding;
    case Adding => m', p := m.(items := m.items + 1), Added;
    case Added => m', p := m.(sigs := m.sigs + 1), Waking(false);
  }

  // ----- a waiter that is overtaken -----

  ghost function One(sh: Shared, a: Pc): State {
    State(sh, map[1 := a])
  }

  ghost function Two(sh: Shared, a: Pc, b: Pc): State {
    State(sh, map[1 := a, 2 := b])
  }

  /** Thread 1 looks at the word; thread 2 adds an item and signals, and then signals on and on. */
  ghost function Overtaking(i: nat): State {
    var w := Waiting(0, 0);
    if i == 0 then INIT
    else if i == 1 then One(Shared(0, 0, 0), Enter)
    else if i == 2 then One(Shared(0, 0, 1), Look(false))
    else if i == 3 then One(Shared(0, 0, 1), Call)
    else if i == 4 then One(Shared(0, 0, 1), Loaded(0, 0))
    else if i == 5 then One(Shared(0, 0, 0), w)
    else if i == 6 then Two(Shared(0, 0, 0), w, Want)
    else if i == 7 then Two(Shared(0, 0, 2), w, Adding)
    else if i == 8 then Two(Shared(1, 0, 2), w, Added)
    else if i == 9 then Two(Shared(1, 0, 0), w, Added)
    else Two(Shared(1, (i - 8) / 2, 0), w, if i % 2 == 0 then Waking(false) else Out)
  }

  lemma Arrives(i: nat)
    requires i < 5
    ensures Next(Overtaking(i), Overtaking(i + 1))
  {
    var s, s' := Overtaking(i), Overtaking(i + 1);
    assert s'.th == s.th[1 := Th(s', 1)];
    assert Step(s, 1, s');
  }

  lemma Adds(i: nat)
    requires 5 <= i < 10
    ensures Next(Overtaking(i), Overtaking(i + 1))
  {
    var s, s' := Overtaking(i), Overtaking(i + 1);
    assert s'.th == s.th[2 := Th(s', 2)];
    assert Step(s, 2, s');
  }

  lemma SignalsOn(i: nat)
    requires i >= 10
    ensures Next(Overtaking(i), Overtaking(i + 1))
  {
    var s, s' := Overtaking(i), Overtaking(i + 1);
    assert s'.th == s.th[2 := Th(s', 2)];
    if i % 2 == 0 {
      assert (i + 1 - 8) / 2 == (i - 8) / 2;
      assert Wakes(s, 2, s');
    } else {
      assert (i + 1 - 8) / 2 == (i - 8) / 2 + 1;
      assert Moves(s, 2, s');
    }
    assert Step(s, 2, s');
  }

  /** A run in which 2^32 signals come between a waiter's look at the word and its wait: it sleeps,
      with an item there and nobody else inside. */
  lemma OvertakenWaiterSleeps() returns (run: seq<State>)
    ensures IsRun(run) && |run| > 2 && !Close(run[|run| - 2])
    ensures var s := run[|run| - 1];
            && s.sh.items == 1 && s.sh.sigs == WORD && Th(s, 1).Parked?
            && forall u: Tid | u != 1 :: Th(s, u).Out?
  {
    hide Overtaking, Next;
    var n := 2 * WORD + 9;
    var last := Two(Shared(1, WORD, 0), Parked(0), Out);
    run := seq(n + 2, i requires 0 <= i => if i <= n then Overtaking(i) else last);
    forall i | 0 <= i < n
      ensures Next(run[i], run[i + 1])
    {
      if i < 5 { Arrives(i); } else if i < 10 { Adds(i); } else { SignalsOn(i); }
    }
    Parks(n, last);
    Starts();
    assert run[n + 1] == last && run[n] == Overtaking(n) && run[0] == Overtaking(0);
  }

  lemma Starts()
    ensures Overtaking(0) == INIT
  {
  }

  lemma Parks(n: nat, last: State)
    requires n == 2 * WORD + 9 && last == Two(Shared(1, WORD, 0), Parked(0), Out)
    ensures Next(Overtaking(n), last) && !Close(Overtaking(n))
  {
    var s := Overtaking(n);
    assert s == Two(Shared(1, WORD, 0), Waiting(0, 0), Out) by { assert (n - 8) / 2 == WORD; }
    assert last.th == s.th[1 := Parked(0)];
    assert Step(s, 1, last);
    assert Th(s, 1).Waiting?;
  }
}
