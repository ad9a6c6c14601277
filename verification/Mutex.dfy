/** The three-state futex mutex of src/pthread.c as interleaved atomic steps.

    Every thread runs pthread_mutex_lock, trylock and unlock in any order; each step is
    one access to the shared words or one futex call.  The futex is the one src/futex.h
    describes: a wait parks its thread only while the word still holds the expected value,
    and a wake unparks one waiter if there is any.
 */
module Mutex {

  type Tid = t: int | 0 < t witness 1

  /** Where a thread stands inside the three functions; `Out` is outside all of them. */
  datatype Pc =
    | Out
    | LockOwner | LockLoad | LockCas | Slow | Promote | Wait | Parked | SetOwner
    | TryOwner | TryCas
    | UnlockOwner | UnlockClear | UnlockSwap | Waking

  /** The mutex.  `word` is the futex word: 0 free, 1 held, 2 held with waiters.  `owner`
      and `count` belong to a recursive mutex; `owner` is 0 when nobody is recorded. */
  datatype Shared = Shared(word: int, owner: int, count: int)

  /** A thread: where it is, and how often it holds the mutex (successful locks and
      trylocks minus unlocks), which only the statements refer to. */
  datatype Thread = Thread(pc: Pc, depth: nat)

  datatype State = State(sh: Shared, th: map<Tid, Thread>)

  function Th(s: State, t: Tid): Thread {
    if t in s.th then s.th[t] else Thread(Out, 0)
  }

  /** Having taken the word over, a recursive mutex still has to record its owner. */
  function Acquired(rec: bool): Thread {
    Thread(if rec then SetOwner else Out, 1)
  }

  /** The first step of each of the three functions.  Only a holder may unlock a normal
      mutex. */
  predicate Enters(rec: bool, depth: nat, p: Pc) {
    if rec then p.LockOwner? || p.TryOwner? || p.UnlockOwner?
    else p.LockLoad? || p.TryCas? || (p.UnlockSwap? && depth > 0)
  }

  /** A step of thread `t` on the mutex and on its own state, other than a wake. */
  ghost predicate Local(rec: bool, t: Tid, m: Shared, a: Thread, m': Shared, a': Thread) {
    match a.pc
    case Out => m' == m && a'.depth == a.depth && Enters(rec, a.depth, a'.pc)
    case LockOwner =>
      if m.owner == t then m' == m.(count := m.count + 1) && a' == Thread(Out, a.depth + 1)
      else m' == m && a' == a.(pc := LockLoad)
    case LockLoad => m' == m && a' == a.(pc := if m.word == 0 then LockCas else Slow)
    case LockCas =>
      if m.word == 0 then m' == m.(word := 1) && a' == Acquired(rec) else m' == m && a' == a.(pc := Slow)
    case Slow =>
      if m.word == 0 then m' == m.(word := 2) && a' == Acquired(rec)
      else m' == m && a' == a.(pc := if m.word == 1 then Promote else Wait)
    case Promote => m' == (if m.word == 1 then m.(word := 2) else m) && a' == a.(pc := Wait)
    case Wait =>
      // queued only if the word still holds 2; an early return goes round again
      m' == m && (a' == a.(pc := Slow) || (m.word == 2 && a' == a.(pc := Parked)))
    case Parked => m' == m && a' == a.(pc := Slow)
    case SetOwner => m' == m.(owner := t, count := 1) && a' == a.(pc := Out)
    case TryOwner =>
      if m.owner == t then m' == m.(count := m.count + 1) && a' == Thread(Out, a.depth + 1)
      else m' == m && a' == a.(pc := TryCas)
    case TryCas =>
      if m.word == 0 then m' == m.(word := 1) && a' == Acquired(rec) else m' == m && a' == a.(pc := Out)
    case UnlockOwner =>
      if m.owner != t then m' == m && a' == a.(pc := Out)
      else if m.count > 1 then m' == m.(count := m.count - 1) && a'.pc == Out && a'.depth == a.depth - 1
      else m' == m && a' == a.(pc := UnlockClear)
    case UnlockClear => m' == m.(owner := 0, count := 0) && a' == a.(pc := UnlockSwap)
    case UnlockSwap =>
      m' == m.(word := 0) && a'.pc == (if m.word == 2 then Waking else Out) && a'.depth == a.depth - 1
    case Waking => false
  }

  /** FUTEX_WAKE of one waiter: `u` is unparked, or nobody is parked. */
  ghost predicate Wakes(s: State, t: Tid, s': State) {
    var done := s.th[t := Th(s, t).(pc := Out)];
    || (exists u: Tid :: Th(s, u).pc.Parked? && s' == State(s.sh, done[u := Th(s, u).(pc := Slow)]))
    || ((forall u: Tid :: !Th(s, u).pc.Parked?) && s' == State(s.sh, done))
  }

  ghost predicate Step(rec: bool, s: State, t: Tid, s': State) {
    if Th(s, t).pc.Waking? then Wakes(s, t, s')
    else Local(rec, t, s.sh, Th(s, t), s'.sh, Th(s', t)) && s'.th == s.th[t := Th(s', t)]
  }

  /** pthread_mutex_init, with every thread outside. */
  const INIT: State := State(Shared(0, 0, 0), map[])

  ghost predicate IsRun(rec: bool, run: seq<State>) {
    && |run| > 0 && run[0] == INIT
    && forall i | 0 <= i < |run| - 1 :: Next(rec, run[i], run[i + 1])
  }

  ghost predicate Next(rec: bool, s: State, s': State) {
    exists t: Tid :: Step(rec, s, t, s')
  }

  // ----- the invariant -----

  predicate Critical(p: Pc) {
    p.SetOwner? || p.UnlockClear? || p.UnlockSwap?
  }

  predicate OwnerPc(p: Pc) {
    p.LockOwner? || p.TryOwner? || p.SetOwner? || p.UnlockOwner? || p.UnlockClear?
  }

  /** Between taking the word and recording the owner, or clearing the owner and giving
      the word back. */
  predicate Unrecorded(p: Pc) {
    p.SetOwner? || p.UnlockSwap?
  }

  /** Awake in the slow path: such a thread looks at the word again before it sleeps. */
  predicate Awake(p: Pc) {
    p.Slow? || p.Promote? || p.Wait?
  }

  /** What holds of each thread by itself.  A recursive mutex records its holder and how
      often it is held, and its holder never gets as far as waiting for it. */
  ghost predicate ThreadInv(rec: bool, m: Shared, t: Tid, a: Thread) {
    && (m.word == 0 ==> a.depth == 0)
    && (Critical(a.pc) ==> a.depth == 1)
    && (!rec ==> a.depth <= 1 && !OwnerPc(a.pc))
    && (rec ==>
          && (m.word == 0 ==> m.owner == 0)
          && (a.depth > 0 && !Unrecorded(a.pc) ==> m.owner == t && m.count == a.depth)
          && (a.depth > 0 ==> a.pc.Out? || a.pc.UnlockSwap? || OwnerPc(a.pc))
          && (Unrecorded(a.pc) ==> m.owner == 0)
          && (m.owner == t ==> a.depth > 0))
  }

  ghost predicate Threads(rec: bool, s: State) {
    forall t: Tid :: ThreadInv(rec, s.sh, t, Th(s, t))
  }

  /** At most one thread holds the mutex. */
  ghost predicate Exclusive(s: State) {
    forall t: Tid, u: Tid :: Th(s, t).depth > 0 && Th(s, u).depth > 0 ==> t == u
  }

  /** A mutex that is not free has a holder. */
  ghost predicate HasHolder(s: State) {
    s.sh.word != 0 ==> exists t: Tid :: Th(s, t).depth > 0
  }

  /** No lost wakeup: if somebody sleeps although the word does not say so, a wake is still
      owed or some thread is awake in the slow path. */
  ghost predicate WakeInv(s: State) {
    (exists t: Tid :: Th(s, t).pc.Parked?) && s.sh.word != 2 ==>
      exists u: Tid :: Th(s, u).pc.Waking? || Awake(Th(s, u).pc)
  }

  ghost predicate Inv(rec: bool, s: State) {
    0 <= s.sh.word <= 2 && Threads(rec, s) && Exclusive(s) && HasHolder(s) && WakeInv(s)
  }

  // ----- one step -----

  lemma LocalOwn(rec: bool, t: Tid, m: Shared, a: Thread, m': Shared, a': Thread)
    requires 0 <= m.word <= 2 && ThreadInv(rec, m, t, a) && Local(rec, t, m, a, m', a')
    ensures 0 <= m'.word <= 2 && ThreadInv(rec, m', t, a')
    ensures a'.depth > 0 && a.depth == 0 ==> m.word == 0
    ensures m.word == 0 && m'.word != 0 ==> a'.depth > 0
    ensures m'.word != 0 && a.depth > 0 ==> a'.depth > 0
  {
  }

  lemma LocalOther(rec: bool, t: Tid, m: Shared, a: Thread, m': Shared, a': Thread, u: Tid, b: Thread)
    requires 0 <= m.word <= 2 && ThreadInv(rec, m, t, a) && Local(rec, t, m, a, m', a')
    requires t != u && ThreadInv(rec, m, u, b) && !(a.depth > 0 && b.depth > 0)
    ensures ThreadInv(rec, m', u, b)
    ensures !(a'.depth > 0 && b.depth > 0)
  {
  }

  lemma LocalStep(rec: bool, s: State, t: Tid, s': State)
    requires Inv(rec, s) && Step(rec, s, t, s') && !Th(s, t).pc.Waking?
    ensures Inv(rec, s')
  {
    var a, a' := Th(s, t), Th(s', t);
    assert forall u: Tid | u != t :: Th(s', u) == Th(s, u);
    LocalOwn(rec, t, s.sh, a, s'.sh, a');
    forall u: Tid | u != t
      ensures ThreadInv(rec, s'.sh, u, Th(s', u)) && !(a'.depth > 0 && Th(s', u).depth > 0)
    {
      LocalOther(rec, t, s.sh, a, s'.sh, a', u, Th(s, u));
    }
    if s'.sh.word != 0 && s.sh.word != 0 {
      var h: Tid :| Th(s, h).depth > 0;
      assert Th(s', h).depth > 0;
    }
    LocalWake(rec, s, t, s');
  }

  lemma LocalWake(rec: bool, s: State, t: Tid, s': State)
    requires Inv(rec, s) && Step(rec, s, t, s') && !Th(s, t).pc.Waking?
    ensures WakeInv(s')
  {
    if v: Tid :| Th(s', v).pc.Parked? && s'.sh.word != 2 {
      assert Th(s, v).pc.Parked?;
      if s.sh.word == 2 {
        assert Th(s', t).pc.Waking?;
      } else {
        var w: Tid :| Th(s, w).pc.Waking? || Awake(Th(s, w).pc);
        assert Th(s', w).pc.Waking? || Awake(Th(s', w).pc);
      }
    }
  }

  lemma WakeThreads(rec: bool, s: State, t: Tid, s': State)
    requires Inv(rec, s) && Step(rec, s, t, s') && Th(s, t).pc.Waking?
    ensures forall u: Tid :: Th(s', u).depth == Th(s, u).depth && ThreadInv(rec, s'.sh, u, Th(s', u))
  {
    forall u: Tid
      ensures Th(s', u).depth == Th(s, u).depth && ThreadInv(rec, s'.sh, u, Th(s', u))
    {
      assert ThreadInv(rec, s.sh, u, Th(s, u));
    }
  }

  lemma WakeStep(rec: bool, s: State, t: Tid, s': State)
    requires Inv(rec, s) && Step(rec, s, t, s') && Th(s, t).pc.Waking?
    ensures Inv(rec, s')
  {
    WakeThreads(rec, s, t, s');
    WakeWakes(rec, s, t, s');
    assert s'.sh == s.sh;
    hide ThreadInv, Step, WakeInv;
    if h: Tid :| Th(s, h).depth > 0 {
      assert Th(s', h).depth > 0;
    }
  }

  lemma WakeWakes(rec: bool, s: State, t: Tid, s': State)
    requires Step(rec, s, t, s') && Th(s, t).pc.Waking?
    ensures WakeInv(s')
  {
    if v: Tid :| Th(s, v).pc.Parked? {
      var u: Tid :| && Th(s, u).pc.Parked?
                    && s' == State(s.sh, s.th[t := Th(s, t).(pc := Out)][u := Th(s, u).(pc := Slow)]);
      assert Awake(Th(s', u).pc);
    } else {
      assert forall v: Tid | v != t :: Th(s', v) == Th(s, v);
    }
  }

  lemma {:induction false} RunInv(rec: bool, run: seq<State>, i: nat)
    requires IsRun(rec, run) && i < |run|
    ensures Inv(rec, run[i])
  {
    if i > 0 {
      RunInv(rec, run, i - 1);
      assert Next(rec, run[i - 1], run[i]);
      var t: Tid :| Step(rec, run[i - 1], t, run[i]);
      if Th(run[i - 1], t).pc.Waking? {
        WakeStep(rec, run[i - 1], t, run[i]);
      } else {
        LocalStep(rec, run[i - 1], t, run[i]);
      }
    }
  }

  // ----- what clients rely on -----

  /** In every state of every run at most one thread holds the mutex, and it does exactly
      when the word is not 0. */
  lemma MutualExclusion(rec: bool, run: seq<State>, i: nat, t: Tid, u: Tid)
    requires IsRun(rec, run) && i < |run|
    ensures Th(run[i], t).depth > 0 && Th(run[i], u).depth > 0 ==> t == u
    ensures run[i].sh.word != 0 <==> exists h: Tid :: Th(run[i], h).depth > 0
  {
    RunInv(rec, run, i);
    assert forall h: Tid :: ThreadInv(rec, run[i].sh, h, Th(run[i], h));
  }

  /** A recursive mutex counts: outside its calls the holder is the recorded owner, `count`
      is how often it holds the mutex, and it never waits for itself. */
  lemma RecursiveDepth(run: seq<State>, i: nat, t: Tid)
    requires IsRun(true, run) && i < |run|
    ensures Th(run[i], t).pc.Out? && Th(run[i], t).depth > 0 ==>
              run[i].sh.owner == t && run[i].sh.count == Th(run[i], t).depth
    ensures run[i].sh.owner == t ==> Th(run[i], t).depth > 0
    ensures Awake(Th(run[i], t).pc) || Th(run[i], t).pc.Parked? ==> Th(run[i], t).depth == 0
  {
    RunInv(true, run, i);
    assert ThreadInv(true, run[i].sh, t, Th(run[i], t));
  }

  ghost predicate AtRest(s: State) {
    forall t: Tid :: Th(s, t).pc.Out? || Th(s, t).pc.Parked?
  }

  /** Once no thread is inside a call except those asleep, a sleeper implies a holder and a
      word that makes that holder's unlock issue a wake. */
  lemma NobodySleepsOnAFreeMutex(rec: bool, run: seq<State>, i: nat, t: Tid)
    requires IsRun(rec, run) && i < |run| && AtRest(run[i]) && Th(run[i], t).pc.Parked?
    ensures run[i].sh.word == 2 && exists h: Tid :: Th(run[i], h).depth > 0
  {
    RunInv(rec, run, i);
    assert forall u: Tid :: !Th(run[i], u).pc.Waking? && !Awake(Th(run[i], u).pc);
  }

  /** The unlock that gives up a word of 2 owes a wake, and paying it unparks a sleeper. */
  lemma UnlockWakes(rec: bool, s: State, t: Tid, s': State, s'': State)
    requires Th(s, t).pc.UnlockSwap? && s.sh.word == 2 && Step(rec, s, t, s') && Step(rec, s', t, s'')
    requires exists u: Tid :: Th(s, u).pc.Parked?
    ensures exists u: Tid :: Th(s, u).pc.Parked? && Th(s'', u).pc.Slow?
  {
    assert Th(s', t).pc.Waking?;
    var u: Tid :| Th(s, u).pc.Parked?;
    assert Th(s', u).pc.Parked?;
    var w: Tid :| && Th(s', w).pc.Parked?
                  && s'' == State(s'.sh, s'.th[t := Th(s', t).(pc := Out)][w := Th(s', w).(pc := Slow)]);
    assert Th(s, w).pc.Parked? && Th(s'', w).pc.Slow?;
  }

  // ----- threads that run alone -----

  /** Every thread can always make a step. */
  lemma NeverStuck(rec: bool, s: State, t: Tid)
    requires Inv(rec, s)
    ensures exists s' :: Step(rec, s, t, s')
  {
    var m, a := s.sh, Th(s, t);
    assert ThreadInv(rec, m, t, a);
    if a.pc.Waking? {
      if u: Tid :| Th(s, u).pc.Parked? {
        var s' := State(m, s.th[t := a.(pc := Out)][u := Th(s, u).(pc := Slow)]);
        assert Step(rec, s, t, s');
      } else {
        assert Step(rec, s, t, State(m, s.th[t := a.(pc := Out)]));
      }
    } else {
      var m', a' := LocalExists(rec, t, m, a);
      var s' := State(m', s.th[t := a']);
      assert Th(s', t) == a';
      assert Step(rec, s, t, s');
    }
  }

  lemma LocalExists(rec: bool, t: Tid, m: Shared, a: Thread) returns (m': Shared, a': Thread)
    requires ThreadInv(rec, m, t, a) && !a.pc.Waking?
    ensures Local(rec, t, m, a, m', a')
  {
    m', a' := m, a;
    match a.pc
    case Out => a' := a.(pc := if rec then LockOwner else LockLoad);
    case LockOwner =>
      if m.owner == t { m', a' := m.(count := m.count + 1), Thread(Out, a.depth + 1); }
      else { a' := a.(pc := LockLoad); }
    case LockLoad => a' := a.(pc := if m.word == 0 then LockCas else Slow);
    case LockCas =>
      if m.word == 0 { m', a' := m.(word := 1), Acquired(rec); } else { a' := a.(pc := Slow); }
    case Slow =>
      if m.word == 0 { m', a' := m.(word := 2), Acquired(rec); }
      else { a' := a.(pc := if m.word == 1 then Promote else Wait); }
    case Promote => m', a' := if m.word == 1 then m.(word := 2) else m, a.(pc := Wait);
    case Wait => a' := a.(pc := Slow);
    case Parked => a' := a.(pc := Slow);
    case SetOwner => m', a' := m.(owner := t, count := 1), a.(pc := Out);
    case TryOwner =>
      if m.owner == t { m', a' := m.(count := m.count + 1), Thread(Out, a.depth + 1); }
      else { a' := a.(pc := TryCas); }
    case TryCas =>
      if m.word == 0 { m', a' := m.(word := 1), Acquired(rec); } else { a' := a.(pc := Out); }
    case UnlockOwner =>
      if m.owner != t { a' := a.(pc := Out); }
      else if m.count > 1 { m', a' := m.(count := m.count - 1), Thread(Out, a.depth - 1); }
      else { a' := a.(pc := UnlockClear); }
    case UnlockClear => m', a' := m.(owner := 0, count := 0), a.(pc := UnlockSwap);
    case UnlockSwap => m', a' := m.(word := 0), Thread(if m.word == 2 then Waking else Out, a.depth - 1);
  }

  /** Steps of one thread only. */
  ghost predicate Alone(rec: bool, t: Tid, ss: seq<State>) {
    |ss| > 0 && Inv(rec, ss[0]) && forall i | 0 <= i < |ss| - 1 :: Step(rec, ss[i], t, ss[i + 1])
  }

  lemma AloneStep(rec: bool, t: Tid, ss: seq<State>)
    requires Alone(rec, t, ss) && |ss| > 1
    ensures Alone(rec, t, ss[1..]) && Step(rec, ss[0], t, ss[1])
  {
    if Th(ss[0], t).pc.Waking? { WakeStep(rec, ss[0], t, ss[1]); } else { LocalStep(rec, ss[0], t, ss[1]); }
    assert forall i | 0 <= i < |ss[1..]| :: ss[1..][i] == ss[i + 1];
  }

  /** The steps that are left to a thread on its way into a free mutex, fast path or slow. */
  function LockLeft(p: Pc): nat {
    match p
    case LockOwner => 4
    case LockLoad => 3
    case LockCas => 2
    case Promote => 4
    case Wait => 3
    case Parked => 3
    case Slow => 2
    case SetOwner => 1
    case _ => 0
  }

  /** A thread in lock that runs alone while the word is 0 holds the mutex after at most four steps. */
  lemma {:induction false} LockAlone(rec: bool, t: Tid, ss: seq<State>)
    requires Alone(rec, t, ss)
    requires var p := Th(ss[0], t).pc; LockLeft(p) > 0 && |ss| > LockLeft(p) && (ss[0].sh.word == 0 || p.SetOwner?)
    ensures exists k :: 0 < k <= LockLeft(Th(ss[0], t).pc) && Th(ss[k], t) == Thread(Out, 1) && ss[k].sh.word != 0
    decreases LockLeft(Th(ss[0], t).pc)
  {
    AloneStep(rec, t, ss);
    assert ThreadInv(rec, ss[0].sh, t, Th(ss[0], t)) && ThreadInv(rec, ss[1].sh, t, Th(ss[1], t));
    if Th(ss[1], t).pc.Out? {
      assert Th(ss[1], t) == Thread(Out, 1) && ss[1].sh.word != 0;
    } else {
      LockAlone(rec, t, ss[1..]);
      var k :| 0 < k <= LockLeft(Th(ss[1], t).pc) && Th(ss[1..][k], t) == Thread(Out, 1) && ss[1..][k].sh.word != 0;
      assert ss[1..][k] == ss[k + 1];
    }
  }

  function TryLeft(p: Pc): nat {
    match p
    case TryOwner => 3
    case TryCas => 2
    case SetOwner => 1
    case _ => 0
  }

  /** A trylock on a free mutex takes it, in at most three steps. */
  lemma {:induction false} TrylockTakes(rec: bool, t: Tid, ss: seq<State>)
    requires Alone(rec, t, ss)
    requires var p := Th(ss[0], t).pc; TryLeft(p) > 0 && |ss| > TryLeft(p) && (ss[0].sh.word == 0 || p.SetOwner?)
    ensures exists k :: 0 < k <= TryLeft(Th(ss[0], t).pc) && Th(ss[k], t) == Thread(Out, 1) && ss[k].sh.word != 0
    decreases TryLeft(Th(ss[0], t).pc)
  {
    AloneStep(rec, t, ss);
    assert ThreadInv(rec, ss[0].sh, t, Th(ss[0], t)) && ThreadInv(rec, ss[1].sh, t, Th(ss[1], t));
    if Th(ss[1], t).pc.Out? {
      assert Th(ss[1], t) == Thread(Out, 1) && ss[1].sh.word != 0;
    } else {
      TrylockTakes(rec, t, ss[1..]);
      var k :| 0 < k <= TryLeft(Th(ss[1], t).pc) && Th(ss[1..][k], t) == Thread(Out, 1) && ss[1..][k].sh.word != 0;
      assert ss[1..][k] == ss[k + 1];
    }
  }

  /** On a mutex that is held it changes nothing, unless the mutex is recursive and held by the caller:
      then it is held once more. */
  lemma TrylockOnHeld(rec: bool, t: Tid, ss: seq<State>)
    requires Alone(rec, t, ss) && |ss| == 3 && ss[0].sh.word != 0
    requires Th(ss[0], t).pc == if rec then TryOwner else TryCas
    ensures var a, k := Th(ss[0], t), if rec && Th(ss[0], t).depth == 0 then 2 else 1;
            if rec && a.depth > 0 then
              Th(ss[k], t) == Thread(Out, a.depth + 1) && ss[k].sh == ss[0].sh.(count := a.depth + 1)
            else Th(ss[k], t) == Thread(Out, a.depth) && ss[k].sh == ss[0].sh
  {
    AloneStep(rec, t, ss);
    assert ThreadInv(rec, ss[0].sh, t, Th(ss[0], t));
    assert Step(rec, ss[1], t, ss[2]);
  }

  function UnlockLeft(p: Pc): nat {
    match p
    case UnlockOwner => 4
    case UnlockClear => 3
    case UnlockSwap => 2
    case Waking => 1
    case _ => 0
  }

  /** The last unlock of a holder frees the mutex, in at most four steps. */
  lemma {:induction false} UnlockFrees(rec: bool, t: Tid, ss: seq<State>)
    requires Alone(rec, t, ss)
    requires var a := Th(ss[0], t);
             && UnlockLeft(a.pc) > 0 && |ss| > UnlockLeft(a.pc)
             && if a.pc.Waking? then a.depth == 0 && ss[0].sh.word == 0 else a.depth == 1
    ensures exists k :: 0 < k <= UnlockLeft(Th(ss[0], t).pc) && Th(ss[k], t) == Thread(Out, 0) && ss[k].sh.word == 0
    decreases UnlockLeft(Th(ss[0], t).pc)
  {
    AloneStep(rec, t, ss);
    assert ThreadInv(rec, ss[0].sh, t, Th(ss[0], t)) && ThreadInv(rec, ss[1].sh, t, Th(ss[1], t));
    if Th(ss[1], t).pc.Out? {
      assert Th(ss[1], t) == Thread(Out, 0) && ss[1].sh.word == 0;
    } else {
      UnlockFrees(rec, t, ss[1..]);
      var k :| 0 < k <= UnlockLeft(Th(ss[1], t).pc) && Th(ss[1..][k], t) == Thread(Out, 0) && ss[1..][k].sh.word == 0;
      assert ss[1..][k] == ss[k + 1];
    }
  }

  /** An unlock of a recursive mutex that is held more than once takes one off, and one by another thread
      changes nothing. */
  lemma UnlockCounts(t: Tid, s: State, s': State)
    requires Inv(true, s) && Th(s, t).pc.UnlockOwner? && Th(s, t).depth != 1 && Step(true, s, t, s')
    ensures var d := Th(s, t).depth;
            if d == 0 then Th(s', t) == Thread(Out, 0) && s'.sh == s.sh
            else Th(s', t) == Thread(Out, d - 1) && s'.sh == s.sh.(count := d - 1)
  {
    assert ThreadInv(true, s.sh, t, Th(s, t));
  }
}
