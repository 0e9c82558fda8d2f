/** What the queued spinlock can still do.  MutualExclusion and its neighbours say what never
    happens; here are the steps that get a thread in and out, and exactly when some
    continuation frees the lock. */
module SpinlockProgress {
  import opened Spinlock

  // ----- a thread on its own -----

  predicate CanBegin(s: State, t: nat) { t != 0 && (t in s.pcs ==> s.pcs[t] == Released) }

  /** A free lock: three steps take it by the fast path and release it, and nothing else has
      changed. */
  lemma FastCycle(s: State, t: nat)
    requires Inv(s) && s.lock == FREE && CanBegin(s, t)
    ensures var s2 := Step(Step(s, t, false), t, false); var s3 := Step(s2, t, false);
      && s2.pcs == s.pcs[t := Holding] && s2.fast == t && s2.lock == LOCKED
      && s3.pcs == s.pcs[t := Released] && s3.fast == 0 && s3.lock == FREE && s3.queue == []
  {
    assert t in s.pcs ==> s.pcs[t := Ready][t := Holding] == s.pcs[t := Holding];
    var s1 := Step(s, t, false);
    assert s1 == Begin(s, t);
    assert s1.pcs[t := Holding] == s.pcs[t := Holding] && s.pcs[t := Holding][t := Released] == s.pcs[t := Released];
    assert |s.queue| > 0 ==> s.lock.locked;
    var s2 := Step(s1, t, false);
    assert s2 == Goto(s1, t, Holding).(lock := LOCKED, fast := t);
  }

  /** The same after a spurious failure of the fast path: four steps take it through the
      queue. */
  lemma QueuedAcquire(s: State, t: nat)
    requires Inv(s) && s.lock == FREE && CanBegin(s, t)
    ensures var s4 := Step(Step(Step(Step(s, t, false), t, true), t, false), t, false);
      && s4.pcs == s.pcs[t := Holding] && s4.queue == [t] && s4.fast == 0 && s4.lock == Word(t, true)
      && s4.grants == s.grants + [t] && s4.exchanges == s.exchanges + [t]
  {
    assert |s.queue| > 0 ==> s.lock.locked;
    var s1 := Step(s, t, false);
    assert s1 == Begin(s, t);
    var s2 := Step(s1, t, true);
    assert s2 == Goto(s1, t, Clearing) && s2.pcs == s.pcs[t := Clearing];
    var s3 := Step(s2, t, false);
    assert s3 == Clear(s2, t) && s3.pcs == s.pcs[t := Exchanging];
  }

  /** An owner that nobody queues behind releases in two steps; a spurious failure in the
      second changes nothing at all. */
  lemma SoleOwnerReleases(s: State, t: nat, weak: bool)
    requires Inv(s) && s.queue == [t] && s.fast == 0 && t in s.pcs && Critical(s.pcs[t])
    ensures s.pcs[t] == Holding || s.pcs[t] == Unqueueing(Word(t, true))
    ensures s.pcs[t] == Holding ==> Step(s, t, weak) == Goto(s, t, Unqueueing(Word(t, true)))
    ensures s.pcs[t] != Holding ==> Step(s, t, true) == s
    ensures s.pcs[t] != Holding ==> Step(s, t, false) == Goto(s, t, Released).(lock := FREE, queue := [])
  {
    assert QueuedOk(s, 0);
    assert s.pcs[t].Unqueueing? ==> s.pcs[t := s.pcs[t]] == s.pcs;
    assert s.queue[1..] == [];
  }

  // ----- behind somebody -----

  /** Six steps bring a thread to the end of the queue, linked to the one before it. */
  lemma JoinsQueue(s: State, t: nat)
    requires Inv(s) && s.fast == 0 && |s.queue| > 0 && CanBegin(s, t)
    ensures var last := s.queue[|s.queue| - 1];
            var s4 := Step(Step(Step(Step(s, t, false), t, false), t, false), t, false);
            var s6 := Step(Step(s4, t, false), t, false);
      && t !in s.queue
      && s6.pcs == s.pcs[t := Spinning] && s6.queue == s.queue + [t] && s6.fast == 0 && s6.lock == Word(t, true)
      && TokenOf(s6, t) == LOCKED && TokenOf(s6, last) == Word(t, TokenOf(s, last).locked)
  {
    var last := s.queue[|s.queue| - 1];
    assert QueuedOk(s, |s.queue| - 1);
    OutsideQueue(s, t);
    var s1 := Step(s, t, false);
    assert s1 == Begin(s, t);
    var s2 := Step(s1, t, false);
    assert s2 == Goto(s1, t, Clearing) && s2.pcs == s.pcs[t := Clearing];
    var s3 := Step(s2, t, false);
    assert s3 == Clear(s2, t) && s3.pcs == s.pcs[t := Exchanging];
    Links(s, s3, t, last);
  }

  lemma OutsideQueue(s: State, t: nat)
    requires Inv(s) && CanBegin(s, t)
    ensures t !in s.queue
  {
    forall i: nat | i < |s.queue|
      ensures s.queue[i] != t
    {
      assert QueuedOk(s, i);
    }
  }

  lemma Links(s: State, s3: State, t: nat, last: nat)
    requires t != 0 && last != t && last != 0 && last in s.tokens && s3.pcs == s.pcs[t := Exchanging]
    requires s3.tokens == s.tokens[t := LOCKED] && s3.lock == Word(last, true)
    requires s3.queue == s.queue && s3.fast == s.fast
    ensures var s6 := Step(Step(Step(s3, t, false), t, false), t, false);
      && s6.pcs == s.pcs[t := Spinning] && s6.queue == s.queue + [t] && s6.fast == s.fast && s6.lock == Word(t, true)
      && TokenOf(s6, t) == LOCKED && TokenOf(s6, last) == Word(t, TokenOf(s, last).locked)
  {
    var s4 := Step(s3, t, false);
    assert s4.pcs == s.pcs[t := Loading(last)] && s4.tokens == s3.tokens;
    var s5 := Step(s4, t, false);
    assert s5.pcs == s.pcs[t := Storing(last, TokenOf(s, last).locked)] && s5.tokens == s3.tokens;
  }

  /** The heir of a hand-off gets in with its next step. */
  lemma HeirGetsIn(schedule: seq<Choice>, t: nat, weak: bool, w: bool)
    requires var s := Run(Init(), schedule);
      t in s.pcs && s.pcs[t].Granting? && Step(s, t, weak).pcs[t] == Released
    ensures var s := Run(Init(), schedule); var heir := s.pcs[t].heir; var r := Step(Step(s, t, weak), heir, w);
      heir in r.pcs && r.pcs[heir] == Holding && |r.queue| > 0 && r.queue[0] == heir
  {
    RunKeeps(Init(), schedule);
    var s := Run(Init(), schedule);
    var i := PlaceOf(s, t);
    assert QueuedOk(s, 0);
    assert |s.queue| > 1 ==> QueuedOk(s, 1);
  }

  // ----- continuations -----

  ghost predicate Reaches(s: State, r: State) { exists schedule :: Run(s, schedule) == r }

  lemma ReachesSelf(s: State)
    ensures Reaches(s, s)
  {
    assert Run(s, []) == s;
  }

  lemma ReachesStep(s: State, r: State, t: nat, weak: bool)
    requires Reaches(s, r)
    ensures Reaches(s, Step(r, t, weak))
  {
    hide Step;
    var schedule :| Run(s, schedule) == r;
    RunConcat(s, schedule, [Choice(t, weak)]);
    assert [Choice(t, weak)][1..] == [];
    assert Run(r, [Choice(t, weak)]) == Step(r, t, weak);
  }

  lemma ReachesOn(s: State, r: State, q: State)
    requires Reaches(s, r) && Reaches(r, q)
    ensures Reaches(s, q)
  {
    var a :| Run(s, a) == r;
    var b :| Run(r, b) == q;
    RunConcat(s, a, b);
  }

  lemma ReachesKeeps(s: State, r: State)
    requires Inv(s) && Reaches(s, r)
    ensures Inv(r)
  {
    hide Inv;
    var a :| Run(s, a) == r;
    RunKeeps(s, a);
  }

  // ----- when the lock can become free again -----

  /** No continuation lets the owner out: a hand-off was lost, or the owner came by the fast
      path and has somebody queued behind it or is past its only way of releasing. */
  predicate Dead(s: State) {
    Lost(s) || (s.fast != 0 && s.fast in s.pcs && (|s.queue| > 0 || s.pcs[s.fast] != Holding))
  }

  lemma DeadStep(s: State, t: nat, weak: bool)
    requires Inv(s) && Dead(s)
    ensures Dead(Step(s, t, weak)) && s.lock.locked
  {
    if Lost(s) {
      LostStep(s, t, weak);
    } else {
      var i := PlaceOf(s, s.fast);
      assert |s.queue| > 0 ==> QueuedOk(s, |s.queue| - 1);
      if t in s.pcs {
        var k := PlaceOf(s, t);
      }
    }
  }

  lemma {:induction false} DeadForever(s: State, schedule: seq<Choice>)
    requires Inv(s) && Dead(s)
    ensures Dead(Run(s, schedule)) && Run(s, schedule).lock.locked
    decreases |schedule|
  {
    hide Inv, Step, Dead;
    DeadStep(s, 0, false);
    if |schedule| > 0 {
      StepKeeps(s, schedule[0].thread, schedule[0].weak);
      DeadStep(s, schedule[0].thread, schedule[0].weak);
      DeadForever(Step(s, schedule[0].thread, schedule[0].weak), schedule[1..]);
    }
  }

  /** The front of the queue is in, or is when it looks at its locked bit next. */
  lemma FrontGetsIn(s: State) returns (r: State)
    requires Inv(s) && s.fast == 0 && |s.queue| > 0
    requires s.queue[0] in s.pcs && (s.pcs[s.queue[0]] == Spinning ==> !TokenOf(s, s.queue[0]).locked)
    ensures Reaches(s, r) && r.queue == s.queue && r.fast == 0 && Inv(r)
    ensures r.queue[0] in r.pcs && Critical(r.pcs[r.queue[0]])
  {
    var t := s.queue[0];
    assert QueuedOk(s, 0);
    r := s;
    ReachesSelf(s);
    if s.pcs[t] == Spinning {
      SpinKeeps(s, t);
      ReachesStep(s, s, t, false);
      r := Step(s, t, false);
    }
  }

  /** The second in the queue links itself, if it has not yet, while the front is in. */
  lemma SecondLinks(s: State) returns (r: State)
    requires Inv(s) && s.fast == 0 && |s.queue| > 1 && s.queue[0] in s.pcs && Critical(s.pcs[s.queue[0]])
    ensures Reaches(s, r) && r.queue == s.queue && r.fast == 0 && Inv(r)
    ensures r.queue[0] in r.pcs && Critical(r.pcs[r.queue[0]]) && Linked(r, r.queue[1])
  {
    var u := s.queue[1];
    assert QueuedOk(s, 0) && QueuedOk(s, 1);
    r := s;
    ReachesSelf(s);
    if r.pcs[u].Loading? {
      StepKeeps(r, u, false);
      ReachesStep(s, r, u, false);
      r := Step(r, u, false);
    }
    assert QueuedOk(r, 1);
    if r.pcs[u].Storing? {
      StepKeeps(r, u, false);
      ReachesStep(s, r, u, false);
      r := Step(r, u, false);
    }
  }

  /** How far the owner's release has got. */
  function Stage(s: State): nat
    requires |s.queue| > 0 && s.queue[0] in s.pcs
  {
    match s.pcs[s.queue[0]]
    case Holding => 5
    case Unqueueing(seen) => if seen.next == s.queue[0] then 4 else 3
    case Awaiting => 2
    case Granting(heir, seen, _) => if TokenOf(s, heir) == seen then 0 else 1
    case _ => 6
  }

  /** One step of the owner's release, with its heir linked: a stage further, or done. */
  lemma ReleaseAdvances(s: State)
    requires Inv(s) && s.fast == 0 && |s.queue| > 1 && s.queue[0] in s.pcs && Critical(s.pcs[s.queue[0]])
    requires Linked(s, s.queue[1])
    ensures var t := s.queue[0]; var r := Step(s, t, false);
      if Stage(s) == 0 then
        r.pcs == s.pcs[t := Released] && r.queue == s.queue[1..] && r.fast == 0 && !TokenOf(r, s.queue[1]).locked
      else
        r.queue == s.queue && r.fast == 0 && t in r.pcs && Critical(r.pcs[t]) && Linked(r, s.queue[1])
        && Stage(r) < Stage(s)
  {
    assert QueuedOk(s, 0) && QueuedOk(s, 1) && QueuedOk(s, |s.queue| - 1);
  }

  /** With somebody queued behind it the owner can release, and its heir get in. */
  lemma {:induction false} OwnerCanHandOver(s: State) returns (r: State)
    requires Inv(s) && s.fast == 0 && |s.queue| > 1 && s.queue[0] in s.pcs && Critical(s.pcs[s.queue[0]])
    requires Linked(s, s.queue[1])
    ensures Reaches(s, r) && Inv(r) && r.queue == s.queue[1..] && r.fast == 0
    ensures r.queue[0] in r.pcs && r.pcs[r.queue[0]] == Holding
    decreases Stage(s)
  {
    hide Inv, Stage, Critical;
    var t := s.queue[0];
    var q := Step(s, t, false);
    ReleaseAdvances(s);
    StepKeeps(s, t, false);
    ReachesSelf(s);
    ReachesStep(s, s, t, false);
    if Stage(s) == 0 {
      HeirStep(q);
      StepKeeps(q, q.queue[0], false);
      ReachesStep(s, q, q.queue[0], false);
      r := Step(q, q.queue[0], false);
    } else {
      r := OwnerCanHandOver(q);
      ReachesOn(s, q, r);
    }
  }

  lemma HeirStep(s: State)
    requires Inv(s) && |s.queue| > 0 && Linked(s, s.queue[0]) && !TokenOf(s, s.queue[0]).locked
    ensures var t := s.queue[0]; Step(s, t, false) == Goto(s, t, Holding)
  {
    assert QueuedOk(s, 0);
  }

  /** Every thread in the queue can get in, one after the other. */
  lemma {:induction false} WaiterCanEnter(s: State, k: nat) returns (r: State)
    requires Inv(s) && !Dead(s) && s.fast == 0 && k < |s.queue|
    ensures Reaches(s, r) && Inv(r) && r.queue == s.queue[k..] && r.fast == 0
    ensures r.queue[0] in r.pcs && Critical(r.pcs[r.queue[0]])
    decreases k
  {
    hide Inv, Step, Critical;
    if k == 0 {
      FrontIsNotLost(s);
      r := FrontGetsIn(s);
      assert s.queue[0..] == s.queue;
    } else {
      var p := WaiterCanEnter(s, k - 1);
      var q := SecondLinks(p);
      r := OwnerCanHandOver(q);
      HoldingIsCritical();
      ReachesOn(s, p, q);
      ReachesOn(s, q, r);
      assert s.queue[k - 1..][1..] == s.queue[k..];
    }
  }

  lemma HoldingIsCritical()
    ensures Critical(Holding)
  {
  }

  lemma FrontIsNotLost(s: State)
    requires Inv(s) && !Dead(s) && s.fast == 0 && |s.queue| > 0
    ensures s.queue[0] in s.pcs && (s.pcs[s.queue[0]] == Spinning ==> !TokenOf(s, s.queue[0]).locked)
  {
    assert QueuedOk(s, 0);
    assert |s.queue| > 1 ==> QueuedOk(s, 1);
  }

  /** In every reachable state, some continuation frees the lock if and only if none of the
      three dead ends has been entered: a lost hand-off, somebody stuck behind a fast path
      owner, or a fast path owner past its only way of releasing. */
  lemma LockCanBecomeFreeIff(schedule: seq<Choice>)
    ensures var s := Run(Init(), schedule); (exists r :: Reaches(s, r) && r.lock == FREE) <==> !Dead(s)
  {
    RunKeeps(Init(), schedule);
    var s := Run(Init(), schedule);
    if Dead(s) {
      forall r | Reaches(s, r)
        ensures r.lock != FREE
      {
        var more :| Run(s, more) == r;
        DeadForever(s, more);
      }
    } else {
      var r := CanBecomeFree(s);
    }
  }

  lemma CanBecomeFree(s: State) returns (r: State)
    requires Inv(s) && !Dead(s)
    ensures Reaches(s, r) && r.lock == FREE
  {
    hide Inv, Step, Critical, Dead, Reaches;
    ReachesSelf(s);
    r := s;
    if s.fast != 0 {
      FastOwnerReleases(s);
      ReachesStep(s, s, s.fast, false);
      r := Step(s, s.fast, false);
    } else if |s.queue| > 0 {
      var p := WaiterCanEnter(s, |s.queue| - 1);
      assert p.queue == [p.queue[0]];
      r := SoleOwnerCanLeave(p, p.queue[0]);
      ReachesOn(s, p, r);
    } else {
      NobodyThere(s);
    }
  }

  lemma NobodyThere(s: State)
    requires Inv(s) && s.fast == 0 && |s.queue| == 0
    ensures s.lock == FREE
  {
  }

  lemma SoleOwnerCanLeave(s: State, t: nat) returns (r: State)
    requires Inv(s) && s.queue == [t] && s.fast == 0 && t in s.pcs && Critical(s.pcs[t])
    ensures Reaches(s, r) && r.lock == FREE
  {
    hide Inv, Step, Critical;
    SoleOwnerReleases(s, t, false);
    ReachesSelf(s);
    var q := s;
    if s.pcs[t] == Holding {
      ReachesStep(s, s, t, false);
      q := Step(s, t, false);
      StepKeeps(s, t, false);
      UnqueueingIsCritical(Word(t, true));
      SoleOwnerReleases(q, t, false);
    }
    ReachesStep(s, q, t, false);
    r := Step(q, t, false);
  }

  lemma UnqueueingIsCritical(seen: Word)
    ensures Critical(Unqueueing(seen))
  {
  }

  /** A fast path owner that nobody queued behind releases in one step. */
  lemma FastOwnerReleases(s: State)
    requires Inv(s) && s.fast != 0 && !Dead(s)
    ensures Step(s, s.fast, false) == Goto(s, s.fast, Released).(lock := FREE, fast := 0)
  {
  }
}
