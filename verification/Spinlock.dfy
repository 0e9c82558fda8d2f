/** The queued spinlock as a step machine: any number of threads, one atomic access a
    step, sequentially consistent memory.

    A thread is named by the token it passes; tokens are non-null and 0 is the null
    pointer.  queue, fast, exchanges and grants record history and steer nothing. */
module Spinlock {

  /** A lock word or token word: the pointer part and the locked bit. */
  datatype Word = Word(next: nat, locked: bool)

  datatype Pc =
    | Ready                                             // acquire: the uncontended attempt
    | Clearing                                          // store Locked to the own token
    | Exchanging                                        // swap the token into the lock word
    | Loading(pred: nat)                                // load the predecessor's flags
    | Storing(pred: nat, flag: bool)                    // store the link to it
    | Spinning                                          // wait for the own locked bit
    | Stuck                                             // there is no predecessor token to link to
    | Holding                                           // acquire has returned
    | Unqueueing(seen: Word)                            // release: am I the last waiter?
    | Awaiting                                          // wait for the own next pointer
    | Granting(heir: nat, seen: Word, desired: Word)    // clear the heir's locked bit
    | Released                                          // release has returned

  datatype State = State(
    lock: Word,
    tokens: map<nat, Word>,
    pcs: map<nat, Pc>,
    queue: seq<nat>,        // exchanged and not yet released, oldest first
    fast: nat,              // the owner that came by the fast path, or 0
    exchanges: seq<nat>,    // every exchange so far, in order
    grants: seq<nat>)       // every slow path ownership so far, in order

  const FREE := Word(0, false)
  const LOCKED := Word(0, true)

  function Init(): State { State(FREE, map[], map[], [], 0, [], []) }

  function Goto(s: State, t: nat, pc: Pc): State { s.(pcs := s.pcs[t := pc]) }

  function TokenOf(s: State, t: nat): Word { if t in s.tokens then s.tokens[t] else FREE }

  // ----- acquire -----

  /** A call of acquire with a token that holds 0. */
  function Begin(s: State, t: nat): State {
    Goto(s, t, Ready).(tokens := s.tokens[t := FREE])
  }

  /** Weak compare-exchange 0 -> Locked; it may fail for no reason. */
  function TryFast(s: State, t: nat, weak: bool): State {
    if s.lock == FREE && !weak then Goto(s, t, Holding).(lock := LOCKED, fast := t)
    else Goto(s, t, Clearing)
  }

  function Clear(s: State, t: nat): State {
    Goto(s, t, Exchanging).(tokens := s.tokens[t := LOCKED])
  }

  function Exchange(s: State, t: nat): State {
    var was := s.lock;
    var e := s.(lock := Word(t, true), queue := s.queue + [t], exchanges := s.exchanges + [t]);
    if !was.locked then Goto(e, t, Holding).(grants := s.grants + [t])
    else if was.next == 0 then Goto(e, t, Stuck)
    else Goto(e, t, Loading(was.next))
  }

  function Spin(s: State, t: nat): State {
    if TokenOf(s, t).locked then s else Goto(s, t, Holding)
  }

  // ----- release -----

  /** Weak compare-exchange Locked -> 0. */
  function ReleaseFast(s: State, t: nat, weak: bool): State {
    if s.lock == LOCKED && !weak then Goto(s, t, Released).(lock := FREE, fast := 0)
    else Goto(s, t, Unqueueing(s.lock))
  }

  /** While the lock word points at this token: weak compare-exchange of it to 0. */
  function Unqueue(s: State, t: nat, seen: Word, weak: bool): State {
    if seen.next != t then Goto(s, t, Awaiting)
    else if s.lock == seen && !weak then
      Goto(s, t, Released).(lock := FREE, queue := if |s.queue| > 0 then s.queue[1..] else [])
    else Goto(s, t, Unqueueing(s.lock))
  }

  function Await(s: State, t: nat): State {
    var heir := TokenOf(s, t).next;
    if heir == 0 then s else Goto(s, t, Granting(heir, LOCKED, FREE))
  }

  function Grant(s: State, t: nat, heir: nat, seen: Word, desired: Word, weak: bool): State {
    var actual := TokenOf(s, heir);
    if actual == seen && !weak then
      Goto(s, t, Released).(tokens := s.tokens[heir := desired],
                            queue := if |s.queue| > 0 then s.queue[1..] else [],
                            grants := s.grants + [heir])
    else Goto(s, t, Granting(heir, actual, Word(actual.next, false)))
  }

  /** The next step of thread t.  weak lets a weak compare-exchange fail. */
  function Step(s: State, t: nat, weak: bool): State {
    if t == 0 then s
    else if t !in s.pcs then Begin(s, t)
    else
      match s.pcs[t]
      case Ready => TryFast(s, t, weak)
      case Clearing => Clear(s, t)
      case Exchanging => Exchange(s, t)
      case Loading(pred) => Goto(s, t, Storing(pred, TokenOf(s, pred).locked))
      case Storing(pred, flag) => Goto(s, t, Spinning).(tokens := s.tokens[pred := Word(t, flag)])
      case Spinning => Spin(s, t)
      case Stuck => s
      case Holding => ReleaseFast(s, t, weak)
      case Unqueueing(seen) => Unqueue(s, t, seen, weak)
      case Awaiting => Await(s, t)
      case Granting(heir, seen, desired) => Grant(s, t, heir, seen, desired, weak)
      case Released => Begin(s, t)
  }

  datatype Choice = Choice(thread: nat, weak: bool)

  function Run(s: State, schedule: seq<Choice>): State
    decreases |schedule|
  {
    if |schedule| == 0 then s
    else Run(Step(s, schedule[0].thread, schedule[0].weak), schedule[1..])
  }

  // ----- invariant -----

  /** Between the return of acquire and the hand-off of the matching release. */
  predicate Critical(pc: Pc) { pc.Holding? || pc.Unqueueing? || pc.Awaiting? || pc.Granting? }

  predicate Linked(s: State, t: nat) { t in s.pcs && s.pcs[t] == Spinning }

  /** What the link of the i-th queued token says: its successor, once that has stored it. */
  function LinkFor(s: State, i: nat): nat
    requires i < |s.queue|
  {
    if i + 1 < |s.queue| && Linked(s, s.queue[i + 1]) then s.queue[i + 1] else 0
  }

  /** The front of the queue owns the lock, unless a fast path owner does. */
  predicate HeadOk(s: State)
    requires |s.queue| > 0 && s.queue[0] in s.pcs && s.queue[0] in s.tokens
  {
    var t := s.queue[0];
    if s.fast != 0 then s.pcs[t] == Stuck && s.tokens[t].locked
    else
      match s.pcs[t]
      case Spinning => s.tokens[t].locked ==> |s.queue| > 1 && Linked(s, s.queue[1])
      case Granting(heir, seen, desired) =>
        |s.queue| > 1 && heir == s.queue[1] && Linked(s, heir) && desired == Word(seen.next, false)
      case Unqueueing(seen) => |s.queue| == 1 ==> seen == Word(t, true)
      case Awaiting => |s.queue| > 1
      case pc => pc.Holding?
  }

  /** Everyone further back waits with its locked bit set, linked to the one in front. */
  predicate WaiterOk(s: State, i: nat)
    requires 0 < i < |s.queue| && s.queue[i] in s.pcs && s.queue[i] in s.tokens
  {
    var t := s.queue[i];
    && s.tokens[t].locked
    && match s.pcs[t]
       case Loading(pred) => pred == s.queue[i - 1]
       case Storing(pred, flag) => pred == s.queue[i - 1] && (flag || (i == 1 && s.fast == 0))
       case Spinning => true
       case _ => false
  }

  predicate QueuedOk(s: State, i: nat)
    requires i < |s.queue|
  {
    var t := s.queue[i];
    && t != 0 && t != s.fast && t in s.pcs && t in s.tokens
    && s.tokens[t].next == LinkFor(s, i)
    && if i == 0 then HeadOk(s) else WaiterOk(s, i)
  }

  /** Threads outside the queue: idle, on their way in, or the fast path owner. */
  predicate OutsiderOk(s: State, t: nat)
    requires t in s.pcs
  {
    && t in s.tokens
    && if t == s.fast then
         s.tokens[t] == FREE
         && (s.pcs[t].Holding? || s.pcs[t].Awaiting? || (s.pcs[t].Unqueueing? && s.pcs[t].seen.next != t))
       else
         match s.pcs[t]
         case Ready => s.tokens[t] == FREE
         case Clearing => s.tokens[t] == FREE
         case Exchanging => s.tokens[t] == LOCKED
         case Released => true
         case _ => false
  }

  /** Who still waits for the lock. */
  function Waiting(s: State): seq<nat> {
    if s.fast != 0 || |s.queue| == 0 then s.queue else s.queue[1..]
  }

  ghost predicate Inv(s: State) {
    && s.lock == Word(if |s.queue| == 0 then 0 else s.queue[|s.queue| - 1], |s.queue| > 0 || s.fast != 0)
    && (s.fast != 0 ==> s.fast in s.pcs && s.fast !in s.queue)
    && 0 !in s.pcs
    && (forall i: nat, j: nat | i < j < |s.queue| :: s.queue[i] != s.queue[j])
    && (forall i: nat {:trigger QueuedOk(s, i)} | i < |s.queue| :: QueuedOk(s, i))
    && (forall t {:trigger OutsiderOk(s, t)} | t in s.pcs && t !in s.queue :: OutsiderOk(s, t))
    && s.exchanges == s.grants + Waiting(s)
    && (s.fast == 0 && |s.queue| > 0 ==> |s.grants| > 0 && s.grants[|s.grants| - 1] == s.queue[0])
  }

  /** Where a thread stands: its place in the queue, if it has one. */
  lemma PlaceOf(s: State, t: nat) returns (i: nat)
    requires Inv(s) && t in s.pcs
    ensures t in s.queue ==> i < |s.queue| && s.queue[i] == t && QueuedOk(s, i)
    ensures t !in s.queue ==> OutsiderOk(s, t)
  {
    i := 0;
    if t in s.queue {
      i :| 0 <= i < |s.queue| && s.queue[i] == t;
      assert QueuedOk(s, i);
    } else {
      assert OutsiderOk(s, t);
    }
  }

  /** A step that moves t alone and leaves every word of the queued threads in place. */
  lemma PrivateStep(s: State, r: State, t: nat)
    requires Inv(s) && t != 0 && t !in s.queue && (s.fast == r.fast)
    requires r.lock == s.lock && r.queue == s.queue && r.exchanges == s.exchanges && r.grants == s.grants
    requires r.pcs.Keys == s.pcs.Keys + {t} && r.tokens.Keys == s.tokens.Keys + {t}
    requires forall u | u in s.pcs && u != t :: r.pcs[u] == s.pcs[u]
    requires forall u | u in s.tokens && u != t :: r.tokens[u] == s.tokens[u]
    requires OutsiderOk(r, t)
    ensures Inv(r)
  {
    forall i: nat | i < |r.queue|
      ensures QueuedOk(r, i)
    {
      assert QueuedOk(s, i);
      assert i + 1 < |s.queue| ==> QueuedOk(s, i + 1);
      assert i > 0 ==> QueuedOk(s, i - 1);
      assert s.queue[i] != t && (|s.queue| > 1 ==> s.queue[1] != t);
    }
    forall u | u in r.pcs && u !in r.queue
      ensures OutsiderOk(r, u)
    {
      assert u != t ==> OutsiderOk(s, u);
    }
  }

  // ----- every step keeps the invariant -----

  lemma BeginKeeps(s: State, t: nat)
    requires Inv(s) && t != 0 && (t in s.pcs ==> s.pcs[t] == Released)
    ensures Inv(Begin(s, t))
  {
    if t in s.pcs {
      var i := PlaceOf(s, t);
    } else {
      assert forall i: nat | i < |s.queue| :: QueuedOk(s, i) ==> s.queue[i] != t;
    }
    PrivateStep(s, Begin(s, t), t);
  }

  lemma TryFastKeeps(s: State, t: nat, weak: bool)
    requires Inv(s) && t in s.pcs && s.pcs[t] == Ready
    ensures Inv(TryFast(s, t, weak))
  {
    var i := PlaceOf(s, t);
    var r := TryFast(s, t, weak);
    if s.lock == FREE && !weak {
      forall u | u in r.pcs && u !in r.queue
        ensures OutsiderOk(r, u)
      {
        assert OutsiderOk(s, u);
      }
    } else {
      PrivateStep(s, r, t);
    }
  }

  lemma ClearKeeps(s: State, t: nat)
    requires Inv(s) && t in s.pcs && s.pcs[t] == Clearing
    ensures Inv(Clear(s, t))
  {
    var i := PlaceOf(s, t);
    PrivateStep(s, Clear(s, t), t);
  }

  lemma ExchangeQueued(s: State, t: nat, i: nat)
    requires Inv(s) && t in s.pcs && s.pcs[t] == Exchanging && i <= |s.queue|
    requires t !in s.queue && OutsiderOk(s, t)
    ensures QueuedOk(Exchange(s, t), i)
  {
    assert |s.queue| > 0 ==> QueuedOk(s, |s.queue| - 1);
    assert i < |s.queue| ==> QueuedOk(s, i);
    assert |s.queue| > 1 ==> s.queue[1] != t;
    assert i + 1 < |s.queue| ==> s.queue[i + 1] != t;
  }

  lemma ExchangeKeeps(s: State, t: nat)
    requires Inv(s) && t in s.pcs && s.pcs[t] == Exchanging
    ensures Inv(Exchange(s, t))
  {
    var k := PlaceOf(s, t);
    var r := Exchange(s, t);
    forall i: nat | i < |r.queue|
      ensures QueuedOk(r, i)
    {
      ExchangeQueued(s, t, i);
    }
    forall u | u in r.pcs && u !in r.queue
      ensures OutsiderOk(r, u)
    {
      assert OutsiderOk(s, u);
    }
    assert r.exchanges == r.grants + Waiting(r);
  }

  lemma LoadKeeps(s: State, t: nat, pred: nat)
    requires Inv(s) && t in s.pcs && s.pcs[t] == Loading(pred)
    ensures Inv(Goto(s, t, Storing(pred, TokenOf(s, pred).locked)))
  {
    var k := PlaceOf(s, t);
    var r := Goto(s, t, Storing(pred, TokenOf(s, pred).locked));
    forall i: nat | i < |r.queue|
      ensures QueuedOk(r, i)
    {
      LoadQueued(s, t, pred, k, i);
    }
    forall u | u in r.pcs && u !in r.queue
      ensures OutsiderOk(r, u)
    {
      assert OutsiderOk(s, u);
    }
  }

  lemma LoadQueued(s: State, t: nat, pred: nat, k: nat, i: nat)
    requires Inv(s) && t in s.pcs && s.pcs[t] == Loading(pred) && i < |s.queue|
    requires 0 < k < |s.queue| && s.queue[k] == t
    ensures QueuedOk(Goto(s, t, Storing(pred, TokenOf(s, pred).locked)), i)
  {
    hide OutsiderOk, Waiting;
    assert QueuedOk(s, k) && QueuedOk(s, k - 1) && QueuedOk(s, i);
    assert i + 1 < |s.queue| ==> QueuedOk(s, i + 1);
  }

  lemma StoreKeeps(s: State, t: nat, pred: nat, flag: bool)
    requires Inv(s) && t in s.pcs && s.pcs[t] == Storing(pred, flag)
    ensures Inv(Goto(s, t, Spinning).(tokens := s.tokens[pred := Word(t, flag)]))
  {
    var k := PlaceOf(s, t);
    var r := Goto(s, t, Spinning).(tokens := s.tokens[pred := Word(t, flag)]);
    assert QueuedOk(s, k - 1);
    forall i: nat | i < |r.queue|
      ensures QueuedOk(r, i)
    {
      assert QueuedOk(s, i);
      assert i + 1 < |s.queue| ==> QueuedOk(s, i + 1);
    }
    forall u | u in r.pcs && u !in r.queue
      ensures OutsiderOk(r, u)
    {
      assert OutsiderOk(s, u);
    }
  }

  lemma SpinKeeps(s: State, t: nat)
    requires Inv(s) && t in s.pcs && s.pcs[t] == Spinning
    ensures Inv(Spin(s, t))
  {
    var k := PlaceOf(s, t);
    var r := Spin(s, t);
    if !TokenOf(s, t).locked {
      forall i: nat | i < |r.queue|
        ensures QueuedOk(r, i)
      {
        assert QueuedOk(s, i);
        assert i + 1 < |s.queue| ==> QueuedOk(s, i + 1);
      }
      forall u | u in r.pcs && u !in r.queue
        ensures OutsiderOk(r, u)
      {
        assert OutsiderOk(s, u);
      }
    }
  }

  /** The owner moves on without touching any shared word. */
  lemma OwnerMoves(s: State, t: nat, pc: Pc)
    requires Inv(s) && t in s.pcs && Critical(s.pcs[t])
    requires pc.Unqueueing? && t !in s.queue ==> pc.seen.next != t
    requires t in s.queue && |s.queue| == 1 ==> pc == Unqueueing(Word(t, true))
    requires pc.Granting? ==>
      && |s.queue| > 1 && s.queue[0] == t && pc.heir == s.queue[1] && Linked(s, pc.heir)
      && pc.desired == Word(pc.seen.next, false)
    requires pc.Unqueueing? || pc.Awaiting? || pc.Granting?
    ensures Inv(Goto(s, t, pc))
  {
    var k := PlaceOf(s, t);
    var r := Goto(s, t, pc);
    forall i: nat | i < |r.queue|
      ensures QueuedOk(r, i)
    {
      assert QueuedOk(s, i);
      assert i + 1 < |s.queue| ==> QueuedOk(s, i + 1);
      assert |s.queue| > 1 ==> QueuedOk(s, 1);
    }
    forall u | u in r.pcs && u !in r.queue
      ensures OutsiderOk(r, u)
    {
      assert OutsiderOk(s, u);
    }
  }

  /** The lock becomes free: whoever leaves was the only one. */
  lemma LastOneLeaves(s: State, t: nat)
    requires Inv(s) && t in s.pcs && Critical(s.pcs[t])
    requires |s.queue| == 0 || (s.queue == [t] && s.fast == 0)
    ensures Inv(Goto(s, t, Released).(lock := FREE, fast := 0, queue := []))
  {
    var k := PlaceOf(s, t);
    var r := Goto(s, t, Released).(lock := FREE, fast := 0, queue := []);
    forall u | u in r.pcs && u !in r.queue
      ensures OutsiderOk(r, u)
    {
      assert u != t ==> OutsiderOk(s, u);
    }
  }

  lemma ReleaseFastKeeps(s: State, t: nat, weak: bool)
    requires Inv(s) && t in s.pcs && s.pcs[t] == Holding
    ensures Inv(ReleaseFast(s, t, weak))
  {
    var k := PlaceOf(s, t);
    if s.lock == LOCKED && !weak {
      assert |s.queue| > 0 ==> QueuedOk(s, |s.queue| - 1);
      LastOneLeaves(s, t);
    } else {
      assert t !in s.queue ==> s.lock.next != t by { assert |s.queue| > 0 ==> QueuedOk(s, |s.queue| - 1); }
      OwnerMoves(s, t, Unqueueing(s.lock));
    }
  }

  lemma UnqueueKeeps(s: State, t: nat, seen: Word, weak: bool)
    requires Inv(s) && t in s.pcs && s.pcs[t] == Unqueueing(seen)
    ensures Inv(Unqueue(s, t, seen, weak))
  {
    var k := PlaceOf(s, t);
    if seen.next != t {
      OwnerMoves(s, t, Awaiting);
    } else if s.lock == seen && !weak {
      assert t in s.queue && |s.queue| == 1;
      LastOneLeaves(s, t);
    } else {
      OwnerMoves(s, t, Unqueueing(s.lock));
    }
  }

  lemma AwaitKeeps(s: State, t: nat)
    requires Inv(s) && t in s.pcs && s.pcs[t] == Awaiting
    ensures Inv(Await(s, t))
  {
    var k := PlaceOf(s, t);
    if TokenOf(s, t).next != 0 {
      OwnerMoves(s, t, Granting(TokenOf(s, t).next, LOCKED, FREE));
    }
  }

  lemma GrantKeeps(s: State, t: nat, heir: nat, seen: Word, desired: Word, weak: bool)
    requires Inv(s) && t in s.pcs && s.pcs[t] == Granting(heir, seen, desired)
    ensures Inv(Grant(s, t, heir, seen, desired, weak))
  {
    var k := PlaceOf(s, t);
    var actual := TokenOf(s, heir);
    if actual == seen && !weak {
      HandOff(s, t, heir, desired);
    } else {
      OwnerMoves(s, t, Granting(heir, actual, Word(actual.next, false)));
    }
  }

  function HandedOff(s: State, t: nat, heir: nat, desired: Word): State
    requires |s.queue| > 1
  {
    Goto(s, t, Released).(tokens := s.tokens[heir := desired], queue := s.queue[1..],
                          grants := s.grants + [heir])
  }

  lemma HandOffQueued(s: State, t: nat, heir: nat, desired: Word, i: nat)
    requires Inv(s) && |s.queue| > 1 && s.queue[0] == t && s.fast == 0
    requires heir == s.queue[1] && Linked(s, heir) && desired == Word(TokenOf(s, heir).next, false)
    requires i + 1 < |s.queue|
    ensures QueuedOk(HandedOff(s, t, heir, desired), i)
  {
    assert QueuedOk(s, 0) && QueuedOk(s, 1) && QueuedOk(s, i + 1);
    assert i + 2 < |s.queue| ==> QueuedOk(s, i + 2);
  }

  lemma HandOff(s: State, t: nat, heir: nat, desired: Word)
    requires Inv(s) && |s.queue| > 1 && s.queue[0] == t && s.fast == 0 && t in s.pcs && Critical(s.pcs[t])
    requires heir == s.queue[1] && Linked(s, heir) && desired == Word(TokenOf(s, heir).next, false)
    ensures Inv(HandedOff(s, t, heir, desired))
  {
    var r := HandedOff(s, t, heir, desired);
    assert QueuedOk(s, 0) && QueuedOk(s, 1);
    forall i: nat | i < |r.queue|
      ensures QueuedOk(r, i)
    {
      HandOffQueued(s, t, heir, desired, i);
    }
    forall u | u in r.pcs && u !in r.queue
      ensures OutsiderOk(r, u)
    {
      HandOffOutsider(s, t, heir, desired, u);
    }
    assert r.exchanges == r.grants + Waiting(r);
  }

  lemma HandOffOutsider(s: State, t: nat, heir: nat, desired: Word, u: nat)
    requires Inv(s) && |s.queue| > 1 && s.queue[0] == t && s.fast == 0 && t in s.pcs && t in s.tokens
    requires heir == s.queue[1] && u in s.pcs && u !in s.queue[1..]
    ensures OutsiderOk(HandedOff(s, t, heir, desired), u)
  {
    assert s.queue[1] in s.queue[1..];
    assert u in s.queue ==> u == t by {
      assert s.queue == [t] + s.queue[1..];
    }
    assert u != t ==> OutsiderOk(s, u);
  }

  lemma StepKeeps(s: State, t: nat, weak: bool)
    requires Inv(s)
    ensures Inv(Step(s, t, weak))
  {
    hide Inv, Begin, TryFast, Clear, Exchange, Spin, ReleaseFast, Unqueue, Await, Grant, Goto;
    if t != 0 {
      if t !in s.pcs {
        BeginKeeps(s, t);
      } else {
        match s.pcs[t]
        case Ready => TryFastKeeps(s, t, weak);
        case Clearing => ClearKeeps(s, t);
        case Exchanging => ExchangeKeeps(s, t);
        case Loading(pred) => LoadKeeps(s, t, pred);
        case Storing(pred, flag) => StoreKeeps(s, t, pred, flag);
        case Spinning => SpinKeeps(s, t);
        case Stuck =>
        case Holding => ReleaseFastKeeps(s, t, weak);
        case Unqueueing(seen) => UnqueueKeeps(s, t, seen, weak);
        case Awaiting => AwaitKeeps(s, t);
        case Granting(heir, seen, desired) => GrantKeeps(s, t, heir, seen, desired, weak);
        case Released => BeginKeeps(s, t);
      }
    }
  }

  lemma {:induction false} RunKeeps(s: State, schedule: seq<Choice>)
    requires Inv(s)
    ensures Inv(Run(s, schedule))
    decreases |schedule|
  {
    hide Inv, Step;
    if |schedule| > 0 {
      StepKeeps(s, schedule[0].thread, schedule[0].weak);
      RunKeeps(Step(s, schedule[0].thread, schedule[0].weak), schedule[1..]);
    }
  }

  // ----- what it means -----

  lemma OneOwner(s: State, t: nat, u: nat)
    requires Inv(s) && t in s.pcs && u in s.pcs && Critical(s.pcs[t]) && Critical(s.pcs[u])
    ensures t == u
  {
    var i := PlaceOf(s, t);
    var j := PlaceOf(s, u);
  }

  /** In every reachable state, whatever the interleaving and however often a weak
      compare-exchange fails, at most one thread is between the return of acquire and the
      hand-off of its release. */
  lemma MutualExclusion(schedule: seq<Choice>, t: nat, u: nat)
    requires var s := Run(Init(), schedule);
      t in s.pcs && u in s.pcs && Critical(s.pcs[t]) && Critical(s.pcs[u])
    ensures t == u
  {
    RunKeeps(Init(), schedule);
    OneOwner(Run(Init(), schedule), t, u);
  }

  /** Ownership by the slow path goes in the order of the exchanges, with no gap. */
  lemma GrantsFollowExchanges(schedule: seq<Choice>)
    ensures var s := Run(Init(), schedule); s.grants <= s.exchanges && s.exchanges == s.grants + Waiting(s)
  {
    RunKeeps(Init(), schedule);
  }

  /** A hand-off goes to the thread whose exchange came directly after the releaser's own,
      and that thread is the one that gains the lock. */
  lemma HandOffIsNext(schedule: seq<Choice>, t: nat, weak: bool)
    requires var s := Run(Init(), schedule);
      t in s.pcs && s.pcs[t].Granting? && Step(s, t, weak).pcs[t] == Released
    ensures var s := Run(Init(), schedule); var heir := s.pcs[t].heir; var n := |s.grants|;
      && n > 0 && n < |s.exchanges| && s.exchanges[n - 1] == t && s.exchanges[n] == heir
      && Step(s, t, weak).grants == s.grants + [heir]
      && heir in s.pcs && s.pcs[heir] == Spinning && !TokenOf(Step(s, t, weak), heir).locked
  {
    RunKeeps(Init(), schedule);
    var s := Run(Init(), schedule);
    var i := PlaceOf(s, t);
    assert s.exchanges[|s.grants|] == Waiting(s)[0];
  }

  /** No thread can still read or write the token t: nobody is about to link to it or
      grant to it, and neither the lock word nor a queued token points at it. */
  ghost predicate Unreferenced(s: State, t: nat) {
    && t !in s.queue && s.lock.next != t && s.fast != t
    && (forall u | u in s.pcs ::
          match s.pcs[u]
          case Loading(pred) => pred != t
          case Storing(pred, _) => pred != t
          case Granting(heir, _, _) => heir != t
          case _ => true)
    && forall i: nat | i < |s.queue| && s.queue[i] in s.tokens :: TokenOf(s, s.queue[i]).next != t
  }

  /** Once release has returned, its token is out of every thread's reach. */
  lemma ReleasedIsUnreferenced(schedule: seq<Choice>, t: nat)
    requires var s := Run(Init(), schedule); t in s.pcs && s.pcs[t] == Released
    ensures Unreferenced(Run(Init(), schedule), t)
  {
    RunKeeps(Init(), schedule);
    var s := Run(Init(), schedule);
    var k := PlaceOf(s, t);
    forall u | u in s.pcs
      ensures match s.pcs[u]
              case Loading(pred) => pred != t
              case Storing(pred, _) => pred != t
              case Granting(heir, _, _) => heir != t
              case _ => true
    {
      var i := PlaceOf(s, u);
    }
    forall i: nat | i < |s.queue| && s.queue[i] in s.tokens
      ensures TokenOf(s, s.queue[i]).next != t
    {
      assert QueuedOk(s, i);
    }
  }

  /** A thread gets stuck by exactly one kind of step: its own exchange, when the lock is
      held by a fast path owner and nobody has queued yet. */
  lemma StuckOnlyByExchange(s: State, u: nat, weak: bool, t: nat)
    requires Inv(s) && !(t in s.pcs && s.pcs[t] == Stuck)
    ensures (t in Step(s, u, weak).pcs && Step(s, u, weak).pcs[t] == Stuck)
      <==> u == t && t in s.pcs && s.pcs[t] == Exchanging && s.fast != 0 && |s.queue| == 0
  {
    if u in s.pcs {
      var k := PlaceOf(s, u);
    }
    if |s.queue| > 0 {
      assert QueuedOk(s, |s.queue| - 1);
    }
  }

  /** A waiter that exchanged its token behind a fast path owner finds no token to link
      to.  From then on the lock stays with that owner in every continuation. */
  lemma {:induction false} StuckWaiterBlocksTheLock(s: State, schedule: seq<Choice>, t: nat)
    requires Inv(s) && t in s.pcs && s.pcs[t] == Stuck
    ensures var r := Run(s, schedule); t in r.pcs && r.pcs[t] == Stuck
    ensures s.fast != 0 && Run(s, schedule).fast == s.fast && Run(s, schedule).lock.locked
    decreases |schedule|
  {
    var i := PlaceOf(s, t);
    if |schedule| > 0 {
      var u := schedule[0].thread;
      var r := Step(s, u, schedule[0].weak);
      StepKeeps(s, u, schedule[0].weak);
      if u in s.pcs {
        var j := PlaceOf(s, u);
      }
      StuckWaiterBlocksTheLock(r, schedule[1..], t);
    }
  }

  /** This is reachable with two threads. */
  lemma StuckWaiterReachable()
    ensures var s := Run(Init(), [Choice(1, false), Choice(1, false),
                                  Choice(2, false), Choice(2, false), Choice(2, false), Choice(2, false)]);
      s.pcs == map[1 := Holding, 2 := Stuck]
  {
    var c1, c2 := Choice(1, false), Choice(2, false);
    var s2 := TryFast(Begin(Init(), 1), 1, false);
    assert Run(Init(), [c1, c1, c2, c2, c2, c2]) == Run(s2, [c2, c2, c2, c2]);
    var s4 := TryFast(Begin(s2, 2), 2, false);
    assert Run(s2, [c2, c2, c2, c2]) == Run(s4, [c2, c2]);
    var s6 := Exchange(Clear(s4, 2), 2);
    assert [c2, c2][1..] == [c2];
    assert Run(s4, [c2, c2]) == Run(Clear(s4, 2), [c2]) == s6;
  }

  // ----- the fast path owner that cannot release -----

  /** The fast path owner is past the compare-exchange that would have freed the lock.  It
      never queued, so it is about to wait for a link that nobody stores. */
  predicate Marooned(s: State) {
    s.fast in s.pcs && (s.pcs[s.fast].Unqueueing? || s.pcs[s.fast].Awaiting?)
  }

  /** That happens by exactly one kind of step: the first compare-exchange of its release,
      when that fails for no reason or because somebody has queued. */
  lemma MaroonedOnlyByRelease(s: State, t: nat, weak: bool)
    requires Inv(s) && !Marooned(s)
    ensures Marooned(Step(s, t, weak))
      <==> t != 0 && t == s.fast && s.pcs[t] == Holding && (weak || s.lock != LOCKED)
  {
    if t in s.pcs {
      var k := PlaceOf(s, t);
    }
    if s.fast != 0 {
      var k := PlaceOf(s, s.fast);
    }
  }

  lemma MaroonedStep(s: State, t: nat, weak: bool)
    requires Inv(s) && Marooned(s)
    ensures s.fast != 0 && s.lock.locked
    ensures Marooned(Step(s, t, weak)) && Step(s, t, weak).fast == s.fast
    ensures s.pcs[s.fast] == Awaiting ==> Step(s, t, weak).pcs[s.fast] == Awaiting
  {
    var i := PlaceOf(s, s.fast);
    if t in s.pcs {
      var k := PlaceOf(s, t);
    }
  }

  /** From then on that owner keeps the lock in every continuation, and nobody else is
      ever let in. */
  lemma {:induction false} MaroonedOwnerBlocksTheLock(s: State, schedule: seq<Choice>, t: nat)
    requires Inv(s) && Marooned(s)
    ensures var r := Run(s, schedule);
      && Marooned(r) && r.fast == s.fast != 0 && r.lock.locked
      && (s.pcs[s.fast] == Awaiting ==> r.pcs[r.fast] == Awaiting)
      && (t in r.pcs && Critical(r.pcs[t]) ==> t == s.fast)
    decreases |schedule|
  {
    MaroonedStep(s, 0, false);
    if |schedule| == 0 {
      if t in s.pcs && Critical(s.pcs[t]) {
        OneOwner(s, t, s.fast);
      }
    } else {
      hide Inv, Step, Marooned;
      StepKeeps(s, schedule[0].thread, schedule[0].weak);
      MaroonedStep(s, schedule[0].thread, schedule[0].weak);
      MaroonedOwnerBlocksTheLock(Step(s, schedule[0].thread, schedule[0].weak), schedule[1..], t);
    }
  }

  /** One thread suffices. */
  lemma MaroonedOwnerReachable()
    ensures var s := Run(Init(), [Choice(1, false), Choice(1, false), Choice(1, true), Choice(1, false)]);
      Marooned(s) && s.pcs == map[1 := Awaiting] && s.fast == 1
  {
    var c := Choice(1, false);
    var s2 := TryFast(Begin(Init(), 1), 1, false);
    assert [c, c, Choice(1, true), c][1..] == [c, Choice(1, true), c];
    assert [c, Choice(1, true), c][1..] == [Choice(1, true), c];
    assert Run(Init(), [c, c, Choice(1, true), c]) == Run(s2, [Choice(1, true), c]);
    var s3 := ReleaseFast(s2, 1, true);
    assert [Choice(1, true), c][1..] == [c] && [c][1..] == [];
    assert Run(s2, [Choice(1, true), c]) == Run(s3, [c]) == Unqueue(s3, 1, LOCKED, false);
  }

  // ----- the hand-off that is overwritten -----

  /** The front of the queue owns the lock by grant but still sees its locked bit, which
      its successor set again when it linked itself. */
  predicate Lost(s: State) {
    && |s.queue| > 1 && s.fast == 0 && Linked(s, s.queue[0]) && Linked(s, s.queue[1])
    && TokenOf(s, s.queue[0]).locked
  }

  /** Linking is a load and a separate store.  A hand-off is lost by exactly one kind of
      step: the store of a successor that had loaded the locked bit before the grant
      cleared it, while the heir has not yet seen it clear. */
  lemma LostOnlyByStore(s: State, t: nat, weak: bool)
    requires Inv(s) && !Lost(s)
    ensures Lost(Step(s, t, weak)) <==>
      && t in s.pcs && s.pcs[t].Storing? && s.pcs[t].flag
      && s.fast == 0 && |s.queue| > 0 && s.pcs[t].pred == s.queue[0] && Linked(s, s.queue[0])
  {
    if t in s.pcs {
      var k := PlaceOf(s, t);
    }
    if |s.queue| > 0 {
      assert QueuedOk(s, 0);
    }
    if |s.queue| > 1 {
      assert QueuedOk(s, 1);
    }
  }

  lemma LostStep(s: State, t: nat, weak: bool)
    requires Inv(s) && Lost(s)
    ensures Lost(Step(s, t, weak))
  {
    if t in s.pcs {
      var k := PlaceOf(s, t);
    }
    assert QueuedOk(s, 0);
    if |s.queue| > 1 {
      assert QueuedOk(s, 1);
    }
  }

  /** After a lost hand-off no thread ever gets past acquire again, in any continuation. */
  lemma {:induction false} LostHandOffBlocksTheLock(s: State, schedule: seq<Choice>, t: nat)
    requires Inv(s) && Lost(s)
    ensures var r := Run(s, schedule); Lost(r) && (t in r.pcs ==> !Critical(r.pcs[t]))
    decreases |schedule|
  {
    if |schedule| == 0 {
      if t in s.pcs {
        var k := PlaceOf(s, t);
      }
      assert QueuedOk(s, 0);
    } else {
      hide Inv, Step, Lost;
      StepKeeps(s, schedule[0].thread, schedule[0].weak);
      LostStep(s, schedule[0].thread, schedule[0].weak);
      LostHandOffBlocksTheLock(Step(s, schedule[0].thread, schedule[0].weak), schedule[1..], t);
    }
  }

  lemma {:induction false} RunConcat(s: State, a: seq<Choice>, b: seq<Choice>)
    ensures Run(s, a + b) == Run(Run(s, a), b)
    decreases |a|
  {
    hide Step;
    if |a| == 0 {
      assert a + b == b;
    } else {
      assert (a + b)[0] == a[0] && (a + b)[1..] == a[1..] + b;
      RunConcat(Step(s, a[0].thread, a[0].weak), a[1..], b);
    }
  }

  lemma FiveSteps(s: State, a: seq<Choice>)
    requires |a| == 5
    ensures var s1 := Step(s, a[0].thread, a[0].weak);
            var s2 := Step(s1, a[1].thread, a[1].weak);
            var s3 := Step(s2, a[2].thread, a[2].weak);
            var s4 := Step(s3, a[3].thread, a[3].weak);
      Run(s, a) == Step(s4, a[4].thread, a[4].weak)
  {
    hide Step;
    var s1 := Step(s, a[0].thread, a[0].weak);
    var s2 := Step(s1, a[1].thread, a[1].weak);
    var s3 := Step(s2, a[2].thread, a[2].weak);
    assert a == [a[0], a[1], a[2], a[3], a[4]];
    assert a[1..] == [a[1], a[2], a[3], a[4]];
    assert [a[1], a[2], a[3], a[4]][1..] == [a[2], a[3], a[4]];
    assert [a[2], a[3], a[4]][1..] == [a[3], a[4]];
    assert Run(s, a) == Run(s1, [a[1], a[2], a[3], a[4]]);
    assert Run(s1, [a[1], a[2], a[3], a[4]]) == Run(s2, [a[2], a[3], a[4]]);
    assert Run(s2, [a[2], a[3], a[4]]) == Run(s3, [a[3], a[4]]);
    var s4 := Step(s3, a[3].thread, a[3].weak);
    assert [a[3], a[4]][1..] == [a[4]] && [a[4]][1..] == [];
    assert Run(s3, [a[3], a[4]]) == Run(s4, [a[4]]);
  }

  /** Thread 1 takes the lock through the queue, 2 queues behind it, 3 behind 2 and loads
      2's flags; 1 hands off to 2; 3 stores its link with the flags it loaded. */
  function LosingRun(): seq<Choice> { FirstPart() + (SecondPart() + (ThirdPart() + LastPart())) }

  function FirstPart(): seq<Choice> {
    [Choice(1, false), Choice(1, true), Choice(1, false), Choice(1, false), Choice(2, false)]
  }

  function SecondPart(): seq<Choice> {
    [Choice(2, false), Choice(2, false), Choice(2, false), Choice(2, false), Choice(2, false)]
  }

  function ThirdPart(): seq<Choice> {
    [Choice(3, false), Choice(3, false), Choice(3, false), Choice(3, false), Choice(3, false)]
  }

  function LastPart(): seq<Choice> {
    [Choice(1, false), Choice(1, false), Choice(1, false), Choice(1, false), Choice(3, false)]
  }

  function Early(): State {
    State(Word(1, true), map[1 := LOCKED, 2 := FREE], map[1 := Holding, 2 := Ready], [1], 0, [1], [1])
  }

  function Middle(): State {
    State(Word(2, true), map[1 := Word(2, true), 2 := LOCKED], map[1 := Holding, 2 := Spinning], [1, 2], 0, [1, 2], [1])
  }

  function Late(): State {
    State(Word(3, true), map[1 := Word(2, true), 2 := LOCKED, 3 := LOCKED],
          map[1 := Holding, 2 := Spinning, 3 := Storing(2, true)], [1, 2, 3], 0, [1, 2, 3], [1])
  }

  lemma EarlyReached()
    ensures Run(Init(), FirstPart()) == Early()
  {
    FiveSteps(Init(), FirstPart());
    var s1 := Step(Init(), 1, false);
    var s2 := Step(s1, 1, true);
    assert s2 == State(FREE, map[1 := FREE], map[1 := Clearing], [], 0, [], []);
    var s3 := Step(s2, 1, false);
    assert s3 == State(FREE, map[1 := LOCKED], map[1 := Exchanging], [], 0, [], []);
    var s4 := Step(s3, 1, false);
    assert s4 == State(Word(1, true), map[1 := LOCKED], map[1 := Holding], [1], 0, [1], [1]);
  }

  lemma MiddleReached()
    ensures Run(Early(), SecondPart()) == Middle()
  {
    FiveSteps(Early(), SecondPart());
    var s2 := Step(Step(Early(), 2, false), 2, false);
    assert s2 == State(Word(1, true), map[1 := LOCKED, 2 := LOCKED],
                       map[1 := Holding, 2 := Exchanging], [1], 0, [1], [1]);
    var s3 := Step(s2, 2, false);
    assert s3 == State(Word(2, true), map[1 := LOCKED, 2 := LOCKED],
                       map[1 := Holding, 2 := Loading(1)], [1, 2], 0, [1, 2], [1]);
    var s4 := Step(s3, 2, false);
    assert s4.pcs == map[1 := Holding, 2 := Storing(1, true)];
  }

  lemma LateReached()
    ensures Run(Middle(), ThirdPart()) == Late()
  {
    FiveSteps(Middle(), ThirdPart());
    var s3 := Step(Step(Step(Middle(), 3, false), 3, false), 3, false);
    assert s3 == State(Word(2, true), map[1 := Word(2, true), 2 := LOCKED, 3 := LOCKED],
                       map[1 := Holding, 2 := Spinning, 3 := Exchanging], [1, 2], 0, [1, 2], [1]);
    var s4 := Step(s3, 3, false);
    assert s4 == State(Word(3, true), map[1 := Word(2, true), 2 := LOCKED, 3 := LOCKED],
                       map[1 := Holding, 2 := Spinning, 3 := Loading(2)], [1, 2, 3], 0, [1, 2, 3], [1]);
  }

  lemma LossReached()
    ensures Lost(Run(Late(), LastPart()))
  {
    FiveSteps(Late(), LastPart());
    GrantReached();
    var s := Granted();
    assert s.queue == [2, 3] && s.pcs[2] == Spinning && s.pcs[3] == Storing(2, true);
    var r := Step(s, 3, false);
    assert r.queue == [2, 3] && r.pcs[2] == Spinning && r.pcs[3] == Spinning && r.tokens[2] == Word(3, true);
  }

  function Granted(): State {
    Late().(tokens := map[1 := Word(2, true), 2 := FREE, 3 := LOCKED],
            pcs := map[1 := Released, 2 := Spinning, 3 := Storing(2, true)], queue := [2, 3], grants := [1, 2])
  }

  lemma GrantReached()
    ensures Step(Step(Step(Step(Late(), 1, false), 1, false), 1, false), 1, false) == Granted()
  {
    LeavingMoves(Holding);
    LeavingMoves(Unqueueing(Word(3, true)));
    LeavingMoves(Awaiting);
    GrantIsLast(Leaving(Granting(2, LOCKED, FREE)));
  }

  /** Thread 1 on its way out, at pc. */
  function Leaving(pc: Pc): State { Late().(pcs := map[1 := pc, 2 := Spinning, 3 := Storing(2, true)]) }

  lemma LeavingMoves(pc: Pc)
    ensures Leaving(Holding) == Late()
    ensures pc == Holding ==> Step(Leaving(pc), 1, false) == Leaving(Unqueueing(Word(3, true)))
    ensures pc == Unqueueing(Word(3, true)) ==> Step(Leaving(pc), 1, false) == Leaving(Awaiting)
    ensures pc == Awaiting ==> Step(Leaving(pc), 1, false) == Leaving(Granting(2, LOCKED, FREE))
  {
    var s := Leaving(pc);
    assert forall to: Pc :: s.pcs[1 := to] == Leaving(to).pcs;
  }

  lemma GrantIsLast(s: State)
    requires s == Leaving(Granting(2, LOCKED, FREE))
    ensures Step(s, 1, false) == Granted()
  {
    var r := Step(s, 1, false);
    assert r == Goto(s, 1, Released).(tokens := s.tokens[2 := FREE], queue := s.queue[1..], grants := [1] + [2]);
    assert r.tokens == Granted().tokens && r.pcs == Granted().pcs;
    assert s.queue[1..] == [2, 3];
  }

  /** Three threads suffice. */
  lemma LostHandOffReachable()
    ensures Lost(Run(Init(), LosingRun()))
  {
    hide Step, Lost;
    var b, c, d := SecondPart(), ThirdPart(), LastPart();
    RunConcat(Init(), FirstPart(), b + (c + d));
    EarlyReached();
    RunConcat(Early(), b, c + d);
    MiddleReached();
    RunConcat(Middle(), c, d);
    LateReached();
    LossReached();
  }
}
