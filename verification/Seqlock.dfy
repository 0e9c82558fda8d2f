/** The sequence lock as a step machine: any number of readers and writers, one atomic
    access a step, and data of several words that are read and written one at a time.

    Threads are positive numbers.  version counts the increments of the lock word without
    wrapping, published lists the data at every even version, writer names the thread that
    is inside; the three record history and steer nothing. */
module Seqlock {
  import opened Powers

  datatype Pc =
    | Idle
    | Trying(current: nat, desired: nat)                      // compare-exchange of the write lock
    | Waiting                                                 // spin while the word is odd
    | Inside                                                  // holds the write lock
    | Reading(cookie: nat, start: nat, seen: set<(nat, int)>)
    | Validated(start: nat, end: nat, seen: set<(nat, int)>)
    | Rejected

  datatype State = State(
    modulus: nat,             // the lock word counts modulo this
    word: nat,
    data: seq<int>,
    pcs: map<nat, Pc>,
    version: nat,
    published: seq<seq<int>>,
    writer: nat)

  datatype Act =
    | BeginWrite | Advance(weak: bool) | Put(index: nat, value: int) | Finish
    | BeginRead | Get(at: nat) | Check

  function PcOf(s: State, t: nat): Pc { if t in s.pcs then s.pcs[t] else Idle }

  function Goto(s: State, t: nat, pc: Pc): State { s.(pcs := s.pcs[t := pc]) }

  /** After a failed compare-exchange or a spinning load that found found. */
  function Retry(found: nat): Pc { if found % 2 == 1 then Waiting else Trying(found, found + 1) }

  function Step(s: State, t: nat, a: Act): State {
    if t == 0 then s
    else
      match (PcOf(s, t), a)
      case (Idle, BeginWrite) => Goto(s, t, Trying(0, 1))
      case (Validated(_, _, _), BeginWrite) => Goto(s, t, Trying(0, 1))
      case (Rejected, BeginWrite) => Goto(s, t, Trying(0, 1))
      case (Trying(current, desired), Advance(weak)) =>
        if s.word == current && !weak then
          Goto(s, t, Inside).(word := desired, version := s.version + 1, writer := t)
        else Goto(s, t, Retry(s.word))
      case (Waiting, Advance(_)) => Goto(s, t, Retry(s.word))
      case (Inside, Put(i, v)) => if i < |s.data| then s.(data := s.data[i := v]) else s
      case (Inside, Finish) =>
        Goto(s, t, Idle).(word := if s.modulus == 0 then 0 else (s.word + 1) % s.modulus,
                          version := s.version + 1, published := s.published + [s.data], writer := 0)
      case (Idle, BeginRead) => Goto(s, t, Reading(s.word, s.version, {}))
      case (Validated(_, _, _), BeginRead) => Goto(s, t, Reading(s.word, s.version, {}))
      case (Rejected, BeginRead) => Goto(s, t, Reading(s.word, s.version, {}))
      case (Reading(cookie, start, seen), Get(i)) =>
        if i < |s.data| then Goto(s, t, Reading(cookie, start, seen + {(i, s.data[i])})) else s
      case (Reading(cookie, start, seen), Check) =>
        if cookie % 2 == 1 || s.word != cookie then Goto(s, t, Rejected)
        else Goto(s, t, Validated(start, s.version, seen))
      case _ => s
  }

  datatype Choice = Choice(thread: nat, act: Act)

  function Run(s: State, schedule: seq<Choice>): State
    decreases |schedule|
  {
    if |schedule| == 0 then s else Run(Step(s, schedule[0].thread, schedule[0].act), schedule[1..])
  }

  function Init(modulus: nat, data: seq<int>): State {
    State(modulus, 0, data, map[], 0, [data], 0)
  }

  // ----- invariant -----

  /** Everything seen is in the data published as number k. */
  ghost predicate SeenIn(published: seq<seq<int>>, seen: set<(nat, int)>, k: nat) {
    k < |published| && forall p | p in seen :: p.0 < |published[k]| && published[k][p.0] == p.1
  }

  ghost predicate ThreadOk(s: State, t: nat)
    requires t in s.pcs
  {
    match s.pcs[t]
    case Trying(current, desired) => current % 2 == 0 && desired == current + 1 && current < s.modulus
    case Inside => s.writer == t
    case Reading(cookie, start, seen) =>
      && s.modulus > 0 && start <= s.version && cookie == start % s.modulus
      && (start == s.version && start % 2 == 0 ==> SeenIn(s.published, seen, start / 2))
    case Validated(start, end, seen) =>
      && s.modulus > 0 && start <= end <= s.version && start % 2 == 0 && (end - start) % s.modulus == 0
      && (end - start < s.modulus ==> SeenIn(s.published, seen, start / 2))
    case _ => true
  }

  ghost predicate Inv(s: State) {
    && 0 !in s.pcs && s.modulus >= 2 && s.modulus % 2 == 0 && s.word == s.version % s.modulus
    && |s.published| == s.version / 2 + 1
    && (s.version % 2 == 0 ==> s.data == s.published[s.version / 2])
    && (s.version % 2 == 1 <==> s.writer != 0)
    && (s.writer != 0 ==> s.writer in s.pcs && s.pcs[s.writer] == Inside)
    && (forall t {:trigger ThreadOk(s, t)} | t in s.pcs :: ThreadOk(s, t))
  }

  lemma EvenModulus(v: nat, m: nat)
    requires m >= 2 && m % 2 == 0
    ensures (v % m) % 2 == v % 2
    ensures v % 2 == 0 ==> v % m + 1 < m && (v + 1) % m == v % m + 1
    ensures (v % m + 1) % m == (v + 1) % m
  {
    EvenRemainder(v, m);
    NextRemainder(v, m);
  }

  lemma EvenRemainder(v: nat, m: nat)
    requires m >= 2 && m % 2 == 0
    ensures (v % m) % 2 == v % 2 && (v % 2 == 0 ==> v % m + 1 < m)
  {
    EvenPart(v, v / m, v % m, m);
  }

  lemma EvenPart(v: int, q: int, r: int, m: int)
    requires v == q * m + r && r < m && m % 2 == 0
    ensures r % 2 == v % 2 && (v % 2 == 0 ==> r + 1 < m)
  {
    Parity(v, q, r, m / 2, m);
  }

  lemma Parity(v: int, q: int, r: int, half: int, m: int)
    requires v == q * m + r && m == 2 * half
    ensures v % 2 == r % 2
  {
    var k := q * half;
    assert q * m == 2 * k;
  }

  lemma NextRemainder(v: nat, m: nat)
    requires m > 0
    ensures (v % m + 1) % m == (v + 1) % m
    ensures v % m + 1 < m ==> (v + 1) % m == v % m + 1
  {
    var q, r := v / m, v % m;
    if r + 1 < m {
      DivModUnique(v + 1, m, q, r + 1);
      DivModUnique(r + 1, m, 0, r + 1);
    } else {
      assert (q + 1) * m == q * m + m;
      DivModUnique(v + 1, m, q + 1, 0);
      DivModUnique(m, m, 1, 0);
    }
  }

  /** Equal remainders: the distance is a multiple of the modulus. */
  lemma SameRemainder(a: nat, b: nat, m: nat)
    requires m > 0 && a <= b && a % m == b % m
    ensures (b - a) % m == 0
  {
    var k := b / m - a / m;
    assert b - a == k * m by {
      assert a == (a / m) * m + a % m && b == (b / m) * m + b % m;
    }
    DivModUnique(b - a, m, k, 0);
  }

  /** A thread that is not the one stepping is unaffected by more versions being published. */
  lemma OtherThread(s: State, r: State, u: nat)
    requires Inv(s) && u in s.pcs && u in r.pcs && r.pcs[u] == s.pcs[u] && r.modulus == s.modulus
    requires s.published <= r.published && s.version <= r.version
    requires s.pcs[u] == Inside ==> r.writer == s.writer
    ensures ThreadOk(r, u)
  {
    assert ThreadOk(s, u);
  }

  lemma StepThread(s: State, t: nat, a: Act)
    requires Inv(s) && t != 0
    ensures var r := Step(s, t, a); t in r.pcs ==> ThreadOk(r, t)
  {
    EvenModulus(s.version, s.modulus);
    if t in s.pcs {
      assert ThreadOk(s, t);
      if a.Check? && s.pcs[t].Reading? && s.word == s.pcs[t].cookie {
        SameRemainder(s.pcs[t].start, s.version, s.modulus);
        EvenModulus(s.pcs[t].start, s.modulus);
        if s.version - s.pcs[t].start < s.modulus {
          ZeroGap(s.version - s.pcs[t].start, s.modulus);
        }
      }
    }
  }

  lemma ZeroGap(d: nat, m: nat)
    requires d < m && d % m == 0
    ensures d == 0
  {
  }

  /** While a writer is inside, nobody else changes the version. */
  lemma WriterKeepsOthersOut(s: State, t: nat, a: Act)
    requires Inv(s) && s.writer != 0 && t != s.writer
    ensures var r := Step(s, t, a);
      r.writer == s.writer && r.version == s.version && r.published == s.published && r.word == s.word
      && (s.writer in r.pcs && r.pcs[s.writer] == Inside)
  {
    EvenModulus(s.version, s.modulus);
    if t in s.pcs {
      assert ThreadOk(s, t);
    }
  }

  lemma StepCounts(s: State, t: nat, a: Act)
    requires Inv(s) && t != 0
    ensures var r := Step(s, t, a);
      && r.modulus == s.modulus && r.word == r.version % r.modulus && 0 !in r.pcs
      && s.published <= r.published && s.version <= r.version
  {
    EvenModulus(s.version, s.modulus);
    var next := (s.version + 1) % s.modulus;
    if t in s.pcs {
      assert ThreadOk(s, t);
      if s.pcs[t].Trying? && a.Advance? && s.word == s.pcs[t].current && !a.weak {
        assert s.pcs[t].desired == next;
      } else if s.pcs[t] == Inside && a.Finish? {
        assert (s.word + 1) % s.modulus == next;
      }
    }
  }

  lemma StepVersions(s: State, t: nat, a: Act)
    requires Inv(s) && t != 0
    ensures var r := Step(s, t, a);
      && |r.published| == r.version / 2 + 1
      && (r.version % 2 == 0 ==> r.data == r.published[r.version / 2])
      && (r.version % 2 == 1 <==> r.writer != 0)
      && (r.writer != 0 ==> r.writer in r.pcs && r.pcs[r.writer] == Inside)
  {
    EvenModulus(s.version, s.modulus);
    if t in s.pcs {
      assert ThreadOk(s, t);
    }
    if s.writer != 0 && t != s.writer {
      WriterKeepsOthersOut(s, t, a);
    }
  }

  lemma StepOther(s: State, t: nat, a: Act, u: nat)
    requires Inv(s) && t != 0 && u != t && u in s.pcs
    ensures ThreadOk(Step(s, t, a), u)
  {
    StepCounts(s, t, a);
    assert ThreadOk(s, u);
    if s.writer != 0 && t != s.writer {
      WriterKeepsOthersOut(s, t, a);
    }
    OtherThread(s, Step(s, t, a), u);
  }

  lemma StepKeeps(s: State, t: nat, a: Act)
    requires Inv(s)
    ensures Inv(Step(s, t, a))
  {
    var r := Step(s, t, a);
    if t != 0 {
      StepCounts(s, t, a);
      StepVersions(s, t, a);
      StepThread(s, t, a);
      forall u | u in r.pcs
        ensures ThreadOk(r, u)
      {
        if u != t {
          StepOther(s, t, a, u);
        }
      }
    }
  }

  lemma {:induction false} RunKeeps(s: State, schedule: seq<Choice>)
    requires Inv(s)
    ensures Inv(Run(s, schedule))
    decreases |schedule|
  {
    hide Inv, Step;
    if |schedule| > 0 {
      StepKeeps(s, schedule[0].thread, schedule[0].act);
      RunKeeps(Step(s, schedule[0].thread, schedule[0].act), schedule[1..]);
    }
  }

  // ----- what it means -----

  /** In every reachable state at most one writer is inside, and the lock word is odd
      exactly when one is. */
  lemma OneWriter(modulus: nat, data: seq<int>, schedule: seq<Choice>)
    requires modulus >= 2 && modulus % 2 == 0
    ensures var s := Run(Init(modulus, data), schedule);
      && (forall t, u | t in s.pcs && u in s.pcs && s.pcs[t] == Inside && s.pcs[u] == Inside :: t == u)
      && (s.word % 2 == 1 <==> exists t :: t in s.pcs && s.pcs[t] == Inside)
  {
    RunKeeps(Init(modulus, data), schedule);
    var s := Run(Init(modulus, data), schedule);
    EvenModulus(s.version, s.modulus);
    forall t | t in s.pcs && s.pcs[t] == Inside
      ensures t == s.writer
    {
      assert ThreadOk(s, t);
    }
    assert s.writer != 0 ==> s.writer in s.pcs && s.pcs[s.writer] == Inside;
  }

  /** A read that validates has seen only values of one version between two complete
      writes, unless the lock word came back to the cookie by wrapping around; its start
      and end versions then lie a positive multiple of the modulus apart. */
  lemma Snapshot(modulus: nat, data: seq<int>, schedule: seq<Choice>, t: nat)
    requires modulus >= 2 && modulus % 2 == 0
    requires var s := Run(Init(modulus, data), schedule); t in s.pcs && s.pcs[t].Validated?
    ensures var s := Run(Init(modulus, data), schedule); var v := s.pcs[t];
      && v.start % 2 == 0 && (v.end - v.start) % modulus == 0
      && (v.end - v.start < modulus ==> v.end == v.start && SeenIn(s.published, v.seen, v.start / 2))
  {
    RunKeeps(Init(modulus, data), schedule);
    RunModulus(Init(modulus, data), schedule);
    var s := Run(Init(modulus, data), schedule);
    assert ThreadOk(s, t);
    if s.pcs[t].end - s.pcs[t].start < modulus {
      ZeroGap(s.pcs[t].end - s.pcs[t].start, modulus);
    }
  }

  lemma {:induction false} RunModulus(s: State, schedule: seq<Choice>)
    ensures Run(s, schedule).modulus == s.modulus
    decreases |schedule|
  {
    if |schedule| > 0 {
      RunModulus(Step(s, schedule[0].thread, schedule[0].act), schedule[1..]);
    }
  }

  // ----- why the counter must not wrap during a read -----

  lemma {:induction false} RunConcat(s: State, a: seq<Choice>, b: seq<Choice>)
    ensures Run(s, a + b) == Run(Run(s, a), b)
    decreases |a|
  {
    if |a| == 0 {
      assert a + b == b;
    } else {
      assert (a + b)[0] == a[0] && (a + b)[1..] == a[1..] + b;
      RunConcat(Step(s, a[0].thread, a[0].act), a[1..], b);
    }
  }

  function EmptyWrite(): seq<Choice> {
    [Choice(2, BeginWrite), Choice(2, Advance(false)), Choice(2, Advance(false)), Choice(2, Finish)]
  }

  function EmptyWrites(n: nat): seq<Choice> { if n == 0 then [] else EmptyWrite() + EmptyWrites(n - 1) }

  /** Writer 2 is at pc; reader 1 has seen word 0 of the first version, and j writes have
      completed since. */
  function Stage(modulus: nat, j: nat, pc: Pc, word: nat, version: nat, writer: nat): State {
    State(modulus, word, [1, 1], map[1 := Reading(0, 0, {(0, 0)}), 2 := pc], version,
          [[0, 0]] + seq(j, _ => [1, 1]), writer)
  }

  function Between(modulus: nat, j: nat): State
    requires modulus > 0
  {
    Stage(modulus, j, Idle, 2 * j % modulus, 2 * j, 0)
  }

  lemma StagePc(modulus: nat, j: nat, pc: Pc, word: nat, version: nat, writer: nat, to: Pc)
    ensures PcOf(Stage(modulus, j, pc, word, version, writer), 2) == pc
    ensures Goto(Stage(modulus, j, pc, word, version, writer), 2, to) == Stage(modulus, j, to, word, version, writer)
  {
    var m := map[1 := Reading(0, 0, {(0, 0)}), 2 := pc];
    assert m[2 := to] == map[1 := Reading(0, 0, {(0, 0)}), 2 := to];
  }

  lemma StageFinish(modulus: nat, j: nat)
    requires 0 < j && 2 * j < modulus && modulus % 2 == 0
    ensures Step(Stage(modulus, j, Inside, 2 * j + 1, 2 * j + 1, 2), 2, Finish) == Between(modulus, j + 1)
  {
    StagePc(modulus, j, Inside, 2 * j + 1, 2 * j + 1, 2, Idle);
    assert [[0, 0]] + seq(j, _ => [1, 1]) + [[1, 1]] == [[0, 0]] + seq(j + 1, _ => [1, 1]);
  }

  lemma OneEmptyWrite(modulus: nat, j: nat)
    requires 0 < j && 2 * j < modulus && modulus % 2 == 0
    ensures Run(Between(modulus, j), EmptyWrite()) == Between(modulus, j + 1)
  {
    DivModUnique(2 * j, modulus, 0, 2 * j);
    var s := Between(modulus, j);
    var s1 := Stage(modulus, j, Trying(0, 1), 2 * j, 2 * j, 0);
    var s2 := Stage(modulus, j, Trying(2 * j, 2 * j + 1), 2 * j, 2 * j, 0);
    var s3 := Stage(modulus, j, Inside, 2 * j + 1, 2 * j + 1, 2);
    assert Step(s, 2, BeginWrite) == s1 by { StagePc(modulus, j, Idle, 2 * j, 2 * j, 0, Trying(0, 1)); }
    assert Step(s1, 2, Advance(false)) == s2 by {
      StagePc(modulus, j, Trying(0, 1), 2 * j, 2 * j, 0, Trying(2 * j, 2 * j + 1));
    }
    assert Step(s2, 2, Advance(false)) == s3 by {
      StagePc(modulus, j, Trying(2 * j, 2 * j + 1), 2 * j, 2 * j, 0, Inside);
    }
    StageFinish(modulus, j);
    FourSteps(s, EmptyWrite());
  }

  lemma FourSteps(s: State, w: seq<Choice>)
    requires |w| == 4
    ensures Run(s, w)
         == Step(Step(Step(Step(s, w[0].thread, w[0].act), w[1].thread, w[1].act), w[2].thread, w[2].act),
                 w[3].thread, w[3].act)
  {
    hide Step;
    assert w == [w[0], w[1]] + ([w[2], w[3]] + []);
    TwoSteps(s, w[0], w[1], [w[2], w[3]] + []);
    TwoSteps(Step(Step(s, w[0].thread, w[0].act), w[1].thread, w[1].act), w[2], w[3], []);
  }

  lemma {:induction false} ManyEmptyWrites(modulus: nat, j: nat, n: nat)
    requires 0 < j && 2 * (j + n) <= modulus && modulus % 2 == 0
    ensures Run(Between(modulus, j), EmptyWrites(n)) == Between(modulus, j + n)
    decreases n
  {
    if n > 0 {
      RunConcat(Between(modulus, j), EmptyWrite(), EmptyWrites(n - 1));
      OneEmptyWrite(modulus, j);
      ManyEmptyWrites(modulus, j + 1, n - 1);
    }
  }

  function Opening(): seq<Choice> {
    [Choice(1, BeginRead), Choice(1, Get(0)), Choice(2, BeginWrite), Choice(2, Advance(false))]
  }

  function FirstWrite(): seq<Choice> {
    [Choice(2, Put(0, 1)), Choice(2, Put(1, 1)), Choice(2, Finish)]
  }

  function AfterOpening(modulus: nat): State {
    State(modulus, 1, [0, 0], map[1 := Reading(0, 0, {(0, 0)}), 2 := Inside], 1, [[0, 0]], 2)
  }

  lemma OpeningRuns(modulus: nat)
    ensures Run(Init(modulus, [0, 0]), Opening()) == AfterOpening(modulus)
  {
    var s := Init(modulus, [0, 0]);
    FourSteps(s, Opening());
    var s1 := Step(s, 1, BeginRead);
    assert s1 == State(modulus, 0, [0, 0], map[1 := Reading(0, 0, {})], 0, [[0, 0]], 0);
    var s2 := Step(s1, 1, Get(0));
    assert {} + {(0, 0)} == {(0, 0)};
    assert s2 == State(modulus, 0, [0, 0], map[1 := Reading(0, 0, {(0, 0)})], 0, [[0, 0]], 0);
    var s3 := Step(s2, 2, BeginWrite);
    assert s3 == State(modulus, 0, [0, 0], map[1 := Reading(0, 0, {(0, 0)}), 2 := Trying(0, 1)], 0, [[0, 0]], 0);
    assert Step(s3, 2, Advance(false)).pcs == AfterOpening(modulus).pcs;
  }

  lemma FirstWriteRuns(modulus: nat)
    requires modulus >= 2 && modulus % 2 == 0
    ensures Run(AfterOpening(modulus), FirstWrite()) == Between(modulus, 1)
  {
    var s := AfterOpening(modulus);
    var w := FirstWrite();
    var s1 := Step(s, 2, Put(0, 1));
    assert s1 == s.(data := [1, 0]);
    var s2 := Step(s1, 2, Put(1, 1));
    assert s2 == s.(data := [1, 1]);
    assert w == [w[0], w[1]] + [w[2]];
    TwoSteps(s, w[0], w[1], [w[2]]);
    LastStep(s2, w[2]);
    var s3 := Step(s2, 2, Finish);
    assert s3.pcs == Between(modulus, 1).pcs;
    assert s3.published == [[0, 0]] + [[1, 1]] == Between(modulus, 1).published;
  }

  lemma LastStep(s: State, a: Choice)
    ensures Run(s, [a]) == Step(s, a.thread, a.act)
  {
    hide Step;
    assert [a][1..] == [];
  }

  lemma TwoSteps(s: State, a: Choice, b: Choice, rest: seq<Choice>)
    ensures Run(s, [a, b] + rest) == Run(Step(Step(s, a.thread, a.act), b.thread, b.act), rest)
  {
    hide Step;
    var all := [a, b] + rest;
    assert all[1..] == [b] + rest && all[1..][1..] == rest;
  }

  function Closing(): seq<Choice> { [Choice(1, Get(1)), Choice(1, Check)] }

  /** Reader 1 starts; the counter makes one full turn; reader 1 finishes. */
  function WrappingRun(modulus: nat): seq<Choice> {
    Opening() + (FirstWrite() + (EmptyWrites(if modulus < 2 then 0 else modulus / 2 - 1) + Closing()))
  }

  lemma ClosingRuns(modulus: nat)
    requires modulus >= 2 && modulus % 2 == 0
    ensures var r := Run(Between(modulus, modulus / 2), Closing());
      && 1 in r.pcs && r.pcs[1] == Validated(0, modulus, {(0, 0), (1, 1)})
      && r.published == [[0, 0]] + seq(modulus / 2, _ => [1, 1])
  {
    var s := Between(modulus, modulus / 2);
    DivModUnique(modulus, modulus, 1, 0);
    assert {(0, 0)} + {(1, 1)} == {(0, 0), (1, 1)};
    var s1 := Step(s, 1, Get(1));
    assert s1.pcs[1] == Reading(0, 0, {(0, 0), (1, 1)});
    assert Closing() == [Choice(1, Get(1)), Choice(1, Check)] + [];
    TwoSteps(s, Choice(1, Get(1)), Choice(1, Check), []);
  }

  lemma WrappingRunEnds(modulus: nat)
    requires modulus >= 2 && modulus % 2 == 0
    ensures Run(Init(modulus, [0, 0]), WrappingRun(modulus)) == Run(Between(modulus, modulus / 2), Closing())
  {
    hide Step;
    var n := modulus / 2 - 1;
    RunConcat(Init(modulus, [0, 0]), Opening(), FirstWrite() + (EmptyWrites(n) + Closing()));
    OpeningRuns(modulus);
    RunConcat(AfterOpening(modulus), FirstWrite(), EmptyWrites(n) + Closing());
    FirstWriteRuns(modulus);
    RunConcat(Between(modulus, 1), EmptyWrites(n), Closing());
    ManyEmptyWrites(modulus, 1, n);
  }

  /** For every size of the lock word there is a run in which a read validates after
      exactly one turn of the counter although no version of the data holds what it saw. */
  lemma WrappedReadIsTorn(modulus: nat)
    requires modulus >= 2 && modulus % 2 == 0
    ensures var s := Run(Init(modulus, [0, 0]), WrappingRun(modulus));
      && 1 in s.pcs && s.pcs[1].Validated? && s.pcs[1].end - s.pcs[1].start == modulus
      && forall k: nat :: !SeenIn(s.published, s.pcs[1].seen, k)
  {
    hide Step, Run, WrappingRun;
    WrappingRunEnds(modulus);
    ClosingRuns(modulus);
    var s := Run(Init(modulus, [0, 0]), WrappingRun(modulus));
    forall k: nat
      ensures !SeenIn(s.published, s.pcs[1].seen, k)
    {
      assert (0, 0) in s.pcs[1].seen && (1, 1) in s.pcs[1].seen;
      assert k < |s.published| ==> s.published[k] == if k == 0 then [0, 0] else [1, 1];
      assert (0, 0).0 == 0 && (0, 0).1 == 0 && (1, 1).0 == 1 && (1, 1).1 == 1;
    }
  }
}
