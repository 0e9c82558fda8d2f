/** What the sequence lock does for a thread that reads or writes: what is stored is what is
    published, and a read that nobody disturbs is accepted. */
module SeqlockLaws {
  import opened Powers
  import opened Seqlock

  // ----- writing -----

  /** The stores among acts, applied to data in order. */
  function Applied(data: seq<int>, acts: seq<Act>): (r: seq<int>)
    ensures |r| == |data|
    decreases |acts|
  {
    if |acts| == 0 then data
    else
      var before := Applied(data, acts[..|acts| - 1]);
      match acts[|acts| - 1]
      case Put(i, v) => if i < |data| then before[i := v] else before
      case _ => before
  }

  /** What thread t does in a schedule. */
  function ActsOf(t: nat, schedule: seq<Choice>): (acts: seq<Act>)
    decreases |schedule|
  {
    if |schedule| == 0 then []
    else
      var rest := ActsOf(t, schedule[..|schedule| - 1]);
      if schedule[|schedule| - 1].thread == t then rest + [schedule[|schedule| - 1].act] else rest
  }

  /** Data changes by exactly the stores of the thread that is inside. */
  lemma DataChange(s: State, t: nat, a: Act)
    requires Inv(s)
    ensures Step(s, t, a).data
         == if s.writer != 0 && t == s.writer && a.Put? && a.index < |s.data| then s.data[a.index := a.value]
            else s.data
  {
    if t in s.pcs {
      assert ThreadOk(s, t);
    }
  }

  /** Versions change by exactly the entry of a writer, to the odd one after, and by its
      leaving, which publishes the data as it stands. */
  lemma VersionChange(s: State, t: nat, a: Act)
    requires Inv(s)
    ensures var r := Step(s, t, a);
      if s.writer != 0 && t == s.writer && a.Finish? then
        r.version == s.version + 1 && r.published == s.published + [s.data] && r.writer == 0 && PcOf(r, t) == Idle
      else if r.writer != s.writer then
        s.writer == 0 && r.writer == t && r.version == s.version + 1 && r.published == s.published
      else r.version == s.version && r.published == s.published
  {
    if t in s.pcs {
      assert ThreadOk(s, t);
      EvenModulus(s.version, s.modulus);
    }
  }

  lemma RunLast(s: State, schedule: seq<Choice>)
    requires |schedule| > 0
    ensures var n := |schedule| - 1;
      Run(s, schedule) == Step(Run(s, schedule[..n]), schedule[n].thread, schedule[n].act)
  {
    hide Step;
    var n := |schedule| - 1;
    assert schedule == schedule[..n] + [schedule[n]];
    RunConcat(s, schedule[..n], [schedule[n]]);
    LastStep(Run(s, schedule[..n]), schedule[n]);
  }

  /** Over any interleaving a writer that stays inside finds, and will publish, the data it
      entered with and its own stores in order; nothing is published meanwhile. */
  lemma {:induction false} WriterOwnsData(s: State, schedule: seq<Choice>)
    requires Inv(s) && s.writer != 0 && Choice(s.writer, Finish) !in schedule
    ensures var r := Run(s, schedule);
      && Inv(r) && r.writer == s.writer && r.version == s.version && r.published == s.published
      && r.data == Applied(s.data, ActsOf(s.writer, schedule))
    decreases |schedule|
  {
    hide Inv, Step;
    if |schedule| > 0 {
      var n := |schedule| - 1;
      var m := Run(s, schedule[..n]);
      WriterOwnsData(s, schedule[..n]);
      RunLast(s, schedule);
      assert schedule[n] in schedule;
      StepKeeps(m, schedule[n].thread, schedule[n].act);
      WriterStays(m, schedule[n].thread, schedule[n].act);
      DataChange(m, schedule[n].thread, schedule[n].act);
      AppliedLast(s.data, ActsOf(s.writer, schedule[..n]), schedule[n].act);
    }
  }

  lemma AppliedLast(data: seq<int>, acts: seq<Act>, a: Act)
    ensures Applied(data, acts + [a])
         == if a.Put? && a.index < |data| then Applied(data, acts)[a.index := a.value] else Applied(data, acts)
  {
    var all := acts + [a];
    assert all[..|all| - 1] == acts;
  }

  lemma WriterStays(s: State, t: nat, a: Act)
    requires Inv(s) && s.writer != 0 && !(t == s.writer && a == Finish)
    ensures var r := Step(s, t, a);
      r.writer == s.writer && r.version == s.version && r.published == s.published
  {
    if t != s.writer {
      WriterKeepsOthersOut(s, t, a);
    }
  }

  /** A complete write over any interleaving: what becomes the newest version is the data at
      entry with the writer's own stores applied in order. */
  lemma WritePublishes(s: State, schedule: seq<Choice>)
    requires Inv(s) && s.writer != 0 && Choice(s.writer, Finish) !in schedule
    ensures var r := Run(s, schedule + [Choice(s.writer, Finish)]);
            var d := Applied(s.data, ActsOf(s.writer, schedule));
      r.data == d && r.published == s.published + [d] && r.version == s.version + 1 && r.writer == 0
  {
    hide Inv, Step;
    WriterOwnsData(s, schedule);
    RunConcat(s, schedule, [Choice(s.writer, Finish)]);
    LastStep(Run(s, schedule), Choice(s.writer, Finish));
    VersionChange(Run(s, schedule), s.writer, Finish);
    DataChange(Run(s, schedule), s.writer, Finish);
  }

  predicate CanStart(s: State, t: nat) {
    t != 0 && (PcOf(s, t).Idle? || PcOf(s, t).Validated? || PcOf(s, t).Rejected?)
  }

  /** With nobody inside, a thread that wants to write is in after at most two steps that do
      not fail spuriously, and the data is as it was. */
  lemma WriterGetsIn(s: State, t: nat)
    requires Inv(s) && s.writer == 0 && t != 0 && (PcOf(s, t).Trying? || PcOf(s, t).Waiting?)
    ensures var s1 := Step(s, t, Advance(false));
            var r := if s1.writer == t then s1 else Step(s1, t, Advance(false));
      && PcOf(r, t) == Inside && r.writer == t && r.version == s.version + 1
      && r.data == s.data && r.published == s.published
    ensures Step(s, t, Advance(true)).data == s.data && PcOf(Step(s, t, Advance(true)), t).Trying?
  {
    EvenModulus(s.version, s.modulus);
    assert ThreadOk(s, t);
  }

  /** A complete write by t alone: it begins, enters, does acts and leaves. */
  function WriteAlone(s: State, t: nat, acts: seq<Act>): State {
    var begun := Step(s, t, BeginWrite);
    var tried := Step(begun, t, Advance(false));
    var entered := if tried.writer == t then tried else Step(tried, t, Advance(false));
    Step(Run(entered, Alone(t, acts)), t, Finish)
  }

  function Alone(t: nat, acts: seq<Act>): (schedule: seq<Choice>)
    ensures |schedule| == |acts|
    ensures forall k | 0 <= k < |acts| :: schedule[k] == Choice(t, acts[k])
  {
    seq(|acts|, k requires 0 <= k < |acts| => Choice(t, acts[k]))
  }

  lemma {:induction false} ActsOfAlone(t: nat, acts: seq<Act>)
    ensures ActsOf(t, Alone(t, acts)) == acts
    decreases |acts|
  {
    if |acts| > 0 {
      var n := |acts| - 1;
      ActsOfAlone(t, acts[..n]);
      assert Alone(t, acts)[..n] == Alone(t, acts[..n]);
      assert acts == acts[..n] + [acts[n]];
    }
  }

  /** It ends with the data, and the one version newly published, equal to the old data with
      its stores applied in order. */
  lemma WriteAlonePublishes(s: State, t: nat, acts: seq<Act>)
    requires Inv(s) && s.writer == 0 && CanStart(s, t) && Finish !in acts
    ensures var r := WriteAlone(s, t, acts); var d := Applied(s.data, acts);
      && Inv(r) && r.data == d && r.published == s.published + [d] && r.version == s.version + 2
      && r.writer == 0 && PcOf(r, t) == Idle
  {
    hide Inv, Run;
    StepKeeps(s, t, BeginWrite);
    WriteBegins(s, t);
    var begun := Step(s, t, BeginWrite);
    WriterGetsIn(begun, t);
    StepKeeps(begun, t, Advance(false));
    var tried := Step(begun, t, Advance(false));
    StepKeeps(tried, t, Advance(false));
    var entered := if tried.writer == t then tried else Step(tried, t, Advance(false));
    forall c | c in Alone(t, acts)
      ensures c != Choice(t, Finish)
    {
      var k :| 0 <= k < |acts| && Alone(t, acts)[k] == c;
      assert acts[k] in acts;
    }
    WriterOwnsData(entered, Alone(t, acts));
    ActsOfAlone(t, acts);
    var m := Run(entered, Alone(t, acts));
    VersionChange(m, t, Finish);
    DataChange(m, t, Finish);
    StepKeeps(m, t, Finish);
  }

  lemma WriteBegins(s: State, t: nat)
    requires CanStart(s, t)
    ensures Step(s, t, BeginWrite) == Goto(s, t, Trying(0, 1))
  {
  }

  // ----- reading -----

  /** Exactly when a read is accepted: it began with no writer inside, and the counter stands
      where it did or whole turns further on. */
  lemma AcceptedIff(s: State, t: nat)
    requires Inv(s) && t in s.pcs && s.pcs[t].Reading?
    ensures var p := s.pcs[t]; var q := PcOf(Step(s, t, Check), t);
      && (q.Validated? || q == Rejected)
      && (q.Validated? <==> p.start % 2 == 0 && (s.version - p.start) % s.modulus == 0)
      && (q.Validated? ==> q == Validated(p.start, s.version, p.seen))
  {
    assert ThreadOk(s, t);
    EvenModulus(s.pcs[t].start, s.modulus);
    RemaindersAgreeIff(s.pcs[t].start, s.version, s.modulus);
  }

  lemma RemaindersAgreeIff(a: nat, b: nat, m: nat)
    requires m > 0 && a <= b
    ensures a % m == b % m <==> (b - a) % m == 0
  {
    if a % m == b % m {
      SameRemainder(a, b, m);
    }
    if (b - a) % m == 0 {
      var k := (b - a) / m;
      assert b == a + k * m;
      ModShift(a, k, m);
    }
  }

  /** What indices show of data. */
  function Shown(data: seq<int>, indices: seq<nat>): set<(nat, int)> {
    set k | 0 <= k < |indices| && indices[k] < |data| :: (indices[k], data[indices[k]])
  }

  function Gets(indices: seq<nat>): (acts: seq<Act>)
    ensures |acts| == |indices|
  {
    seq(|indices|, k requires 0 <= k < |indices| => Get(indices[k]))
  }

  lemma {:induction false} GetsCollect(s: State, t: nat, cookie: nat, start: nat, indices: seq<nat>)
    requires t != 0 && PcOf(s, t) == Reading(cookie, start, {})
    ensures Run(s, Alone(t, Gets(indices))).pcs == s.pcs[t := Reading(cookie, start, Shown(s.data, indices))]
    ensures Run(s, Alone(t, Gets(indices))) == s.(pcs := s.pcs[t := Reading(cookie, start, Shown(s.data, indices))])
    decreases |indices|
  {
    var schedule := Alone(t, Gets(indices));
    if |indices| == 0 {
      assert Shown(s.data, indices) == {};
      assert s.pcs[t := s.pcs[t]] == s.pcs;
    } else {
      var n := |indices| - 1;
      GetsCollect(s, t, cookie, start, indices[..n]);
      assert schedule[..n] == Alone(t, Gets(indices[..n]));
      RunLast(s, schedule);
      ShownMore(s.data, indices);
      var m := Run(s, schedule[..n]);
      OneGet(m, t, cookie, start, Shown(s.data, indices[..n]), indices[n]);
    }
  }

  lemma ShownMore(data: seq<int>, indices: seq<nat>)
    requires |indices| > 0
    ensures var n := |indices| - 1; var i := indices[n];
      Shown(data, indices) == Shown(data, indices[..n]) + if i < |data| then {(i, data[i])} else {}
  {
    var n := |indices| - 1;
    forall p | p in Shown(data, indices)
      ensures p in Shown(data, indices[..n]) || (indices[n] < |data| && p == (indices[n], data[indices[n]]))
    {
      var k :| 0 <= k < |indices| && indices[k] < |data| && p == (indices[k], data[indices[k]]);
      assert k < n ==> indices[..n][k] == indices[k];
    }
    forall p | p in Shown(data, indices[..n])
      ensures p in Shown(data, indices)
    {
      var k :| 0 <= k < n && indices[..n][k] < |data| && p == (indices[..n][k], data[indices[..n][k]]);
      assert indices[k] == indices[..n][k];
    }
  }

  lemma OneGet(s: State, t: nat, cookie: nat, start: nat, seen: set<(nat, int)>, i: nat)
    requires t != 0 && PcOf(s, t) == Reading(cookie, start, seen)
    ensures Step(s, t, Get(i))
         == Goto(s, t, Reading(cookie, start, seen + if i < |s.data| then {(i, s.data[i])} else {}))
  {
    assert s.pcs[t := s.pcs[t]] == s.pcs && seen + {} == seen;
  }

  /** A read by t alone: it begins, looks at the words named and checks. */
  function ReadAlone(s: State, t: nat, indices: seq<nat>): State {
    Step(Run(Step(s, t, BeginRead), Alone(t, Gets(indices))), t, Check)
  }

  /** With nobody inside it is accepted, having seen exactly the words it looked at, and
      changes nothing. */
  lemma ReadAloneAccepted(s: State, t: nat, indices: seq<nat>)
    requires Inv(s) && s.writer == 0 && CanStart(s, t)
    ensures ReadAlone(s, t, indices)
         == s.(pcs := s.pcs[t := Validated(s.version, s.version, Shown(s.data, indices))])
  {
    hide Inv, Run, Shown;
    var begun := Step(s, t, BeginRead);
    assert begun == Goto(s, t, Reading(s.word, s.version, {}));
    GetsCollect(begun, t, s.word, s.version, indices);
    var m := Run(begun, Alone(t, Gets(indices)));
    EvenWord(s);
    assert m.pcs[t := Validated(s.version, s.version, Shown(s.data, indices))]
        == s.pcs[t := Validated(s.version, s.version, Shown(s.data, indices))];
  }

  lemma EvenWord(s: State)
    requires Inv(s) && s.writer == 0
    ensures s.word % 2 == 0
  {
    EvenModulus(s.version, s.modulus);
  }

  /** The same from the start of any run. */
  lemma ReadersSeeWrites(modulus: nat, data: seq<int>, schedule: seq<Choice>, t: nat, indices: seq<nat>)
    requires modulus >= 2 && modulus % 2 == 0
    requires var s := Run(Init(modulus, data), schedule); s.writer == 0 && CanStart(s, t)
    ensures var s := Run(Init(modulus, data), schedule); var r := ReadAlone(s, t, indices);
      |s.published| > 0 && PcOf(r, t) == Validated(s.version, s.version, Shown(s.published[|s.published| - 1], indices))
  {
    RunKeeps(Init(modulus, data), schedule);
    var s := Run(Init(modulus, data), schedule);
    ReadAloneAccepted(s, t, indices);
  }
}
