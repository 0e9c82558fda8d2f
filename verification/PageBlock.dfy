/** The lock-free bump allocator as a step machine: any number of threads, one atomic
    access a step, compare-exchange that may fail spuriously.

    granted lists the ranges in the order their compare-exchange succeeded; ticket is a
    thread's place in it, and since is how many grants there had been when a thread last
    loaded the cursor.  The three record history and steer nothing. */
module PageBlock {
  datatype Range = Range(start: nat, size: nat)

  datatype Pc =
    | Idle
    | Trying(local: nat, size: nat, since: nat)
    | Returned(ticket: nat)
    | Refused(size: nat)

  type Modulus = n: nat | n > 0 witness 1

  datatype State = State(
    words: Modulus,            // addresses count modulo this
    beginning: nat,
    limit: nat,
    cursor: nat,
    pcs: map<nat, Pc>,
    granted: seq<Range>)

  datatype Act = Call(bytes: nat) | Attempt(weak: bool)

  datatype Choice = Choice(thread: nat, act: Act)

  /** Subtraction of two address words. */
  function Minus(a: nat, b: nat, words: Modulus): nat { (a - b) % words }

  function PcOf(s: State, t: nat): Pc { if t in s.pcs then s.pcs[t] else Idle }

  function Goto(s: State, t: nat, pc: Pc): State { s.(pcs := s.pcs[t := pc]) }

  function Step(s: State, t: nat, a: Act): State {
    match (PcOf(s, t), a)
    case (Trying(local, size, since), Attempt(weak)) =>
      if Minus(s.limit, local, s.words) <= size then Goto(s, t, Refused(size))
      else if s.cursor != local || weak then Goto(s, t, Trying(s.cursor, size, |s.granted|))
      else Goto(s, t, Returned(|s.granted|)).(
        cursor := (local + size) % s.words, granted := s.granted + [Range(local, size)])
    case (Trying(_, _, _), Call(_)) => s
    case (_, Call(size)) => if size < s.words then Goto(s, t, Trying(s.cursor, size, |s.granted|)) else s
    case _ => s
  }

  function Init(words: nat, beginning: nat, size: nat): State
    requires beginning + size < words
  {
    State(words, beginning, beginning + size, beginning, map[], [])
  }

  function Run(s: State, schedule: seq<Choice>): State
    decreases |schedule|
  {
    if |schedule| == 0 then s else Run(Step(s, schedule[0].thread, schedule[0].act), schedule[1..])
  }

  // ----- invariant -----

  /** The ranges follow one another without gap or overlap from from up to to. */
  ghost predicate Contiguous(ranges: seq<Range>, from: nat, to: nat) {
    if |ranges| == 0 then from == to
    else
      && ranges[|ranges| - 1].start + ranges[|ranges| - 1].size == to
      && Contiguous(ranges[..|ranges| - 1], from, ranges[|ranges| - 1].start)
  }

  ghost predicate ThreadOk(s: State, t: nat)
    requires t in s.pcs
  {
    match s.pcs[t]
    case Trying(local, size, since) =>
      s.beginning <= local <= s.cursor && size < s.words && since <= |s.granted|
      && (since == |s.granted| ==> local == s.cursor)
    case Returned(ticket) => ticket < |s.granted|
    case _ => true
  }

  ghost predicate Apart(s: State, t: nat, u: nat)
    requires t in s.pcs && u in s.pcs
  {
    t != u && s.pcs[t].Returned? && s.pcs[u].Returned? ==> s.pcs[t].ticket != s.pcs[u].ticket
  }

  ghost predicate Inv(s: State) {
    && s.beginning <= s.cursor <= s.limit < s.words
    && (s.cursor == s.limit ==> s.beginning == s.limit)
    && Contiguous(s.granted, s.beginning, s.cursor)
    && (forall t {:trigger ThreadOk(s, t)} | t in s.pcs :: ThreadOk(s, t))
    && (forall t, u {:trigger Apart(s, t, u)} | t in s.pcs && u in s.pcs :: Apart(s, t, u))
  }

  /** Below the limit the unsigned difference is the true one, and advancing by less than
      it does not wrap either. */
  lemma NoWrap(local: nat, size: nat, limit: nat, words: nat)
    requires local <= limit < words
    ensures Minus(limit, local, words) == limit - local
    ensures size < limit - local ==> (local + size) % words == local + size
  {
    SmallRemainder(limit - local, words);
    if size < limit - local {
      SmallRemainder(local + size, words);
    }
  }

  lemma SmallRemainder(x: nat, words: nat)
    requires x < words
    ensures x % words == x
  {
  }

  /** What an attempt of a thread does, without the wrapping arithmetic. */
  lemma AttemptStep(s: State, t: nat, weak: bool)
    requires Inv(s) && t in s.pcs && s.pcs[t].Trying?
    ensures var p := s.pcs[t];
      Step(s, t, Attempt(weak))
        == if s.limit - p.local <= p.size then Goto(s, t, Refused(p.size))
           else if s.cursor != p.local || weak then Goto(s, t, Trying(s.cursor, p.size, |s.granted|))
           else Goto(s, t, Returned(|s.granted|)).(
             cursor := p.local + p.size, granted := s.granted + [Range(p.local, p.size)])
  {
    hide Minus, Contiguous;
    assert ThreadOk(s, t);
    NoWrap(s.pcs[t].local, s.pcs[t].size, s.limit, s.words);
  }

  lemma ContiguousGrows(ranges: seq<Range>, from: nat, to: nat, size: nat)
    requires Contiguous(ranges, from, to)
    ensures Contiguous(ranges + [Range(to, size)], from, to + size)
  {
    var g := ranges + [Range(to, size)];
    assert g[..|g| - 1] == ranges;
  }

  lemma StepCursor(s: State, t: nat, a: Act)
    requires Inv(s)
    ensures var r := Step(s, t, a);
      && r.words == s.words && r.beginning == s.beginning && r.limit == s.limit
      && s.cursor <= r.cursor <= r.limit && (r.cursor == r.limit ==> r.beginning == r.limit)
      && s.granted <= r.granted && (|r.granted| == |s.granted| ==> r.cursor == s.cursor)
      && Contiguous(r.granted, r.beginning, r.cursor)
  {
    hide Minus, Contiguous;
    if t in s.pcs && s.pcs[t].Trying? && a.Attempt? {
      assert ThreadOk(s, t);
      AttemptStep(s, t, a.weak);
      ContiguousGrows(s.granted, s.beginning, s.cursor, s.pcs[t].size);
    }
  }

  lemma StepThreads(s: State, t: nat, a: Act, u: nat)
    requires Inv(s) && u in Step(s, t, a).pcs
    ensures ThreadOk(Step(s, t, a), u)
  {
    hide Minus, Contiguous;
    StepCursor(s, t, a);
    if u in s.pcs {
      assert ThreadOk(s, u);
    }
  }

  lemma StepApart(s: State, t: nat, a: Act, u: nat, v: nat)
    requires Inv(s) && u in Step(s, t, a).pcs && v in Step(s, t, a).pcs
    ensures Apart(Step(s, t, a), u, v)
  {
    if u in s.pcs && v in s.pcs {
      assert Apart(s, u, v) && ThreadOk(s, u) && ThreadOk(s, v);
    }
  }

  lemma StepKeeps(s: State, t: nat, a: Act)
    requires Inv(s)
    ensures var r := Step(s, t, a); Inv(r) && r.words == s.words && r.beginning == s.beginning && r.limit == s.limit
  {
    var r := Step(s, t, a);
    StepCursor(s, t, a);
    forall u | u in r.pcs
      ensures ThreadOk(r, u)
    {
      StepThreads(s, t, a, u);
    }
    forall u, v | u in r.pcs && v in r.pcs
      ensures Apart(r, u, v)
    {
      StepApart(s, t, a, u, v);
    }
  }

  lemma {:induction false} RunKeeps(s: State, schedule: seq<Choice>)
    requires Inv(s)
    ensures Inv(Run(s, schedule))
    ensures var r := Run(s, schedule); r.words == s.words && r.beginning == s.beginning && r.limit == s.limit
    decreases |schedule|
  {
    hide Inv, Step;
    if |schedule| > 0 {
      StepKeeps(s, schedule[0].thread, schedule[0].act);
      RunKeeps(Step(s, schedule[0].thread, schedule[0].act), schedule[1..]);
    }
  }

  lemma InitKeeps(words: nat, beginning: nat, size: nat, schedule: seq<Choice>)
    requires beginning + size < words
    ensures var s := Run(Init(words, beginning, size), schedule);
      Inv(s) && s.words == words && s.beginning == beginning && s.limit == beginning + size
  {
    RunKeeps(Init(words, beginning, size), schedule);
  }

  // ----- what it means -----

  function Total(ranges: seq<Range>): nat {
    if |ranges| == 0 then 0 else Total(ranges[..|ranges| - 1]) + ranges[|ranges| - 1].size
  }

  lemma {:induction false} ContiguousMeans(ranges: seq<Range>, from: nat, to: nat)
    requires Contiguous(ranges, from, to)
    ensures from + Total(ranges) == to
    ensures forall i | 0 <= i < |ranges| :: from <= ranges[i].start && ranges[i].start + ranges[i].size <= to
    ensures forall i, j | 0 <= i < j < |ranges| :: ranges[i].start + ranges[i].size <= ranges[j].start
  {
    if |ranges| > 0 {
      var rest := ranges[..|ranges| - 1];
      ContiguousMeans(rest, from, ranges[|ranges| - 1].start);
      assert forall i | 0 <= i < |rest| :: rest[i] == ranges[i];
    }
  }

  /** In every reachable state the granted ranges lie inside the block, each after the
      one granted before it, and their sizes add up to the distance the cursor moved; the
      cursor never reaches the limit of a block that is not empty. */
  lemma RangesAreDisjoint(words: nat, beginning: nat, size: nat, schedule: seq<Choice>)
    requires beginning + size < words
    ensures var s := Run(Init(words, beginning, size), schedule);
      && (forall i | 0 <= i < |s.granted| ::
            beginning <= s.granted[i].start && s.granted[i].start + s.granted[i].size <= s.cursor)
      && (forall i, j | 0 <= i < j < |s.granted| ::
            s.granted[i].start + s.granted[i].size <= s.granted[j].start)
      && Total(s.granted) == s.cursor - beginning
      && s.cursor <= beginning + size && (size > 0 ==> s.cursor < beginning + size)
  {
    InitKeeps(words, beginning, size, schedule);
    var s := Run(Init(words, beginning, size), schedule);
    ContiguousMeans(s.granted, beginning, s.cursor);
  }

  ghost predicate Overlap(a: Range, b: Range) {
    a.start < b.start + b.size && b.start < a.start + a.size && a.size > 0 && b.size > 0
  }

  /** Whatever two threads hold at the same time does not overlap. */
  lemma HoldersAreApart(words: nat, beginning: nat, size: nat, schedule: seq<Choice>, t: nat, u: nat)
    requires beginning + size < words && t != u
    requires var s := Run(Init(words, beginning, size), schedule);
      t in s.pcs && u in s.pcs && s.pcs[t].Returned? && s.pcs[u].Returned?
    ensures var s := Run(Init(words, beginning, size), schedule);
      && s.pcs[t].ticket < |s.granted| && s.pcs[u].ticket < |s.granted|
      && !Overlap(s.granted[s.pcs[t].ticket], s.granted[s.pcs[u].ticket])
  {
    InitKeeps(words, beginning, size, schedule);
    var s := Run(Init(words, beginning, size), schedule);
    ContiguousMeans(s.granted, beginning, s.cursor);
    assert Apart(s, t, u) && ThreadOk(s, t) && ThreadOk(s, u);
  }

  /** In any reachable state, an attempt is refused exactly when what was left when the
      thread loaded the cursor is no more than the request, and then what is left now is
      no more either.  An attempt that is neither refused nor granted failed spuriously,
      or another thread's grant came between. */
  lemma AttemptOutcome(s: State, t: nat, weak: bool)
    requires Inv(s) && t in s.pcs && s.pcs[t].Trying?
    ensures var p := s.pcs[t]; var q := Step(s, t, Attempt(weak)).pcs[t];
      && (q.Refused? <==> s.limit - p.local <= p.size)
      && (q.Refused? ==> s.limit - s.cursor <= p.size)
      && (q.Trying? ==> weak || p.since < |s.granted|)
      && (q.Returned? ==> Step(s, t, Attempt(weak)).granted == s.granted + [Range(s.cursor, p.size)])
  {
    hide Minus, Contiguous;
    assert ThreadOk(s, t);
    AttemptStep(s, t, weak);
  }

  /** Alone, and without a spurious failure, a request is granted if and only if strictly
      more than it is left: a request for exactly the rest of the block is refused, though
      its range would end at the limit and not beyond it. */
  lemma AloneGrantedIff(words: nat, beginning: nat, size: nat, schedule: seq<Choice>, t: nat, bytes: nat)
    requires beginning + size < words && bytes < words
    requires !PcOf(Run(Init(words, beginning, size), schedule), t).Trying?
    ensures var s := Run(Init(words, beginning, size), schedule);
            var r := Step(Step(s, t, Call(bytes)), t, Attempt(false));
      && (PcOf(r, t).Returned? <==> s.cursor + bytes < s.limit)
      && (PcOf(r, t).Returned? ==> r.cursor == s.cursor + bytes && r.granted == s.granted + [Range(s.cursor, bytes)])
      && (!PcOf(r, t).Returned? ==> PcOf(r, t).Refused? && r.cursor == s.cursor && r.granted == s.granted)
  {
    hide Minus, Contiguous;
    InitKeeps(words, beginning, size, schedule);
    var s := Run(Init(words, beginning, size), schedule);
    StepKeeps(s, t, Call(bytes));
    var m := Step(s, t, Call(bytes));
    AttemptStep(m, t, false);
  }
}
