/** One trial of the lottery and the statistics that accumulate trials: the
    round-by-round draw loop over the students still in play, and the merge
    of a finished trial into the running totals. */
module Simulation {
  import opened Wrappers
  import opened Vacants
  import opened Students
  import opened Hospitals
  import opened Shuffling

  /** The outcome of one trial: the students left stuck, in the order they
      got stuck, and the vacancy table at the end. */
  datatype Trial = Trial(victims: seq<Student>, vacants: Table)

  /** The running totals: trials, trials without victims, failures per
      student name, and the leftover vacancies summed over all trials. */
  datatype State = State(count: nat, success: nat, fails: map<string, nat>, vacants: Table)

  function NameOf(s: Student): string
  {
    s.name
  }

  function Names(xs: seq<Student>): seq<string>
  {
    Map(NameOf, xs)
  }

  /** The failure count of a name, zero when it was never recorded. */
  function Get(m: map<string, nat>, n: string): nat
  {
    if n in m then m[n] else 0
  }

  lemma NamesCons(s: Student, xs: seq<Student>)
    ensures multiset(Names([s] + xs)) == multiset{s.name} + multiset(Names(xs))
  {
    MapAppend(NameOf, [s], xs);
  }

  lemma NamesSnoc(xs: seq<Student>, s: Student)
    ensures multiset(Names(xs + [s])) == multiset(Names(xs)) + multiset{s.name}
  {
    MapAppend(NameOf, xs, [s]);
  }

  // ---------------------------------------------------------------------------
  // Merging a trial into the totals

  /** The all-zero totals. */
  function Default(): State
  {
    State(0, 0, map[], Zeros())
  }

  /** `entry(name).and_modify(|c| *c += 1).or_insert(1)`: one more failure
      for `n`, nothing else changes. */
  function Bump(fails: map<string, nat>, n: string): (r: map<string, nat>)
    ensures forall x :: x in r <==> x in fails || x == n
    ensures forall x :: Get(r, x) == Get(fails, x) + (if x == n then 1 else 0)
  {
    fails[n := if n in fails then fails[n] + 1 else 1]
  }

  /** How many of `xs` carry the name `n`. */
  function Tally(xs: seq<Student>, n: string): nat
  {
    if xs == [] then 0 else (if xs[0].name == n then 1 else 0) + Tally(xs[1..], n)
  }

  /** The tally of a name is its multiplicity among the names. */
  lemma {:induction false} TallyNames(xs: seq<Student>, n: string)
    ensures Tally(xs, n) == multiset(Names(xs))[n]
  {
    if xs == [] {
      assert Names(xs) == [];
    } else {
      assert xs == [xs[0]] + xs[1..];
      NamesCons(xs[0], xs[1..]);
      TallyNames(xs[1..], n);
    }
  }

  /** Counts one failure for every victim, by name: a name seen for the first
      time starts at one. */
  function RecordFails(fails: map<string, nat>, victims: seq<Student>): (r: map<string, nat>)
    ensures forall n :: n in r <==> n in fails || Tally(victims, n) > 0
    ensures forall n :: Get(r, n) == Get(fails, n) + Tally(victims, n)
    decreases |victims|
  {
    if victims == [] then fails
    else RecordFails(Bump(fails, victims[0].name), victims[1..])
  }

  /** Term-by-term sum of two vacancy tables. */
  function AddTables(a: Table, b: Table): (r: Table)
    ensures forall t, h :: 0 <= t < TERMS ==> Count(r[t], h) == Count(a[t], h) + Count(b[t], h)
  {
    seq(TERMS, t requires 0 <= t < TERMS => Add(a[t], b[t]))
  }

  /** `state += trial`. */
  function Merge(st: State, tr: Trial): (r: State)
    ensures r.count == st.count + 1
    ensures r.success == st.success + (if |tr.victims| == 0 then 1 else 0)
    ensures forall n :: n in r.fails <==> n in st.fails || Tally(tr.victims, n) > 0
    ensures forall n :: Get(r.fails, n) == Get(st.fails, n) + Tally(tr.victims, n)
    ensures forall t, h :: 0 <= t < TERMS ==> Count(r.vacants[t], h) == Count(st.vacants[t], h) + Count(tr.vacants[t], h)
  {
    State(st.count + 1,
          if tr.victims == [] then st.success + 1 else st.success,
          RecordFails(st.fails, tr.victims),
          AddTables(st.vacants, tr.vacants))
  }

  /** Merging into the all-zero totals records the trial as it is. */
  lemma MergeIntoDefault(tr: Trial)
    ensures Merge(Default(), tr).count == 1
    ensures Merge(Default(), tr).success == 1 <==> tr.victims == []
    ensures forall n :: Get(Merge(Default(), tr).fails, n) == Tally(tr.victims, n)
    ensures Merge(Default(), tr).vacants == tr.vacants
  {
    var v := Merge(Default(), tr).vacants;
    forall t | 0 <= t < TERMS ensures v[t] == tr.vacants[t] {
      CountExtensional(v[t], tr.vacants[t]);
    }
  }

  lemma RecordFailsSameKeys(fails: map<string, nat>, a: seq<Student>, b: seq<Student>)
    ensures forall n :: n in RecordFails(RecordFails(fails, a), b) <==> n in RecordFails(RecordFails(fails, b), a)
  {
  }

  lemma RecordFailsSameCounts(fails: map<string, nat>, a: seq<Student>, b: seq<Student>)
    ensures forall n :: Get(RecordFails(RecordFails(fails, a), b), n) == Get(RecordFails(RecordFails(fails, b), a), n)
  {
  }

  /** Failures recorded for two lists of victims add up the same in either
      order. */
  lemma RecordFailsCommute(fails: map<string, nat>, a: seq<Student>, b: seq<Student>)
    ensures RecordFails(RecordFails(fails, a), b) == RecordFails(RecordFails(fails, b), a)
  {
    RecordFailsSameKeys(fails, a, b);
    RecordFailsSameCounts(fails, a, b);
    SameTallies(RecordFails(RecordFails(fails, a), b), RecordFails(RecordFails(fails, b), a));
  }

  /** Two tallies with the same names and the same counts are the same map. */
  lemma SameTallies(m1: map<string, nat>, m2: map<string, nat>)
    requires forall n :: n in m1 <==> n in m2
    requires forall n :: Get(m1, n) == Get(m2, n)
    ensures m1 == m2
  {
    forall n | n in m1 ensures m1[n] == m2[n] {
      assert Get(m1, n) == Get(m2, n);
    }
  }

  lemma AddTablesCommute(v: Table, a: Table, b: Table)
    ensures AddTables(AddTables(v, a), b) == AddTables(AddTables(v, b), a)
  {
    var ab := AddTables(AddTables(v, a), b);
    var ba := AddTables(AddTables(v, b), a);
    forall t | 0 <= t < TERMS ensures ab[t] == ba[t] {
      CountExtensional(ab[t], ba[t]);
    }
  }

  /** The order in which trials arrive does not matter. */
  lemma MergeCommutes(st: State, a: Trial, b: Trial)
    ensures Merge(Merge(st, a), b) == Merge(Merge(st, b), a)
  {
    RecordFailsCommute(st.fails, a.victims, b.victims);
    AddTablesCommute(st.vacants, a.vacants, b.vacants);
  }

  // ---------------------------------------------------------------------------
  // One round of draws

  /** Slots a student still has to fill. */
  function Open(s: Student): nat
  {
    TERMS - Assigned(s.selection)
  }

  function OpenSlots(xs: seq<Student>): nat
  {
    Sum(Map(Open, xs))
  }

  lemma OpenSlotsCons(s: Student, xs: seq<Student>)
    ensures OpenSlots([s] + xs) == Open(s) + OpenSlots(xs)
  {
    MapAppend(Open, [s], xs);
    SumAppend(Map(Open, [s]), Map(Open, xs));
  }

  lemma OpenSlotsSnoc(xs: seq<Student>, s: Student)
    ensures OpenSlots(xs + [s]) == OpenSlots(xs) + Open(s)
  {
    MapAppend(Open, xs, [s]);
    SumAppend(Map(Open, xs), Map(Open, [s]));
  }

  predicate AllWithinQuota(xs: seq<Student>)
  {
    forall i :: 0 <= i < |xs| ==> WithinQuota(xs[i])
  }

  /** A student the trial loop can handle: one who is done is skipped
      before any draw, and one with an open slot fits the quota. */
  predicate Playable(s: Student)
  {
    Done(s) || WithinQuota(s)
  }

  predicate AllPlayable(xs: seq<Student>)
  {
    forall i :: 0 <= i < |xs| ==> Playable(xs[i])
  }

  predicate NoneDone(xs: seq<Student>)
  {
    forall i :: 0 <= i < |xs| ==> !Done(xs[i])
  }

  lemma AllWithinQuotaSnoc(xs: seq<Student>, s: Student)
    ensures AllWithinQuota(xs) && WithinQuota(s) ==> AllWithinQuota(xs + [s])
  {
    assert forall i :: 0 <= i < |xs| ==> (xs + [s])[i] == xs[i];
  }

  lemma NoneDoneSnoc(xs: seq<Student>, s: Student)
    ensures NoneDone(xs) && !Done(s) ==> NoneDone(xs + [s])
  {
    assert forall i :: 0 <= i < |xs| ==> (xs + [s])[i] == xs[i];
  }

  /** Where a round stands: the table, the students who drew a placement, the
      students who got stuck, and the next unused draw. */
  datatype Pass = Pass(table: Table, advanced: seq<Student>, victims: seq<Student>, pos: nat)

  /** One student's turn in a round: a student who is done is skipped
      without a draw; otherwise `random_select` either places the student,
      who advances to the next round, or fails, and the student becomes a
      victim. A draw is used only when the student has choices. */
  function Step(acc: Pass, s: Student, rng: nat -> nat): Pass
    requires Playable(s)
  {
    if Done(s) then acc
    else
      match RandomSelect(acc.table, s, rng(acc.pos))
      case None => acc.(victims := acc.victims + [s])
      case Some(p) => Pass(p.table, acc.advanced + [p.student], acc.victims, acc.pos + 1)
  }

  /** One turn only ever takes vacancies, exactly one per placement. */
  lemma StepTable(acc: Pass, s: Student, rng: nat -> nat)
    requires Playable(s)
    ensures var r := Step(acc, s, rng);
      && NoLarger(r.table, acc.table)
      && TableLen(r.table) + |r.advanced| == TableLen(acc.table) + |acc.advanced|
  {
    if !Done(s) {
      var draw := rng(acc.pos);
      if RandomSelect(acc.table, s, draw).Some? {
        SelectCommits(acc.table, s, draw);
      }
    }
  }

  /** After one turn, students who advance stay within quota, victims are
      not done, the student ends up at most once among the advanced and the
      victims, and the open slots in play do not grow. */
  lemma StepStudents(acc: Pass, s: Student, rng: nat -> nat)
    requires Playable(s)
    ensures var r := Step(acc, s, rng);
      && (AllWithinQuota(acc.advanced) ==> AllWithinQuota(r.advanced))
      && (NoneDone(acc.victims) ==> NoneDone(r.victims))
    ensures var r := Step(acc, s, rng);
      && multiset(Names(r.advanced)) + multiset(Names(r.victims))
           <= multiset(Names(acc.advanced)) + multiset(Names(acc.victims)) + multiset{s.name}
      && OpenSlots(r.advanced) + |r.advanced| <= OpenSlots(acc.advanced) + |acc.advanced| + Open(s)
  {
    if !Done(s) {
      var draw := rng(acc.pos);
      match RandomSelect(acc.table, s, draw)
      case None =>
        NoneDoneSnoc(acc.victims, s);
        NamesSnoc(acc.victims, s);
      case Some(p) =>
        SelectCommits(acc.table, s, draw);
        AllWithinQuotaSnoc(acc.advanced, p.student);
        NamesSnoc(acc.advanced, p.student);
        OpenSlotsSnoc(acc.advanced, p.student);
    }
  }

  /** One round: every student of `order` takes a turn, in that order. */
  function RunPass(acc: Pass, order: seq<Student>, rng: nat -> nat): Pass
    requires AllPlayable(order)
    decreases |order|
  {
    if order == [] then acc else RunPass(Step(acc, order[0], rng), order[1..], rng)
  }

  /** A round keeps what every turn keeps. */
  lemma {:induction false} PassSpec(acc: Pass, order: seq<Student>, rng: nat -> nat)
    requires AllPlayable(order)
    ensures var r := RunPass(acc, order, rng);
      && NoLarger(r.table, acc.table)
      && TableLen(r.table) + |r.advanced| == TableLen(acc.table) + |acc.advanced|
      && (AllWithinQuota(acc.advanced) ==> AllWithinQuota(r.advanced))
      && (NoneDone(acc.victims) ==> NoneDone(r.victims))
    ensures var r := RunPass(acc, order, rng);
      && multiset(Names(r.advanced)) + multiset(Names(r.victims))
           <= multiset(Names(acc.advanced)) + multiset(Names(acc.victims)) + multiset(Names(order))
      && OpenSlots(r.advanced) + |r.advanced| <= OpenSlots(acc.advanced) + |acc.advanced| + OpenSlots(order)
    decreases |order|
  {
    if order != [] {
      var s := order[0];
      assert order == [s] + order[1..];
      NamesCons(s, order[1..]);
      OpenSlotsCons(s, order[1..]);
      StepTable(acc, s, rng);
      StepStudents(acc, s, rng);
      PassSpec(Step(acc, s, rng), order[1..], rng);
    }
  }

  // ---------------------------------------------------------------------------
  // The trial

  /** A shuffle only reorders: it keeps the quota invariant, the names and
      the open slots. */
  lemma ShuffleKeeps(alives: seq<Student>, rng: nat -> nat, pos: nat)
    requires AllPlayable(alives)
    ensures AllPlayable(Shuffle(alives, rng, pos))
    ensures multiset(Names(Shuffle(alives, rng, pos))) == multiset(Names(alives))
    ensures OpenSlots(Shuffle(alives, rng, pos)) == OpenSlots(alives)
  {
    var order := Shuffle(alives, rng, pos);
    forall i | 0 <= i < |order| ensures Playable(order[i]) {
      assert order[i] in multiset(alives);
    }
    MapShuffle(NameOf, alives, rng, pos);
    MapShuffle(Open, alives, rng, pos);
    SumShuffle(Map(Open, alives), rng, pos);
  }

  /** One round of the trial loop: shuffle the students in play, then let
      each take a turn, starting with no one advanced. */
  function Round(table: Table, alives: seq<Student>, victims: seq<Student>, rng: nat -> nat, pos: nat): Pass
    requires AllPlayable(alives)
  {
    ShuffleKeeps(alives, rng, pos);
    RunPass(Pass(table, [], victims, pos + ShuffleDraws(|alives|)), Shuffle(alives, rng, pos), rng)
  }

  /** A round keeps the invariants, and a round that places somebody fills
      at least one open slot: the measure that makes the trial loop end. */
  lemma RoundSpec(table: Table, alives: seq<Student>, victims: seq<Student>, rng: nat -> nat, pos: nat)
    requires AllPlayable(alives)
    ensures var p := Round(table, alives, victims, rng, pos);
      && NoLarger(p.table, table)
      && AllWithinQuota(p.advanced)
      && (NoneDone(victims) ==> NoneDone(p.victims))
      && (p.advanced != [] ==> OpenSlots(p.advanced) < OpenSlots(alives))
    ensures var p := Round(table, alives, victims, rng, pos);
      multiset(Names(p.advanced)) + multiset(Names(p.victims)) <= multiset(Names(victims)) + multiset(Names(alives))
  {
    var order := Shuffle(alives, rng, pos);
    ShuffleKeeps(alives, rng, pos);
    var start := Pass(table, [], victims, pos + ShuffleDraws(|alives|));
    PassSpec(start, order, rng);
    assert multiset(Names([])) == multiset{};
  }

  /** The rounds of one trial, until a round places nobody. */
  function RunTrial(table: Table, alives: seq<Student>, victims: seq<Student>, rng: nat -> nat, pos: nat): Trial
    requires AllPlayable(alives)
    decreases OpenSlots(alives)
  {
    var p := Round(table, alives, victims, rng, pos);
    RoundSpec(table, alives, victims, rng, pos);
    if p.advanced == [] then Trial(p.victims, p.table)
    else RunTrial(p.table, p.advanced, p.victims, rng, p.pos)
  }

  /** What a whole trial keeps: no vacancy count grows, no victim is done,
      and every victim is a student who was in play, at most once. */
  lemma {:induction false} TrialSpec(table: Table, alives: seq<Student>, victims: seq<Student>, rng: nat -> nat, pos: nat)
    requires AllPlayable(alives) && NoneDone(victims)
    ensures var r := RunTrial(table, alives, victims, rng, pos);
      && NoLarger(r.vacants, table)
      && NoneDone(r.victims)
      && multiset(Names(r.victims)) <= multiset(Names(victims)) + multiset(Names(alives))
    decreases OpenSlots(alives)
  {
    var p := Round(table, alives, victims, rng, pos);
    RoundSpec(table, alives, victims, rng, pos);
    var before := multiset(Names(victims)) + multiset(Names(alives));
    var during := multiset(Names(p.advanced)) + multiset(Names(p.victims));
    var r := RunTrial(table, alives, victims, rng, pos);
    if p.advanced == [] {
      assert r == Trial(p.victims, p.table);
      assert multiset(Names(p.victims)) == during;
    } else {
      assert r == RunTrial(p.table, p.advanced, p.victims, rng, p.pos);
      TrialSpec(p.table, p.advanced, p.victims, rng, p.pos);
      SubMultisetTrans(multiset(Names(r.victims)), multiset(Names(p.victims)) + multiset(Names(p.advanced)), before);
    }
  }

  lemma SubMultisetTrans<T>(a: multiset<T>, b: multiset<T>, c: multiset<T>)
    requires a <= b && b <= c
    ensures a <= c
  {
  }

  /** One trial from the baseline table with every student in play and no
      victims yet: no vacancy count ever grows, no victim is done, and each
      student name is among the victims at most as often as among the
      students, so a student is stuck at most once per trial. */
  function SimulateTrial(baseline: Table, students: seq<Student>, rng: nat -> nat): (r: Trial)
    requires AllPlayable(students)
    ensures NoLarger(r.vacants, baseline)
    ensures NoneDone(r.victims)
    ensures multiset(Names(r.victims)) <= multiset(Names(students))
  {
    TrialSpec(baseline, students, [], rng, 0);
    RunTrial(baseline, students, [], rng, 0)
  }

}
