/** The six-term vacancy table, the choices it offers one student, and the
    capacity-weighted draw that commits one placement. */
module Hospitals {
  import opened Wrappers
  import opened Vacants
  import opened Students

  /** One vacancy record per term. */
  type Table = t: seq<TermVacants> | |t| == TERMS
    witness [TermVacants(0, 0, 0, 0), TermVacants(0, 0, 0, 0), TermVacants(0, 0, 0, 0),
             TermVacants(0, 0, 0, 0), TermVacants(0, 0, 0, 0), TermVacants(0, 0, 0, 0)]

  function Zeros(): (r: Table)
    ensures forall t :: 0 <= t < TERMS ==> r[t] == Zero()
  {
    [Zero(), Zero(), Zero(), Zero(), Zero(), Zero()]
  }

  /** `a` has nowhere more vacancies than `b`. */
  predicate NoLarger(a: Table, b: Table)
  {
    forall t, h :: 0 <= t < TERMS ==> Count(a[t], h) <= Count(b[t], h)
  }

  // ---------------------------------------------------------------------------
  // Sizes

  /** Vacancies in the first `k` terms. */
  function PrefixLen(table: Table, k: nat): nat
    requires k <= TERMS
  {
    if k == 0 then 0 else PrefixLen(table, k - 1) + Len(table[k - 1])
  }

  /** `len()`: the number of vacancies over all terms. */
  function TableLen(table: Table): nat
  {
    PrefixLen(table, TERMS)
  }

  lemma {:induction false} PrefixLenMono(table: Table, a: nat, b: nat)
    requires a < b <= TERMS
    ensures PrefixLen(table, a) + Len(table[a]) <= PrefixLen(table, b)
    decreases b
  {
    if b > a + 1 {
      PrefixLenMono(table, a, b - 1);
    }
  }

  lemma {:induction false} PrefixLenZero(table: Table, k: nat)
    requires k <= TERMS
    ensures PrefixLen(table, k) == 0 <==> forall t :: 0 <= t < k ==> Len(table[t]) == 0
    decreases k
  {
    if k > 0 {
      PrefixLenZero(table, k - 1);
    }
  }

  /** Replacing the record of term `t` changes the size by the difference. */
  lemma {:induction false} PrefixLenUpdate(table: Table, t: nat, v: TermVacants, k: nat)
    requires t < TERMS && k <= TERMS
    ensures PrefixLen(table[t := v], k) + (if t < k then Len(table[t]) else 0)
         == PrefixLen(table, k) + (if t < k then Len(v) else 0)
    decreases k
  {
    if k > 0 {
      PrefixLenUpdate(table, t, v, k - 1);
    }
  }

  /** `is_empty()`: no term has a vacancy. */
  function TableIsEmpty(table: Table): bool
  {
    forall t :: 0 <= t < TERMS ==> IsEmpty(table[t])
  }

  /** A table is empty exactly when its `len()` is zero. */
  lemma TableIsEmptyLen(table: Table)
    ensures TableIsEmpty(table) <==> TableLen(table) == 0
  {
    PrefixLenZero(table, TERMS);
    forall t | 0 <= t < TERMS ensures IsEmpty(table[t]) <==> Len(table[t]) == 0 { }
  }

  // ---------------------------------------------------------------------------
  // The choices offered to one student

  /** Writes `Min(table[t], need)` at every term `t` listed in `terms`. */
  function Overlay(base: Table, table: Table, terms: seq<nat>, need: TermVacants): (r: Table)
    requires forall t :: t in terms ==> t < TERMS
    ensures forall t :: 0 <= t < TERMS ==> r[t] == if t in terms then Min(table[t], need) else base[t]
    decreases |terms|
  {
    if terms == [] then base
    else
      assert terms[0] in terms && forall t :: t in terms[1..] ==> t in terms;
      Overlay(base[terms[0] := Min(table[terms[0]], need)], table, terms[1..], need)
  }

  /** `table & student`: nothing on the terms the student has filled; on every
      open term, the table's vacancies capped by what the student still needs. */
  function Choices(table: Table, s: Student): (r: Table)
    requires WithinQuota(s)
    ensures forall t :: 0 <= t < TERMS ==> r[t] == ChoiceAt(table, s, t)
  {
    var terms := SelectableTerms(s);
    assert forall t :: 0 <= t < TERMS ==> (t in terms <==> s.selection[t].None?);
    Overlay(Zeros(), table, terms, RequiredHospitals(s))
  }

  /** What term `t` offers: nothing once filled, otherwise the table's
      vacancies capped by the student's need. */
  function ChoiceAt(table: Table, s: Student, t: nat): TermVacants
    requires WithinQuota(s) && t < TERMS
  {
    if s.selection[t].None? then Min(table[t], RequiredHospitals(s)) else Zero()
  }

  /** While the course is unknown, the student is offered every vacancy of
      every open term. */
  lemma ChoicesWithoutCourse(table: Table, s: Student, t: nat)
    requires WithinQuota(s) && InferCourse(s).None?
    requires t < TERMS && s.selection[t].None? && FitsUsize(table[t])
    ensures Choices(table, s)[t] == table[t]
  {
    MinInfinite(table[t]);
  }

  // ---------------------------------------------------------------------------
  // Flattened indexing

  /** The inner loop of `index`: walk the categories of one term from
      `Order[k]` on, with `acc` vacancies counted so far. */
  function PickInTerm(slot: TermVacants, i: nat, k: nat, acc: nat): Option<HospitalType>
    requires k <= |Order|
    decreases |Order| - k
  {
    if k == |Order| then None
    else
      var count := acc + Count(slot, Order[k]);
      if i < count then Some(Order[k]) else PickInTerm(slot, i, k + 1, count)
  }

  /** The inner loop finds index `i` of the term exactly in the block of the
      category containing it, once the categories before `Order[k]` are passed. */
  lemma PickInTermSpec(slot: TermVacants, i: nat, k: nat)
    requires k <= |Order| && PrefixCount(slot, k) <= i
    ensures PickInTerm(slot, i, k, PrefixCount(slot, k)).Some? <==> i < Len(slot)
    ensures forall h :: PickInTerm(slot, i, k, PrefixCount(slot, k)) == Some(h) <==>
      k <= Rank(h) && PrefixCount(slot, Rank(h)) <= i < PrefixCount(slot, Rank(h)) + Count(slot, h)
  {
    PickInTermFound(slot, i, k);
    forall h ensures PickInTerm(slot, i, k, PrefixCount(slot, k)) == Some(h) <==>
      k <= Rank(h) && PrefixCount(slot, Rank(h)) <= i < PrefixCount(slot, Rank(h)) + Count(slot, h)
    {
      PickInTermAt(slot, i, k, h);
    }
  }

  /** The walk finds some category exactly when the index is below the term's total. */
  lemma {:induction false} PickInTermFound(slot: TermVacants, i: nat, k: nat)
    requires k <= |Order| && PrefixCount(slot, k) <= i
    ensures PickInTerm(slot, i, k, PrefixCount(slot, k)).Some? <==> i < Len(slot)
    decreases |Order| - k
  {
    PrefixCountSteps(slot);
    if k < |Order| && PrefixCount(slot, k + 1) <= i {
      PickInTermFound(slot, i, k + 1);
    }
  }

  /** The walk stops at `h` exactly when the index lies in `h`'s block. */
  lemma {:induction false} PickInTermAt(slot: TermVacants, i: nat, k: nat, h: HospitalType)
    requires k <= |Order| && PrefixCount(slot, k) <= i
    ensures PickInTerm(slot, i, k, PrefixCount(slot, k)) == Some(h) <==>
      k <= Rank(h) && PrefixCount(slot, Rank(h)) <= i < PrefixCount(slot, Rank(h)) + Count(slot, h)
    decreases |Order| - k
  {
    PrefixCountSteps(slot);
    var r := PickInTerm(slot, i, k, PrefixCount(slot, k));
    if k < |Order| {
      RankOfOrder(k);
      var next := PrefixCount(slot, k + 1);
      if i < next {
        assert r == Some(Order[k]);
        if h != Order[k] && k <= Rank(h) {
          assert next <= PrefixCount(slot, Rank(h));
        }
      } else {
        PickInTermAt(slot, i, k + 1, h);
        assert r == PickInTerm(slot, i, k + 1, next);
      }
    }
  }

  /** The outer loop of `index`: walk the terms from `term` on, `i` being
      what is left of the index after the terms already passed. */
  function IndexFrom(table: Table, term: nat, i: nat): Option<(nat, HospitalType)>
    requires term <= TERMS
    decreases TERMS - term
  {
    if term == TERMS then None
    else
      var size := Len(table[term]);
      if i < size then
        match PickInTerm(table[term], i, 0, 0)
        case Some(h) => Some((term, h))
        case None => IndexFrom(table, term + 1, i)
      else IndexFrom(table, term + 1, i - size)
  }

  /** Where the block of indices owned by category `h` of term `t` starts. */
  function Offset(table: Table, t: nat, h: HospitalType): nat
    requires t < TERMS
  {
    PrefixLen(table, t) + PrefixCount(table[t], Rank(h))
  }

  /** Index `i` lies in the block of category `h` of term `t`. */
  predicate InBlock(table: Table, t: nat, h: HospitalType, i: nat)
  {
    t < TERMS && Offset(table, t, h) <= i < Offset(table, t, h) + Count(table[t], h)
  }

  /** The block of a category ends where the next category's block begins. */
  lemma BlockEnd(slot: TermVacants, h: HospitalType)
    ensures PrefixCount(slot, Rank(h)) + Count(slot, h) == PrefixCount(slot, Rank(h) + 1)
    ensures PrefixCount(slot, Rank(h) + 1) <= Len(slot)
  {
    match h
    case InnerMedical =>
    case InnerSurgical =>
    case OuterSurgical =>
    case OuterMedical =>
  }

  /** The block of (t, h) lies inside the indices of term `t`. */
  lemma BlockWithinTerm(table: Table, t: nat, h: HospitalType)
    requires t < TERMS
    ensures PrefixLen(table, t) <= Offset(table, t, h)
    ensures Offset(table, t, h) + Count(table[t], h) <= PrefixLen(table, t) + Len(table[t])
  {
    BlockEnd(table[t], h);
  }

  /** The blocks of later terms start after every index of term `term`. */
  lemma LaterTermsStartAfter(table: Table, term: nat, t: nat, h: HospitalType)
    requires term < t < TERMS
    ensures PrefixLen(table, term) + Len(table[term]) <= Offset(table, t, h)
  {
    PrefixLenMono(table, term, t);
  }

  /** An index below the size of term `term` is found inside that term;
      `g` is the same index counted from the start of the table. */
  lemma IndexInTerm(table: Table, term: nat, i: nat, g: nat)
    requires term < TERMS && i < Len(table[term]) && g == i + PrefixLen(table, term)
    ensures IndexFrom(table, term, i).Some?
    ensures forall t: nat, h :: IndexFrom(table, term, i) == Some((t, h)) <==> term <= t && InBlock(table, t, h, g)
  {
    var slot := table[term];
    PickInTermSpec(slot, i, 0);
    var h0 := PickInTerm(slot, i, 0, 0).value;
    var r := IndexFrom(table, term, i);
    assert r == Some((term, h0));
    forall t: nat, h ensures r == Some((t, h)) <==> term <= t && InBlock(table, t, h, g) {
      if t == term {
        assert InBlock(table, t, h, g) <==> PickInTerm(slot, i, 0, 0) == Some(h);
      } else if term < t < TERMS {
        LaterTermsStartAfter(table, term, t, h);
      }
    }
  }

  /** An index past term `term` lies in no block of that term. */
  lemma IndexPastTerm(table: Table, term: nat, i: nat, g: nat)
    requires term < TERMS && Len(table[term]) <= i && g == i + PrefixLen(table, term)
    ensures forall h :: !InBlock(table, term, h, g)
  {
    forall h ensures !InBlock(table, term, h, g) {
      BlockWithinTerm(table, term, h);
    }
  }

  /** The outer loop finds index `g` of the whole table (`i` of what is left
      from term `term` on) exactly in the block that contains it. */
  lemma {:induction false} IndexFromSpec(table: Table, term: nat, i: nat, g: nat)
    requires term <= TERMS && g == i + PrefixLen(table, term)
    ensures IndexFrom(table, term, i).Some? <==> g < TableLen(table)
    ensures forall t: nat, h :: IndexFrom(table, term, i) == Some((t, h)) <==> term <= t && InBlock(table, t, h, g)
    decreases TERMS - term
  {
    if term < TERMS {
      PrefixLenMono(table, term, TERMS);
      if i < Len(table[term]) {
        IndexInTerm(table, term, i, g);
      } else {
        IndexPastTerm(table, term, i, g);
        assert PrefixLen(table, term + 1) == PrefixLen(table, term) + Len(table[term]);
        IndexFromSpec(table, term + 1, i - Len(table[term]), g);
        var r := IndexFrom(table, term, i);
        assert r == IndexFrom(table, term + 1, i - Len(table[term]));
        forall t: nat, h ensures r == Some((t, h)) <==> term <= t && InBlock(table, t, h, g) {
          if t == term {
            assert !InBlock(table, term, h, g);
          }
        }
      }
    }
  }

  /** `index(i)`: the term and category of the `i`-th vacancy when the table
      is flattened term by term and, inside a term, in the order IM, IS, OS,
      OM. Every (term, category) owns a contiguous block of indices as long as
      its count, so an index is found exactly when it is below `len()`. */
  function Index(table: Table, i: nat): (r: Option<(nat, HospitalType)>)
    ensures r.Some? <==> i < TableLen(table)
    ensures forall t: nat, h :: r == Some((t, h)) <==> InBlock(table, t, h, i)
    ensures r.Some? ==> r.value.0 < TERMS && Count(table[r.value.0], r.value.1) > 0
  {
    IndexFromSpec(table, 0, i, i);
    IndexFrom(table, 0, i)
  }

  /** Larger indices never land on an earlier (term, category) in the
      term-major, then IM, IS, OS, OM order. */
  lemma IndexMonotone(table: Table, i: nat, j: nat)
    requires i <= j < TableLen(table)
    ensures Index(table, i).Some? && Index(table, j).Some?
    ensures var (t1, h1) := Index(table, i).value;
            var (t2, h2) := Index(table, j).value;
            t1 < t2 || (t1 == t2 && Rank(h1) <= Rank(h2))
  {
    var (t1, h1) := Index(table, i).value;
    var (t2, h2) := Index(table, j).value;
    assert InBlock(table, t1, h1, i) && InBlock(table, t2, h2, j);
    BlockEnd(table[t2], h2);
    if t2 < t1 {
      PrefixLenMono(table, t2, t1);
      assert false;
    } else if t1 == t2 && Rank(h2) < Rank(h1) {
      PrefixCountSteps(table[t1]);
      assert false;
    }
  }

  // ---------------------------------------------------------------------------
  // The draw

  /** The outcome of a successful draw: the term and category chosen, and the
      table and student after the placement is committed. */
  datatype Pick = Pick(term: nat, hospital: HospitalType, table: Table, student: Student)

  /** `random_select`: offer the student the choices `table & student`; if
      there are none the student is stuck (None, nothing changes). Otherwise
      the caller-supplied draw, reduced into `[0, len)`, picks one vacancy of
      the flattened choices, which is taken from the table and written into
      the student's slot. */
  function RandomSelect(table: Table, s: Student, draw: nat): (r: Option<Pick>)
    requires WithinQuota(s)
    ensures r.None? <==> TableIsEmpty(Choices(table, s))
    ensures r.Some? ==>
      && r.value.term < TERMS && TableLen(Choices(table, s)) > 0
      && InBlock(Choices(table, s), r.value.term, r.value.hospital, draw % TableLen(Choices(table, s)))
    ensures r.Some? ==>
      && r.value.term < TERMS && Count(table[r.value.term], r.value.hospital) > 0
      && r.value.table == Take(table, r.value.term, r.value.hospital)
      && r.value.student == Assign(s, r.value.term, r.value.hospital)
  {
    var choices := Choices(table, s);
    TableIsEmptyLen(choices);
    if TableIsEmpty(choices) then None
    else
      var (term, h) := Draw(choices, draw);
      OnOffer(table, s, term, h);
      Some(Pick(term, h, Take(table, term, h), Assign(s, term, h)))
  }

  /** The table after one vacancy of category `h` of term `term` is taken. */
  function Take(table: Table, term: nat, h: HospitalType): (r: Table)
    requires term < TERMS && Count(table[term], h) > 0
    ensures r[term] == Sub(table[term], h)
    ensures forall t :: 0 <= t < TERMS && t != term ==> r[t] == table[t]
  {
    table[term := Sub(table[term], h)]
  }

  /** The student after slot `term` is filled with category `h`. */
  function Assign(s: Student, term: nat, h: HospitalType): (r: Student)
    requires term < TERMS
    ensures r.name == s.name && r.selection[term] == Some(h)
    ensures forall t :: 0 <= t < TERMS && t != term ==> r.selection[t] == s.selection[t]
  {
    s.(selection := s.selection[term := Some(h)])
  }

  lemma ModBelow(a: nat, n: nat)
    requires a < n
    ensures a % n == a
  {
  }

  /** The vacancy of a non-empty table that a draw lands on: the draw is
      reduced into `[0, len())` and looked up with `index`. */
  function Draw(choices: Table, draw: nat): (r: (nat, HospitalType))
    requires TableLen(choices) > 0
    ensures r.0 < TERMS && Count(choices[r.0], r.1) > 0
    ensures InBlock(choices, r.0, r.1, draw % TableLen(choices))
  {
    Index(choices, draw % TableLen(choices)).value
  }

  /** A choice on offer lies on an open term, within both the table's
      vacancies and the student's need. */
  lemma OnOffer(table: Table, s: Student, term: nat, h: HospitalType)
    requires WithinQuota(s) && term < TERMS && Count(Choices(table, s)[term], h) > 0
    ensures s.selection[term].None?
    ensures Count(table[term], h) > 0 && Count(RequiredHospitals(s), h) > 0
  {
    if s.selection[term].Some? {
      assert false;
    }
    assert Choices(table, s)[term] == Min(table[term], RequiredHospitals(s));
  }

  /** Taking one vacancy removes exactly one from `len()` and adds nowhere. */
  lemma TakeOne(table: Table, term: nat, h: HospitalType)
    requires term < TERMS && Count(table[term], h) > 0
    ensures TableLen(table[term := Sub(table[term], h)]) + 1 == TableLen(table)
    ensures NoLarger(table[term := Sub(table[term], h)], table)
  {
    PrefixLenUpdate(table, term, Sub(table[term], h), TERMS);
  }

  /** What a successful draw commits: a vacancy on offer on an open term
      of the student, one vacancy fewer in the table and none added
      anywhere, and a student who keeps the name, fills exactly one more
      slot and stays within the quota of their course. */
  lemma SelectCommits(table: Table, s: Student, draw: nat)
    requires WithinQuota(s) && RandomSelect(table, s, draw).Some?
    ensures var p := RandomSelect(table, s, draw).value;
      && s.selection[p.term].None?
      && Count(Choices(table, s)[p.term], p.hospital) > 0
      && TableLen(p.table) + 1 == TableLen(table)
      && NoLarger(p.table, table)
    ensures var p := RandomSelect(table, s, draw).value;
      && WithinQuota(p.student)
      && p.student.name == s.name
      && Assigned(p.student.selection) == Assigned(s.selection) + 1
  {
    var p := RandomSelect(table, s, draw).value;
    var choices := Choices(table, s);
    assert InBlock(choices, p.term, p.hospital, draw % TableLen(choices));
    OnOffer(table, s, p.term, p.hospital);
    TakeOne(table, p.term, p.hospital);
    AssignKeepsQuota(s, p.term, p.hospital);
    OccurrencesUpdate(s.selection, p.term, p.hospital);
  }

  /** Every vacancy on offer is drawn by some draw: the block of indices
      owned by (term, category) is as long as its count, so the draw is
      weighted by capacity. */
  lemma EveryChoiceReachable(table: Table, s: Student, t: nat, h: HospitalType)
    requires WithinQuota(s) && t < TERMS
    requires Count(Choices(table, s)[t], h) > 0
    ensures exists draw: nat ::
      && RandomSelect(table, s, draw).Some?
      && RandomSelect(table, s, draw).value.term == t
      && RandomSelect(table, s, draw).value.hospital == h
  {
    var choices := Choices(table, s);
    var draw := Offset(choices, t, h);
    BlockWithinTerm(choices, t, h);
    PrefixLenMono(choices, t, TERMS);
    assert draw < TableLen(choices);
    ModBelow(draw, TableLen(choices));
    assert Index(choices, draw) == Some((t, h));
    TableIsEmptyLen(choices);
    var r := RandomSelect(table, s, draw);
    assert r.Some?;
    assert InBlock(choices, r.value.term, r.value.hospital, draw);
    assert Index(choices, draw) == Some((r.value.term, r.value.hospital));
  }

  /** A student who is done is offered nothing, so a draw for them would fail. */
  lemma DoneIsStuck(table: Table, s: Student, draw: nat)
    requires WithinQuota(s) && Done(s)
    ensures RandomSelect(table, s, draw).None?
  {
    var choices := Choices(table, s);
    assert forall t :: 0 <= t < TERMS ==> s.selection[t].Some?;
    assert forall t :: 0 <= t < TERMS ==> IsEmpty(choices[t]);
  }

  // ---------------------------------------------------------------------------
  // Registering a student's pre-assigned slots

  function ReserveFrom(table: Table, sel: Selection, k: nat): (r: Table)
    requires k <= TERMS
    requires forall t :: k <= t < TERMS && sel[t].Some? ==> Count(table[t], sel[t].value) > 0
    ensures forall t :: 0 <= t < TERMS ==>
      r[t] == if k <= t && sel[t].Some? then Sub(table[t], sel[t].value) else table[t]
    decreases TERMS - k
  {
    if k == TERMS then table
    else match sel[k]
      case None => ReserveFrom(table, sel, k + 1)
      case Some(h) => ReserveFrom(table[k := Sub(table[k], h)], sel, k + 1)
  }

  /** Registering the slots from term `k` on takes exactly one vacancy per
      assigned slot. */
  lemma {:induction false} ReserveFromLen(table: Table, sel: Selection, k: nat)
    requires k <= TERMS
    requires forall t :: k <= t < TERMS && sel[t].Some? ==> Count(table[t], sel[t].value) > 0
    ensures TableLen(ReserveFrom(table, sel, k)) + Assigned(sel[k..]) == TableLen(table)
    decreases TERMS - k
  {
    if k < TERMS {
      assert sel[k..][1..] == sel[k + 1..];
      match sel[k]
      case None =>
        ReserveFromLen(table, sel, k + 1);
      case Some(h) =>
        TakeOne(table, k, h);
        ReserveFromLen(table[k := Sub(table[k], h)], sel, k + 1);
    }
  }

  /** `init_student`: every pre-assigned slot takes one vacancy of its
      category from its own term; the table must have that vacancy. */
  function InitStudent(table: Table, name: string, sel: Selection): (r: (Table, Student))
    requires forall t :: 0 <= t < TERMS && sel[t].Some? ==> Count(table[t], sel[t].value) > 0
    ensures r.1 == Student(name, sel)
    ensures forall t :: 0 <= t < TERMS && sel[t].None? ==> r.0[t] == table[t]
    ensures forall t, h :: 0 <= t < TERMS && sel[t] == Some(h) ==>
      Count(r.0[t], h) + 1 == Count(table[t], h) && forall g :: g != h ==> Count(r.0[t], g) == Count(table[t], g)
  {
    (ReserveFrom(table, sel, 0), Student(name, sel))
  }

  /** A registered student takes one vacancy per pre-assigned slot and adds
      none anywhere. */
  lemma InitStudentTakes(table: Table, name: string, sel: Selection)
    requires forall t :: 0 <= t < TERMS && sel[t].Some? ==> Count(table[t], sel[t].value) > 0
    ensures TableLen(InitStudent(table, name, sel).0) + Assigned(sel) == TableLen(table)
    ensures NoLarger(InitStudent(table, name, sel).0, table)
  {
    ReserveFromLen(table, sel, 0);
    assert sel[0..] == sel;
  }

}
