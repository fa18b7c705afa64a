/** A student's six per-term slots, the course inferred from them and the
    placements the student still needs. */
module Students {
  import opened Wrappers
  import opened Vacants

  /** One optional category per term. */
  type Selection = s: seq<Option<HospitalType>> | |s| == TERMS
    witness [None, None, None, None, None, None]

  datatype Student = Student(name: string, selection: Selection)

  // ---------------------------------------------------------------------------
  // Repetitions among the assigned slots

  /** No category occurs twice among the first `j` slots. */
  predicate DistinctUpTo(sel: seq<Option<HospitalType>>, j: nat)
    requires j <= |sel|
  {
    forall a, b :: 0 <= a < b < j && sel[a].Some? ==> sel[a] != sel[b]
  }

  predicate Distinct(sel: seq<Option<HospitalType>>)
  {
    DistinctUpTo(sel, |sel|)
  }

  /** Slot `j` holds the first repetition in term order: its category was
      already assigned at an earlier slot and nothing repeats before `j`. */
  predicate FirstRepeat(sel: seq<Option<HospitalType>>, j: nat)
  {
    && j < |sel|
    && sel[j].Some?
    && DistinctUpTo(sel, j)
    && exists a :: 0 <= a < j && sel[a] == sel[j]
  }

  /** The scan of the source: walk the assigned slots in term order, remembering
      the categories already shown, and stop at the first one shown twice. */
  function CourseScan(sel: seq<Option<HospitalType>>, i: nat, shown: set<HospitalType>): Option<Course>
    requires i <= |sel|
    decreases |sel| - i
  {
    if i == |sel| then None
    else match sel[i]
      case None => CourseScan(sel, i + 1, shown)
      case Some(h) =>
        if h in shown then Some(RevealedCourse(h)) else CourseScan(sel, i + 1, shown + {h})
  }

  /** `shown` holds exactly the categories assigned before slot `i`. */
  predicate ShownBefore(sel: seq<Option<HospitalType>>, i: nat, shown: set<HospitalType>)
    requires i <= |sel|
  {
    forall h :: h in shown <==> exists a :: 0 <= a < i && sel[a] == Some(h)
  }

  /** Passing an empty slot changes nothing the scan remembers. */
  lemma ScanSkip(sel: seq<Option<HospitalType>>, i: nat, shown: set<HospitalType>)
    requires i < |sel| && sel[i].None? && DistinctUpTo(sel, i) && ShownBefore(sel, i, shown)
    ensures DistinctUpTo(sel, i + 1) && ShownBefore(sel, i + 1, shown)
  {
    forall h ensures h in shown <==> exists a :: 0 <= a < i + 1 && sel[a] == Some(h) {
      if h in shown {
        var a :| 0 <= a < i && sel[a] == Some(h);
        assert 0 <= a < i + 1 && sel[a] == Some(h);
      }
    }
  }

  /** A category not shown before slot `i` keeps the prefix distinct and is
      remembered from then on. */
  lemma ScanRemember(sel: seq<Option<HospitalType>>, i: nat, shown: set<HospitalType>, h: HospitalType)
    requires i < |sel| && sel[i] == Some(h) && h !in shown
    requires DistinctUpTo(sel, i) && ShownBefore(sel, i, shown)
    ensures DistinctUpTo(sel, i + 1) && ShownBefore(sel, i + 1, shown + {h})
  {
    forall a, b | 0 <= a < b < i + 1 && sel[a].Some? ensures sel[a] != sel[b] {
      if b == i {
        assert sel[a].value in shown by { assert sel[a] == Some(sel[a].value); }
      }
    }
    forall g ensures g in shown + {h} <==> exists a :: 0 <= a < i + 1 && sel[a] == Some(g) {
      if g == h {
        assert sel[i] == Some(g);
      } else if g in shown {
        var a :| 0 <= a < i && sel[a] == Some(g);
        assert 0 <= a < i + 1 && sel[a] == Some(g);
      }
    }
  }

  /** A category shown before slot `i` makes `i` the first repetition, and no
      later slot is one. */
  lemma ScanRepeat(sel: seq<Option<HospitalType>>, i: nat, shown: set<HospitalType>, h: HospitalType)
    requires i < |sel| && sel[i] == Some(h) && h in shown
    requires DistinctUpTo(sel, i) && ShownBefore(sel, i, shown)
    ensures FirstRepeat(sel, i) && !Distinct(sel)
    ensures forall j: nat :: i < j ==> !FirstRepeat(sel, j)
  {
    var a :| 0 <= a < i && sel[a] == Some(h);
    assert sel[a].Some? && sel[a] == sel[i];
    forall j: nat | i < j ensures !FirstRepeat(sel, j) {
      if j < |sel| {
        assert sel[a].Some? && sel[a] == sel[i];
      }
    }
  }

  lemma {:induction false} CourseScanSpec(sel: seq<Option<HospitalType>>, i: nat, shown: set<HospitalType>)
    requires i <= |sel| && DistinctUpTo(sel, i) && ShownBefore(sel, i, shown)
    ensures CourseScan(sel, i, shown).None? <==> Distinct(sel)
    ensures forall j: nat :: i <= j && FirstRepeat(sel, j) ==> CourseScan(sel, i, shown) == Some(RevealedCourse(sel[j].value))
    decreases |sel| - i
  {
    if i < |sel| {
      match sel[i]
      case None =>
        ScanSkip(sel, i, shown);
        CourseScanSpec(sel, i + 1, shown);
      case Some(h) =>
        if h in shown {
          ScanRepeat(sel, i, shown, h);
        } else {
          ScanRemember(sel, i, shown, h);
          CourseScanSpec(sel, i + 1, shown + {h});
        }
    }
  }

  /** A selection that is not pairwise distinct has a first repetition. */
  lemma {:induction false} FirstRepeatExists(sel: seq<Option<HospitalType>>, k: nat)
    requires k <= |sel| && DistinctUpTo(sel, k)
    ensures !Distinct(sel) ==> exists j: nat :: FirstRepeat(sel, j)
    decreases |sel| - k
  {
    if k < |sel| {
      if DistinctUpTo(sel, k + 1) {
        FirstRepeatExists(sel, k + 1);
      } else {
        var a, b :| 0 <= a < b < k + 1 && sel[a].Some? && sel[a] == sel[b];
        assert b == k;
        assert FirstRepeat(sel, k);
      }
    }
  }

  /** `course()`: scan the assigned slots in term order for a repetition. */
  function InferCourse(s: Student): Option<Course>
  {
    CourseScan(s.selection, 0, {})
  }

  /** The inferred course is None exactly while the assigned categories are
      pairwise different; otherwise it is the course revealed by the category
      of the first repetition in term order. */
  lemma CourseInference(s: Student)
    ensures InferCourse(s).None? <==> Distinct(s.selection)
    ensures forall j: nat :: FirstRepeat(s.selection, j) ==> InferCourse(s) == Some(RevealedCourse(s.selection[j].value))
    ensures InferCourse(s).Some? ==>
      exists j: nat :: FirstRepeat(s.selection, j) && InferCourse(s).value == RevealedCourse(s.selection[j].value)
  {
    CourseScanSpec(s.selection, 0, {});
    FirstRepeatExists(s.selection, 0);
  }

  // ---------------------------------------------------------------------------
  // Counting assigned categories

  /** How many slots hold category `h`. */
  function Occurrences(sel: seq<Option<HospitalType>>, h: HospitalType): nat
    decreases |sel|
  {
    if sel == [] then 0 else (if sel[0] == Some(h) then 1 else 0) + Occurrences(sel[1..], h)
  }

  /** How many slots are assigned at all. */
  function Assigned(sel: seq<Option<HospitalType>>): (n: nat)
    ensures n <= |sel|
    ensures n == |sel| <==> forall t :: 0 <= t < |sel| ==> sel[t].Some?
    decreases |sel|
  {
    if sel == [] then 0
    else
      assert forall t :: 1 <= t < |sel| ==> sel[t] == sel[1..][t - 1];
      (if sel[0].Some? then 1 else 0) + Assigned(sel[1..])
  }

  lemma {:induction false} OccurrencesPositive(sel: seq<Option<HospitalType>>, h: HospitalType)
    ensures Occurrences(sel, h) > 0 <==> exists k :: 0 <= k < |sel| && sel[k] == Some(h)
    decreases |sel|
  {
    if sel != [] {
      OccurrencesPositive(sel[1..], h);
      if exists k :: 0 <= k < |sel| && sel[k] == Some(h) {
        var k :| 0 <= k < |sel| && sel[k] == Some(h);
        if k > 0 { assert sel[1..][k - 1] == Some(h); }
      }
      if exists k :: 0 <= k < |sel[1..]| && sel[1..][k] == Some(h) {
        var k :| 0 <= k < |sel[1..]| && sel[1..][k] == Some(h);
        assert sel[k + 1] == Some(h);
      }
    }
  }

  /** Two slots holding the same category count twice. */
  lemma {:induction false} OccurrencesOfPair(sel: seq<Option<HospitalType>>, a: nat, b: nat)
    requires a < b < |sel| && sel[a].Some? && sel[a] == sel[b]
    ensures Occurrences(sel, sel[a].value) >= 2
    decreases |sel|
  {
    var h := sel[a].value;
    if a == 0 {
      OccurrencesPositive(sel[1..], h);
      assert sel[1..][b - 1] == Some(h);
    } else {
      assert sel[1..][a - 1] == sel[a] && sel[1..][b - 1] == sel[b];
      OccurrencesOfPair(sel[1..], a - 1, b - 1);
    }
  }

  /** Pairwise distinct slots hold every category at most once. */
  lemma {:induction false} DistinctOccursOnce(sel: seq<Option<HospitalType>>)
    requires Distinct(sel)
    ensures forall h :: Occurrences(sel, h) <= 1
  {
    forall h ensures Occurrences(sel, h) <= 1 {
      if Occurrences(sel, h) > 1 {
        OccurrencesTwice(sel, h);
      }
    }
  }

  lemma {:induction false} OccurrencesTwice(sel: seq<Option<HospitalType>>, h: HospitalType)
    requires Occurrences(sel, h) >= 2
    ensures exists a, b :: 0 <= a < b < |sel| && sel[a] == Some(h) && sel[b] == Some(h)
    decreases |sel|
  {
    if sel[0] == Some(h) {
      OccurrencesPositive(sel[1..], h);
      var k :| 0 <= k < |sel[1..]| && sel[1..][k] == Some(h);
      assert sel[k + 1] == Some(h);
    } else {
      OccurrencesTwice(sel[1..], h);
      var a, b :| 0 <= a < b < |sel[1..]| && sel[1..][a] == Some(h) && sel[1..][b] == Some(h);
      assert sel[a + 1] == Some(h) && sel[b + 1] == Some(h);
    }
  }

  /** Filling an empty slot with `h` adds one occurrence of `h` and nothing else. */
  lemma {:induction false} OccurrencesUpdate(sel: seq<Option<HospitalType>>, t: nat, h: HospitalType)
    requires t < |sel| && sel[t].None?
    ensures forall g :: Occurrences(sel[t := Some(h)], g) == Occurrences(sel, g) + (if g == h then 1 else 0)
    ensures Assigned(sel[t := Some(h)]) == Assigned(sel) + 1
    decreases |sel|
  {
    var sel' := sel[t := Some(h)];
    if t == 0 {
      assert sel'[1..] == sel[1..];
    } else {
      assert sel'[1..] == sel[1..][t - 1 := Some(h)];
      OccurrencesUpdate(sel[1..], t - 1, h);
    }
  }

  /** The four category counts add up to the number of assigned slots. */
  lemma {:induction false} OccurrencesTotal(sel: seq<Option<HospitalType>>)
    ensures Occurrences(sel, InnerMedical) + Occurrences(sel, InnerSurgical)
          + Occurrences(sel, OuterSurgical) + Occurrences(sel, OuterMedical) == Assigned(sel)
    decreases |sel|
  {
    if sel != [] {
      OccurrencesTotal(sel[1..]);
      if sel[0].Some? {
        var h := sel[0].value;
        assert h == InnerMedical || h == InnerSurgical || h == OuterSurgical || h == OuterMedical;
      }
    }
  }

  // ---------------------------------------------------------------------------
  // Open terms, completion and remaining need

  function SelectableFrom(sel: seq<Option<HospitalType>>, i: nat): (r: seq<nat>)
    requires i <= |sel|
    ensures forall t: nat {:trigger t in r} :: t in r <==> i <= t < |sel| && sel[t].None?
    ensures forall a, b :: 0 <= a < b < |r| ==> r[a] < r[b]
    decreases |sel| - i
  {
    if i == |sel| then []
    else if sel[i].None? then
      var rest := SelectableFrom(sel, i + 1);
      assert forall k :: 0 <= k < |rest| ==> rest[k] in rest;
      [i] + rest
    else SelectableFrom(sel, i + 1)
  }

  /** `selectable_terms()`: the indices of the unassigned slots, ascending. */
  function SelectableTerms(s: Student): (r: seq<nat>)
    ensures forall t: nat {:trigger t in r} :: t in r <==> t < TERMS && s.selection[t].None?
    ensures forall a, b :: 0 <= a < b < |r| ==> r[a] < r[b]
  {
    SelectableFrom(s.selection, 0)
  }

  /** `done()`: every term is assigned, so there is nothing left to select. */
  function Done(s: Student): (b: bool)
    ensures b <==> SelectableTerms(s) == []
    ensures b <==> Assigned(s.selection) == TERMS
  {
    var r := SelectableTerms(s);
    assert r != [] ==> r[0] in r;
    assert forall t: nat :: t < TERMS && s.selection[t].None? ==> t in r;
    forall t :: 0 <= t < TERMS ==> s.selection[t].Some?
  }

  /** The assigned categories stay within the quota of the inferred course:
      exactly the condition under which the source's subtractions in
      `required_hospitals` do not underflow. */
  predicate WithinQuota(s: Student)
  {
    match InferCourse(s)
    case None => true
    case Some(c) => forall h :: Occurrences(s.selection, h) <= Count(Quota(c), h)
  }

  /** Takes one vacancy of each assigned slot's category, in term order. */
  function SubtractAll(slot: TermVacants, sel: seq<Option<HospitalType>>): (r: TermVacants)
    requires forall h :: Occurrences(sel, h) <= Count(slot, h)
    ensures forall h :: Count(r, h) + Occurrences(sel, h) == Count(slot, h)
    decreases |sel|
  {
    if sel == [] then slot
    else
      assert forall g :: Occurrences(sel, g) == (if sel[0] == Some(g) then 1 else 0) + Occurrences(sel[1..], g);
      match sel[0]
      case None => SubtractAll(slot, sel[1..])
      case Some(h) => SubtractAll(Sub(slot, h), sel[1..])
  }

  /** `required_hospitals()`: what the student still needs of each category —
      the course quota less the assigned slots, or unbounded while the course
      is unknown. */
  function RequiredHospitals(s: Student): (r: TermVacants)
    requires WithinQuota(s)
    ensures InferCourse(s).None? ==> r == Infinite()
    ensures InferCourse(s).Some? ==>
      forall h :: Count(r, h) + Occurrences(s.selection, h) == Count(Quota(InferCourse(s).value), h)
  {
    match InferCourse(s)
    case None => Infinite()
    case Some(c) => SubtractAll(Quota(c), s.selection)
  }

  /** A student whose slots all fit the quota and who is done has a known
      course and holds exactly that course's quota of every category. */
  lemma DoneMeetsQuota(s: Student)
    requires WithinQuota(s) && Done(s)
    ensures InferCourse(s).Some?
    ensures forall h :: Occurrences(s.selection, h) == Count(Quota(InferCourse(s).value), h)
  {
    var sel := s.selection;
    CourseInference(s);
    OccurrencesTotal(sel);
    if InferCourse(s).None? {
      DistinctOccursOnce(sel);
      assert false;
    }
    var q := Quota(InferCourse(s).value);
    assert Len(q) == Count(q, InnerMedical) + Count(q, InnerSurgical) + Count(q, OuterSurgical) + Count(q, OuterMedical);
    assert Occurrences(sel, InnerMedical) <= Count(q, InnerMedical);
    assert Occurrences(sel, InnerSurgical) <= Count(q, InnerSurgical);
    assert Occurrences(sel, OuterSurgical) <= Count(q, OuterSurgical);
    assert Occurrences(sel, OuterMedical) <= Count(q, OuterMedical);
    forall h ensures Occurrences(sel, h) == Count(q, h) {
      assert h == InnerMedical || h == InnerSurgical || h == OuterSurgical || h == OuterMedical;
    }
  }

  /** Filling an open slot of a student with no course yet either keeps the
      categories distinct or reveals the course of the category just drawn. */
  lemma AssignWithoutCourse(s: Student, t: nat, h: HospitalType)
    requires InferCourse(s).None? && t < TERMS && s.selection[t].None?
    ensures WithinQuota(s.(selection := s.selection[t := Some(h)]))
  {
    var sel := s.selection;
    var s' := s.(selection := sel[t := Some(h)]);
    var sel' := s'.selection;
    CourseInference(s);
    CourseInference(s');
    OccurrencesUpdate(sel, t, h);
    DistinctOccursOnce(sel);
    if InferCourse(s').Some? {
      var c := InferCourse(s').value;
      var j: nat :| FirstRepeat(sel', j) && c == RevealedCourse(sel'[j].value);
      var a :| 0 <= a < j && sel'[a] == sel'[j];
      OccurrencesOfPair(sel', a, j);
      assert sel'[j].value == h;
      assert c == RevealedCourse(h);
      forall g ensures Occurrences(sel', g) <= Count(Quota(c), g) {
        assert Occurrences(sel, g) <= 1;
      }
    }
  }

  /** Filling an open slot of a student whose course is known, with a category
      the course still asks for, keeps the course and stays within its quota. */
  lemma AssignWithCourse(s: Student, t: nat, h: HospitalType)
    requires WithinQuota(s) && InferCourse(s).Some? && t < TERMS && s.selection[t].None?
    requires Occurrences(s.selection, h) < Count(Quota(InferCourse(s).value), h)
    ensures WithinQuota(s.(selection := s.selection[t := Some(h)]))
    ensures InferCourse(s.(selection := s.selection[t := Some(h)])) == InferCourse(s)
  {
    var c := InferCourse(s).value;
    var sel := s.selection;
    var s' := s.(selection := sel[t := Some(h)]);
    var sel' := s'.selection;
    CourseInference(s);
    CourseInference(s');
    OccurrencesUpdate(sel, t, h);
    assert forall g :: Occurrences(sel', g) <= Count(Quota(c), g);
    var j0: nat :| FirstRepeat(sel, j0);
    var a0 :| 0 <= a0 < j0 && sel[a0] == sel[j0];
    assert sel'[a0] == sel[a0] && sel'[j0] == sel[j0];
    assert !Distinct(sel') by { assert sel'[a0].Some? && sel'[a0] == sel'[j0]; }
    var c' := InferCourse(s').value;
    var j: nat :| FirstRepeat(sel', j) && c' == RevealedCourse(sel'[j].value);
    var a :| 0 <= a < j && sel'[a] == sel'[j];
    OccurrencesOfPair(sel', a, j);
    var k := sel'[j].value;
    assert Count(Quota(c), k) >= 2;
    assert c' == c;
  }

  /** Filling an open slot with a category the student still needs keeps the
      slots within the quota of the (possibly newly revealed) course. */
  lemma AssignKeepsQuota(s: Student, t: nat, h: HospitalType)
    requires WithinQuota(s) && t < TERMS && s.selection[t].None?
    requires Count(RequiredHospitals(s), h) > 0
    ensures WithinQuota(s.(selection := s.selection[t := Some(h)]))
  {
    if InferCourse(s).None? {
      AssignWithoutCourse(s, t, h);
    } else {
      AssignWithCourse(s, t, h);
    }
  }

}
