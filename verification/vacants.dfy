/** Hospital categories, courses and the four-way vacancy counts of one term. */
module Vacants {

  /** The four placement categories, in the declaration order of the source enum. */
  datatype HospitalType = InnerMedical | InnerSurgical | OuterSurgical | OuterMedical

  /** The two courses a student can turn out to follow. */
  datatype Course = Eschaton | Avoidance

  /** Number of terms every student has to fill. */
  const TERMS: nat := 6

  /** `usize::MAX` on a 64-bit target: the "unbounded" need of a student whose
      course is not known yet. */
  const USIZE_MAX: nat := 0xFFFF_FFFF_FFFF_FFFF

  /** The order in which a draw walks the categories of one term. */
  const Order: seq<HospitalType> := [InnerMedical, InnerSurgical, OuterSurgical, OuterMedical]

  /** Position of a category in `Order`. */
  function Rank(h: HospitalType): (k: nat)
    ensures k < |Order| && Order[k] == h
  {
    match h
    case InnerMedical => 0
    case InnerSurgical => 1
    case OuterSurgical => 2
    case OuterMedical => 3
  }

  lemma RankOfOrder(k: nat)
    requires k < |Order|
    ensures Rank(Order[k]) == k
  {
  }

  /** Vacancy counts of one term, with the fields in the layout of the source struct. */
  datatype TermVacants = TermVacants(innerMedical: nat, innerSurgical: nat, outerMedical: nat, outerSurgical: nat)

  function Count(v: TermVacants, h: HospitalType): nat
  {
    match h
    case InnerMedical => v.innerMedical
    case InnerSurgical => v.innerSurgical
    case OuterMedical => v.outerMedical
    case OuterSurgical => v.outerSurgical
  }

  /** Two vacancy records are equal when they agree in every category. */
  lemma CountExtensional(a: TermVacants, b: TermVacants)
    requires forall h :: Count(a, h) == Count(b, h)
    ensures a == b
  {
    assert Count(a, InnerMedical) == Count(b, InnerMedical);
    assert Count(a, InnerSurgical) == Count(b, InnerSurgical);
    assert Count(a, OuterMedical) == Count(b, OuterMedical);
    assert Count(a, OuterSurgical) == Count(b, OuterSurgical);
  }

  /** Total number of vacancies of the term. */
  function Len(v: TermVacants): (n: nat)
    ensures forall h :: Count(v, h) <= n
    ensures n == 0 <==> forall h :: Count(v, h) == 0
  {
    assert Count(v, InnerMedical) == v.innerMedical && Count(v, InnerSurgical) == v.innerSurgical;
    assert Count(v, OuterMedical) == v.outerMedical && Count(v, OuterSurgical) == v.outerSurgical;
    v.innerMedical + v.innerSurgical + v.outerMedical + v.outerSurgical
  }

  /** True when every category count is zero. */
  function IsEmpty(v: TermVacants): (b: bool)
    ensures b <==> Len(v) == 0
  {
    v.innerMedical == 0 && v.innerSurgical == 0 && v.outerMedical == 0 && v.outerSurgical == 0
  }

  /** Takes one vacancy of category `h`; the source's unsigned subtraction
      must not underflow, so the category must have a vacancy left. */
  function Sub(v: TermVacants, h: HospitalType): (r: TermVacants)
    requires Count(v, h) > 0
    ensures Count(r, h) == Count(v, h) - 1
    ensures forall g :: g != h ==> Count(r, g) == Count(v, g)
    ensures Len(r) + 1 == Len(v)
  {
    match h
    case InnerMedical => v.(innerMedical := v.innerMedical - 1)
    case InnerSurgical => v.(innerSurgical := v.innerSurgical - 1)
    case OuterMedical => v.(outerMedical := v.outerMedical - 1)
    case OuterSurgical => v.(outerSurgical := v.outerSurgical - 1)
  }

  /** The constructor of the source, whose arguments come in the order
      IM, IS, OS, OM rather than in the field order of the record. */
  function New(innerMed: nat, innerSurg: nat, outerSurg: nat, outerMed: nat): (r: TermVacants)
    ensures Count(r, InnerMedical) == innerMed && Count(r, InnerSurgical) == innerSurg
    ensures Count(r, OuterSurgical) == outerSurg && Count(r, OuterMedical) == outerMed
  {
    TermVacants(innerMed, innerSurg, outerMed, outerSurg)
  }

  function Zero(): (r: TermVacants)
    ensures forall h :: Count(r, h) == 0
    ensures IsEmpty(r)
  {
    New(0, 0, 0, 0)
  }

  function Infinite(): (r: TermVacants)
    ensures forall h :: Count(r, h) == USIZE_MAX
  {
    New(USIZE_MAX, USIZE_MAX, USIZE_MAX, USIZE_MAX)
  }

  /** Every count fits in a `usize`. */
  predicate FitsUsize(v: TermVacants)
  {
    forall h :: Count(v, h) <= USIZE_MAX
  }

  function MinNat(x: nat, y: nat): nat
  {
    if x <= y then x else y
  }

  /** Elementwise minimum (the source's `&`): in every category the result is
      no larger than either operand and equal to one of them. */
  function Min(a: TermVacants, b: TermVacants): (r: TermVacants)
    ensures forall h :: Count(r, h) <= Count(a, h) && Count(r, h) <= Count(b, h)
    ensures forall h :: Count(r, h) == Count(a, h) || Count(r, h) == Count(b, h)
  {
    New(MinNat(a.innerMedical, b.innerMedical),
        MinNat(a.innerSurgical, b.innerSurgical),
        MinNat(a.outerSurgical, b.outerSurgical),
        MinNat(a.outerMedical, b.outerMedical))
  }

  lemma MinCommutes(a: TermVacants, b: TermVacants)
    ensures Min(a, b) == Min(b, a)
  {
  }

  lemma MinIdempotent(a: TermVacants)
    ensures Min(a, a) == a
  {
  }

  /** Intersecting with the unbounded need leaves any `usize` counts unchanged. */
  lemma MinInfinite(a: TermVacants)
    requires FitsUsize(a)
    ensures Min(a, Infinite()) == a
  {
    assert Count(a, InnerMedical) <= USIZE_MAX;
    assert Count(a, InnerSurgical) <= USIZE_MAX;
    assert Count(a, OuterMedical) <= USIZE_MAX;
    assert Count(a, OuterSurgical) <= USIZE_MAX;
  }

  /** Elementwise sum (the source's `+=`). */
  function Add(a: TermVacants, b: TermVacants): (r: TermVacants)
    ensures forall h :: Count(r, h) == Count(a, h) + Count(b, h)
    ensures Len(r) == Len(a) + Len(b)
  {
    TermVacants(a.innerMedical + b.innerMedical, a.innerSurgical + b.innerSurgical,
                a.outerMedical + b.outerMedical, a.outerSurgical + b.outerSurgical)
  }

  lemma AddCommutes(a: TermVacants, b: TermVacants)
    ensures Add(a, b) == Add(b, a)
  {
  }

  lemma AddAssociates(a: TermVacants, b: TermVacants, c: TermVacants)
    ensures Add(Add(a, b), c) == Add(a, Add(b, c))
  {
  }

  /** The course revealed by a category that a student has drawn twice. */
  function RevealedCourse(h: HospitalType): Course
  {
    match h
    case InnerMedical => Avoidance
    case InnerSurgical => Eschaton
    case OuterMedical => Eschaton
    case OuterSurgical => Avoidance
  }

  /** The placements a course asks for: two of each category that reveals the
      course and one of each of the others, six in all, one per term. */
  function Quota(c: Course): (r: TermVacants)
    ensures forall h :: Count(r, h) == if RevealedCourse(h) == c then 2 else 1
    ensures Len(r) == TERMS
  {
    match c
    case Eschaton => TermVacants(1, 2, 2, 1)
    case Avoidance => TermVacants(2, 1, 1, 2)
  }

  /** Sum of the counts of the first `k` categories of `Order`. */
  function PrefixCount(v: TermVacants, k: nat): nat
    requires k <= |Order|
  {
    (if 0 < k then Count(v, Order[0]) else 0) + (if 1 < k then Count(v, Order[1]) else 0)
    + (if 2 < k then Count(v, Order[2]) else 0) + (if 3 < k then Count(v, Order[3]) else 0)
  }

  /** Walking the categories in draw order: each category's block ends where
      the next one begins, and all four account for every vacancy. */
  lemma PrefixCountSteps(v: TermVacants)
    ensures PrefixCount(v, 0) == 0
    ensures PrefixCount(v, 1) == Count(v, InnerMedical)
    ensures PrefixCount(v, 2) == PrefixCount(v, 1) + Count(v, InnerSurgical)
    ensures PrefixCount(v, 3) == PrefixCount(v, 2) + Count(v, OuterSurgical)
    ensures PrefixCount(v, 4) == PrefixCount(v, 3) + Count(v, OuterMedical) == Len(v)
  {
  }

}
