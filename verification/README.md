# Eschaton lottery: a Dafny model of the allocation engine

The system simulates a hospital-placement lottery. Every student must fill six
terms, one placement per term, in one of four categories: inner medical (IM),
inner surgical (IS), outer surgical (OS) and outer medical (OM). A student's
course (Eschaton or Avoidance) is not declared. It is revealed by the first
category the student holds twice, and it fixes how many placements of each
category the student needs in total (two of the revealing categories, one of
the others). A trial shuffles the students still in play, and each one draws
a vacancy uniformly at random among the vacancies that fit their open terms
and remaining need. Students who cannot draw are *victims*. Rounds repeat
until a round places nobody. A statistics harness merges finished trials into
running totals.

The model is functional. Vacancy records and tables are immutable datatypes
and sequences, and every operation is a pure function. The random number
generator is an infinite stream of draws `rng: nat -> nat` read from a
position. `random_range(0..n)` is the draw reduced modulo `n`, and the slice
shuffle is a Fisher-Yates shuffle over the same stream.

Modules, following the source:

- `Wrappers`: `Option`.
- `Vacants` (`src/eschaton.rs` lines 10-154): categories, courses, the
  four-way vacancy record `TermVacants` with `-=`, `len`, `is_empty`, `new`,
  `zero`, `infinite`, `count`, `&`, `+=`, and the course quotas.
- `Students` (`src/eschaton.rs` lines 156-231): a student's six slots,
  course inference (`course`), `selectable_terms`, `required_hospitals` and
  `done`.
- `Hospitals` (`src/eschaton.rs` lines 234-328): the six-term table, the
  choices `table & student`, `len`/`is_empty`, `index`, `random_select` and
  `init_student`.
- `Shuffling`: the shuffle of the students in play (`src/main.rs` line 208),
  with sums and maps over sequences.
- `Simulation` (`src/main.rs` lines 81-130 and 203-229): `State`, `Trial`,
  `State += Trial`, and the round-by-round loop of one trial.

Unsigned underflow is a defect in the source. Every subtraction that can
underflow therefore becomes a precondition:
- `-=` on a vacancy record needs the category to have a vacancy;
- `required_hospitals` needs the assigned slots to fit the quota of the
  inferred course (`WithinQuota`).

The model proves that every successful draw keeps `WithinQuota`. So the
subtraction in `required_hospitals` never underflows on any history that
`random_select` produces from a start that fits the quota. The trial loop
asks this only of students with an open slot (`Playable`). A student who is
done is skipped before any draw, so their `required_hospitals` is never
computed and they may hold any categories.

`index` is not injective: the vacancy of category `h` in term `t` owns a
block of `count(h)` consecutive indices, which is what weights the draw by
capacity. The model states the exact block (`InBlock`). It proves that
`index` is monotone in the order term first, then IM, IS, OS, OM.

## Model

| member | source | states |
|---|---|---|
| Vacants.Sub | src/eschaton.rs:62-71 | taking one vacancy of `h` lowers `count(h)` by exactly one, leaves the other three categories unchanged and lowers `len` by one; the category must have a vacancy (no underflow) |
| Vacants.Len | src/eschaton.rs:74-76 | `len` bounds every category count and is zero exactly when every count is zero |
| Vacants.IsEmpty | src/eschaton.rs:77-86 | `is_empty` holds exactly when `len() == 0` |
| Vacants.New | src/eschaton.rs:87-99 | the constructor takes its arguments in the order IM, IS, OS, OM, and each lands in its own category despite the different field order |
| Vacants.Zero | src/eschaton.rs:100-102 | every category count is zero and the record is empty |
| Vacants.Infinite | src/eschaton.rs:103-105 | every category count is `usize::MAX` |
| Vacants.Min | src/eschaton.rs:116-126 | in each category the result of `&` is no larger than either operand and equals one of them |
| Vacants.MinCommutes | src/eschaton.rs:116-126 | `a & b == b & a` |
| Vacants.MinIdempotent | src/eschaton.rs:116-126 | `a & a == a` |
| Vacants.MinInfinite | src/eschaton.rs:103-126 | `a & infinite() == a` for every record whose counts fit in a `usize` |
| Vacants.Add | src/eschaton.rs:128-135 | `+=` adds category by category, so `len` adds up too |
| Vacants.AddCommutes | src/eschaton.rs:128-135 | the elementwise sum is commutative |
| Vacants.AddAssociates | src/eschaton.rs:128-135 | the elementwise sum is associative |
| Vacants.Quota | src/eschaton.rs:137-154 | a course asks for two of each category that reveals it and one of each other category, six in all, which is the number of terms |
| Vacants.Rank | src/eschaton.rs:273-278 | every category has a position in the IM, IS, OS, OM walk |
| Students.CourseScanSpec | src/eschaton.rs:196-207 | the scan with the set of categories already shown finds no course exactly when the slots seen are pairwise distinct, and otherwise returns the course revealed at the first repetition |
| Students.CourseInference | src/eschaton.rs:195-208 | `course()` is None exactly when the assigned categories are pairwise distinct; otherwise it is the course revealed by the first category, in term order, that repeats (IS or OM gives Eschaton, IM or OS gives Avoidance) |
| Students.SelectableFrom | src/eschaton.rs:210-215 | the scan from slot `i` lists exactly the later empty slots, in ascending order |
| Students.SelectableTerms | src/eschaton.rs:210-215 | `selectable_terms()` yields exactly the indices of the empty slots, in ascending order |
| Students.Done | src/eschaton.rs:229-231 | `done()` holds exactly when `selectable_terms()` yields nothing, and exactly when all six slots are assigned |
| Students.Assigned | src/eschaton.rs:229-231 | the number of assigned slots reaches the number of slots exactly when every slot is assigned |
| Students.SubtractAll | src/eschaton.rs:219-223 | subtracting every assigned slot from the quota leaves, per category, the quota less its occurrences, and never underflows while the occurrences fit |
| Students.RequiredHospitals | src/eschaton.rs:217-227 | with no course known the need is `infinite()`; otherwise, in each category, need plus occurrences equals the course quota |
| Students.DoneMeetsQuota | src/eschaton.rs:217-231 | a student who is done and fits the quota has a known course and holds exactly that course's quota of every category |
| Students.OccurrencesUpdate | src/eschaton.rs:306 | filling an empty slot with `h` adds one occurrence of `h`, none of any other category, and one assigned slot |
| Students.AssignWithoutCourse | src/eschaton.rs:217-227 | while no course is known, filling any open slot keeps the student within the quota of whatever course the new slot reveals |
| Students.AssignWithCourse | src/eschaton.rs:217-227 | once the course is known, filling an open slot with a category still needed keeps the course and stays within its quota |
| Students.AssignKeepsQuota | src/eschaton.rs:217-227 | filling an open slot with a category that `required_hospitals` still asks for keeps the student within the quota, so the later subtractions cannot underflow |
| Hospitals.Zeros | src/eschaton.rs:242 | every term of the starting table is `zero()` |
| Hospitals.TableIsEmptyLen | src/eschaton.rs:261-266 | the table's `is_empty` holds exactly when its `len` is zero |
| Hospitals.Overlay | src/eschaton.rs:244-246 | the loop over the listed terms writes `table[term] & slots` at each listed term and leaves every other term as it was |
| Hospitals.Choices | src/eschaton.rs:239-249 | `table & student` is all zero on filled terms and `table[term] & required_hospitals()` on every open term |
| Hospitals.ChoicesWithoutCourse | src/eschaton.rs:239-249 | while the course is unknown, an open term offers the table's whole record for that term |
| Hospitals.OnOffer | src/eschaton.rs:239-249 | a category on offer at a term lies on an open term and is both vacant in the table and still needed by the student |
| Hospitals.PickInTermFound | src/eschaton.rs:272-285 | the inner walk over IM, IS, OS, OM finds a category exactly when the index is below the term's `len` |
| Hospitals.PickInTermAt | src/eschaton.rs:272-285 | the inner walk stops at category `h` exactly when the index lies in `h`'s block of the term |
| Hospitals.PickInTermSpec | src/eschaton.rs:272-285 | both facts about the inner walk together, from any category on |
| Hospitals.BlockEnd | src/eschaton.rs:281-283 | each category's block of indices ends where the next category's block begins, within the term |
| Hospitals.IndexInTerm | src/eschaton.rs:269-285 | an index below the current term's size is found in that term, exactly in its block |
| Hospitals.IndexFromSpec | src/eschaton.rs:267-292 | the outer walk over the terms finds an index exactly when it is below `len()`, and exactly in the block of the (term, category) that owns it |
| Hospitals.Index | src/eschaton.rs:267-292 | `index(i)` is Some exactly when `i < len()`; the result is the (term, category) whose block holds `i`, and that category has a vacancy there |
| Hospitals.IndexMonotone | src/eschaton.rs:267-292 | a larger index never lands on an earlier (term, category) in the order term first, then IM, IS, OS, OM |
| Hospitals.Draw | src/eschaton.rs:303-304 | the draw reduced into `[0, len)` is looked up by `index`, which always succeeds, so the `ok_or` error is unreachable |
| Hospitals.Take | src/eschaton.rs:305 | `self.0[term] -= hospital` changes only that term's record |
| Hospitals.Assign | src/eschaton.rs:306 | the student keeps the name, slot `term` gets the drawn category, and no other slot changes |
| Hospitals.RandomSelect | src/eschaton.rs:294-308 | `random_select` fails exactly when the choices are empty; on success the drawn (term, category) is the one whose block holds the reduced draw, one vacancy of it is taken from the table, and exactly that slot of the student is set |
| Hospitals.TakeOne | src/eschaton.rs:305 | taking a vacancy lowers the table's `len` by exactly one and adds nowhere |
| Hospitals.SelectCommits | src/eschaton.rs:294-308 | a successful draw lands on a term that was open for the student and a cell on offer; the table's `len` drops by exactly one and no count grows; the student keeps the name, fills exactly one more slot and stays within the quota |
| Hospitals.EveryChoiceReachable | src/eschaton.rs:299-306 | every (term, category) on offer is chosen by some draw |
| Hospitals.DoneIsStuck | src/eschaton.rs:299-302 | a student who is done is offered nothing, so `random_select` would fail for them |
| Hospitals.ReserveFrom | src/eschaton.rs:321-325 | registering from term `k` on takes one vacancy of each assigned slot's category at its own term and touches nothing else |
| Hospitals.ReserveFromLen | src/eschaton.rs:321-325 | registering from term `k` on lowers the table's `len` by the number of assigned slots from `k` on |
| Hospitals.InitStudent | src/eschaton.rs:309-327 | `init_student` returns the student as given; each assigned slot takes one vacancy of its category at its term and the other terms are untouched |
| Hospitals.InitStudentTakes | src/eschaton.rs:309-327 | registering a student lowers the table's `len` by the number of pre-assigned slots and increases no count |
| Shuffling.Swap | src/main.rs:208 | exchanging two positions exchanges those elements, keeps every other one, and is a permutation |
| Shuffling.ShuffleFrom | src/main.rs:208 | every Fisher-Yates step keeps the length and the multiset of elements |
| Shuffling.Shuffle | src/main.rs:208 | `shuffle` returns a permutation of the students in play |
| Shuffling.MapShuffle | src/main.rs:208 | the positions the shuffle picks do not depend on the elements, so shuffling commutes with mapping |
| Shuffling.SumShuffle | src/main.rs:208 | a shuffle keeps the sum of a sequence of numbers |
| Simulation.Bump | src/main.rs:121-124 | the `entry` update adds one failure for the name (starting at one) and changes no other name |
| Simulation.RecordFails | src/main.rs:120-125 | after the loop over the victims, each name's failure count has grown by the number of victims with that name, and the recorded names are the old ones plus the victims' |
| Simulation.TallyNames | src/main.rs:120-125 | the per-name tally of the victims equals the multiplicity of the name among their names |
| Simulation.AddTables | src/main.rs:126-128 | the leftover tables are summed term by term and category by category |
| Simulation.Merge | src/main.rs:110-130 | `state += trial` adds one to `count`, adds one to `success` exactly when there are no victims, adds the victims' failures per name, and adds the leftover vacancies cell by cell |
| Simulation.MergeIntoDefault | src/main.rs:89-130 | merging one trial into the default totals yields count one, success one exactly without victims, the victims' own tallies, and the trial's table |
| Simulation.RecordFailsCommute | src/main.rs:120-125 | failures from two lists of victims add up to the same map in either order |
| Simulation.SameTallies | src/main.rs:120-125 | two failure maps with the same names and the same counts are equal |
| Simulation.AddTablesCommute | src/main.rs:126-128 | leftover tables add up to the same table in either order |
| Simulation.MergeCommutes | src/main.rs:110-130 | merging trial A then trial B gives the same state as B then A |
| Simulation.StepTable | src/main.rs:210-220 | one turn of a playable student (done, and skipped without a draw, or within the quota) never increases a vacancy count and takes exactly one vacancy per student advanced |
| Simulation.StepStudents | src/main.rs:210-220 | after one turn, students who advance stay within the quota, victims are not done, the student appears at most once among the advanced and the victims, and the open slots in play do not grow |
| Simulation.PassSpec | src/main.rs:209-220 | a whole round keeps every property of a single turn |
| Simulation.ShuffleKeeps | src/main.rs:208 | the shuffle keeps every student playable (done, or within the quota), and keeps the multiset of names and the open slots of the students in play |
| Simulation.RoundSpec | src/main.rs:207-227 | one round (shuffle, then every student's turn) never increases a vacancy count, keeps the advanced students within the quota and the victims not done, and places each student at most once; a round that advances anybody strictly lowers the open slots in play, so the loop ends |
| Simulation.TrialSpec | src/main.rs:207-228 | the rounds of a trial never increase a vacancy count and never make a done student a victim; each name is a victim at most as often as it was in play or already a victim |
| Simulation.SimulateTrial | src/main.rs:203-229 | for any baseline whose students are each done or within the quota, a whole trial never increases a vacancy count, never makes a done student a victim, and makes each student a victim at most once |

## Left out

- Concurrency and process plumbing: the tokio runtime, the channel, the worker tasks and `ctrl_c` (`src/main.rs` lines 132-169 and 196-234). One trial is modelled as a sequential function, and the totals as a fold of `Merge`.
- File and terminal I/O: loading and saving `state.json`, serde derives, printing the totals, and the `Display`/`to_string` code with its floating-point percentages (`src/main.rs` lines 11-79).
- Reading `reserves.csv` and `students.csv`, and building the baseline table through `MaybeUninit`/`transmute` (`src/main.rs` lines 170-195). The baseline table is a parameter. So is the list of registered students, which `InitStudent` produces one at a time.
- `HospitalType::from_str` and `Display` (`src/eschaton.rs` lines 19-45), which only handle labels. Also the plain accessors `get_name`, `into_name`, `get_selection`, `into_inner`, `as_inner` and `HospitalTable::new`.
- The `rand` crate's internals. A draw is an element of a caller-supplied stream. `random_range(0..n)` is that element modulo `n`, which reaches every value in range, but its statistical distribution is not modelled. The shuffle is Fisher-Yates over the same stream, consuming one draw per step. The trial properties rely only on the shuffle being a permutation.
- Probabilistic claims (uniformity of the draw, fairness between students): they cannot be stated as contracts.
- Integer widths: counters (`count`, `success`, failure tallies, summed vacancies) are unbounded naturals. `usize` overflow of these counters, and of `len()` on `infinite()`, is not modelled. Underflow is modelled as preconditions.
- Students.RequiredHospitals: requires that the assigned slots fit the quota of the inferred course. The source would underflow for a student with an open slot registered with, for example, three pre-assigned IM slots. The trial loop assumes this only of registered students who still have an open slot (`Playable`): a done student is skipped before `required_hospitals` is called (`src/main.rs` lines 211-213) and may hold any categories. The model proves that every draw keeps the condition.
- Hospitals.InitStudent: requires that the table has a vacancy for each pre-assigned slot. The source's `-=` would underflow otherwise.
- Vacants.MinInfinite: holds only for counts that fit in a `usize`, since `usize::MAX` is the largest value `min` can return against `infinite()`.
- Simulation.SimulateTrial: "each student is a victim at most once" is stated per student name, because names are what the statistics key on. The trial's termination measure is the number of open slots in play, which every productive round lowers.
