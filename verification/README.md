# Constrained single-machine scheduling, modelled in Dafny

The program schedules n tasks on one machine. Each task has an id, a length, a
weight, a deadline and a flag saying whether it belongs to the priority set S.
A schedule is an order of the tasks. They run back to back from time 0. A task
is tardy when its completion time is greater than its deadline. A schedule is
feasible when the summed weight of its tardy tasks is at most the limit K. The
goal is a feasible schedule with as many on-time S tasks as possible.

The program has two engines:

- **Exact engine** (`naive.c`). A stack-based backtracking generator enumerates
  every permutation of the task indices. Each permutation is scored, and the
  engine keeps the first feasible one whose S-on-time count is strictly larger
  than the best so far. The best maximum starts at -1, meaning "none".
- **Heuristic engine** (`moore.c`). It sorts the tasks by deadline with a
  stable merge sort to get the earliest-due-date (EDD) schedule. It then
  repeats a pass for as long as the pass reports progress. A pass does three
  things:
  - it scores the schedule and records it when it beats the best record;
  - if the schedule is over the limit, it moves the first heaviest tardy task
    to the end;
  - otherwise it tries swaps of an on-time task outside S with a tardy task in
    S, keeps the first swap that beats the record, and undoes every other one.

The model is split by component:

- `tasks.dfy`: the task table, index sequences and permutations of 0..n-1.
- `evaluation.dfy`: reference definitions of start, finish, tardiness, tardy
  weight and S-on-time count. It also holds the scoring loops of both programs
  and the timing table of `print_schedule`, each proved to compute the
  reference quantities. The re-evaluation after a trial swap (moore.c:239-255)
  is the same loop as `evaluate_schedule`'s, so the heuristic pass scores
  schedules with the reference definitions directly.
- `enumeration.dfy`: the order in which the exact engine emits permutations,
  as a recursive definition, with completeness, no repeats and lexicographic
  order.
- `generator.dfy`: the stack machine of `generate_permutations`. A state is
  one stack per level. `Pending` says what a state still has to emit, and each
  step of the machine is proved to emit or preserve exactly that.
- `naive.dfy`: the best record threaded through the enumeration, the whole
  exact engine as a loop over the stack machine, and its optimality.
- `mergesort.dfy`: the merge sort by deadline, with sortedness, the multiset
  and stability.
- `moore.dfy`: one pass of the heuristic loop, the loop driven by an explicit
  number of passes, and the engine's result.
- `moore_fixed.dfy`: two tables on which the loop never ends (one with no
  feasible order, one with a feasible order), and the same loop with a stop on
  a repeated schedule.

Pointers into the task table are modelled as indices. A schedule is a
`seq<nat>` of indices into `seq<Task>`. The table is well formed when
`tasks[i].id == i`, which is how the program's input reader numbers the tasks.
All integers are unbounded.

Some behaviour of the program worth knowing before reading the model:

- The exact engine never breaks ties by tardy weight. Its record changes only
  on a strictly larger S-on-time count, so among equal counts the first
  permutation generated wins (`Naive.Offer`, `Naive.ExactIsOptimal`). The
  heuristic engine's record does break ties by the lower tardy weight
  (`Moore.Consider`).
- The heuristic builds one initial order, EDD, and then improves it with the
  move-to-end and swap passes of `moores_algorithm`.
- A swap is tried on every pass of the outer loop, so swaps repeat for as long
  as one is accepted.
- The heuristic loop does not always terminate, even when a feasible order
  exists. See "## Findings".

## Model

| member | source | states |
|---|---|---|
| Evaluation.EvaluateSchedule | naive.c:28-50 | the running-clock loop yields the tardy weight (sum over positions finishing after their deadline), the S-on-time count and the final clock of the schedule |
| Evaluation.Timing | naive.c:30-39 | the first task starts at 0; every task finishes its length after it starts; every later task starts when the previous one finishes; the last finish is the final clock |
| Evaluation.ClockMultiset | naive.c:30-39 | the final clock depends only on which tasks run, not on their order |
| Evaluation.FinalClockIsTotalLength | naive.c:30-39 | every permutation of the table ends at the same time, the total length of all tasks |
| Evaluation.TardyWeightCovers | naive.c:41-43 | with weights of at least 0, the tardy weight is at least the weight of every tardy task |
| Evaluation.NoTardyNoWeight | moore.c:170-174 | a schedule with no tardy position has tardy weight 0 |
| Evaluation.EvaluateMarked | moore.c:157-179 | the heuristic's scoring loop marks position i iff it finishes after its deadline; its tardy count equals the number of tardy positions and is positive iff some position is marked |
| Evaluation.TardyCountIsCardinality | moore.c:161-174 | the tardy count equals the size of the set of tardy positions |
| Evaluation.TardyCountPositive | moore.c:191 | the tardy count is positive iff some position is tardy |
| Evaluation.Details | moore.c:31-53 | each row of the execution table shows the task's id, length, weight and deadline, a start equal to the previous row's finish (0 for the first), a finish equal to start plus length, and status Tardy iff late and On-time (S) iff on time and in S; the summary figures are the tardy weight and the S-on-time count |
| Enumeration.AllPermutations | naive.c:78-108 | every sequence the generator emits is a permutation of 0..n-1 |
| Enumeration.AllPermutationsComplete | naive.c:78-108 | every permutation of 0..n-1 is emitted |
| Enumeration.CompletionsIncreasing | naive.c:92-107 | the permutations extending a prefix come out in strictly increasing lexicographic order |
| Enumeration.NoRepeats | naive.c:78-108 | no permutation is emitted twice |
| Enumeration.IdentityFirst | naive.c:92-101 | the first permutation emitted is 0, 1, ..., n-1 |
| Generator.FillLevel | naive.c:92-101 | a newly entered level receives every index not on top of a lower level, largest first, so its top is the smallest unused index |
| Generator.ReadTops | naive.c:86-89 | the permutation handed to the evaluation is the top of levels 1..n, in level order |
| Generator.PushStep | naive.c:92-101 | entering a level below n + 1 keeps the machine's shape and leaves the sequence of permutations still to be emitted unchanged |
| Generator.EmitStep | naive.c:84-90 | entering level n + 1 emits a permutation of 0..n-1, and it is exactly the next one pending |
| Generator.PopStep | naive.c:104-107 | leaving an empty level and popping the level below keeps the shape and leaves what is pending unchanged |
| Generator.Push | naive.c:80-102 | the climb to a new level below n + 1 keeps the shape and what is pending, and decreases the progress measure |
| Generator.Emit | naive.c:80-90 | the climb to level n + 1 returns a permutation of 0..n-1 that is the head of what was pending |
| Generator.Drop | naive.c:104-107 | the drop from an empty level keeps the shape and what is pending, and decreases the progress measure |
| Naive.Offer | naive.c:52-55 | the record changes only for a feasible schedule with a strictly larger S-on-time count, and then holds that schedule and count; the maximum never decreases, and a tie never replaces it |
| Naive.Visit | naive.c:28-56 | scoring one emitted permutation and updating the record gives the record of the whole emission history extended by that permutation |
| Naive.MaximumNeverDecreases | naive.c:52-55 | over one run, the maximum after m permutations is at most the maximum after any later point |
| Naive.ScanSentinel | naive.c:21 | starting from -1, the maximum is still -1 iff no schedule offered was feasible |
| Naive.ExactIsOptimal | naive.c:61-108 | the exact engine reports -1 iff no permutation is feasible; otherwise its permutation is feasible, scores the reported maximum, no feasible permutation scores more, and among those scoring as much it is the lexicographically smallest |
| Naive.GeneratePermutations | naive.c:61-116 | the stack machine evaluates exactly all permutations, in generation order; it ends with -1 iff none is feasible, and otherwise with a feasible permutation whose count is the maximum over all feasible permutations |
| MergeSort.Merge | moore.c:88-135 | the merged run holds exactly the entries of both runs |
| MergeSort.MergeSorted | moore.c:104-130 | merging two runs sorted by deadline gives a run sorted by deadline |
| MergeSort.MergeStable | moore.c:107-114 | on equal deadlines the left run goes first: for each deadline, the merged entries are those of the left run followed by those of the right run, each in order |
| MergeSort.Sort | moore.c:75-86 | the sort returns a rearrangement of its input, non-decreasing by deadline |
| MergeSort.SortStable | moore.c:75-86 | the sort is stable: for each deadline, the entries with that deadline keep their input order |
| MergeSort.EqualDeadlinesByIndex | moore.c:68-72 | sorting the table order by deadline leaves tasks with equal deadlines in ascending index order |
| Moore.Edd | moore.c:138-144 | the initial schedule is a permutation of the task ids, non-decreasing by deadline, with equal deadlines in ascending id order |
| Moore.Consider | moore.c:182-188 | the record is replaced iff the schedule is within the limit and has more S-on-time tasks, or as many and a strictly lower tardy weight; the record never gets worse, and it stays a feasible permutation with its own score |
| Moore.HeaviestTardy | moore.c:193-204 | the scan returns -1 iff no tardy task weighs more than -1; otherwise a tardy position of maximum weight with no equally heavy tardy task before it |
| Moore.MoveToEnd | moore.c:206-212 | the chosen task goes last, the tasks before it stay put, the tasks after it shift one place left, and the same tasks remain |
| Moore.MoveToEndPermutation | moore.c:206-214 | moving a task to the end of a permutation gives a permutation |
| Moore.Swap | moore.c:234-236 | the two positions exchange their tasks and every other position is unchanged |
| Moore.SwapRevert | moore.c:267-270 | swapping back restores the schedule exactly |
| Moore.SwapPermutation | moore.c:234-236 | a swap of a permutation is a permutation |
| Moore.FindSwap | moore.c:221-275 | the nested scan returns the first pair, in scan order, of an on-time task outside S and a tardy task in S whose swap beats the record, or reports that no such pair exists |
| Moore.Iterate | moore.c:153-283 | one pass keeps the tasks and the validity of the record; over the limit with a tardy task, it reports progress iff a heaviest tardy task is found and moves it to the end; otherwise it reports progress iff an improving swap exists, and then keeps that swap as the new schedule and record |
| Moore.Run | moore.c:152-284 | running passes preserves the tasks and a valid record that only improves; when the loop stops by itself (weights and limit at least 0), the final schedule is feasible and the record scores at least as well as it; when no permutation is feasible it never stops; when a pass reports progress but leaves the state as it was, it never stops |
| Moore.OverLimitMoves | moore.c:191-214 | with weights of at least 0, a pass over a schedule over the limit with a tardy task always reports progress |
| Moore.InfeasibleHasTardy | moore.c:190-191 | with a limit of at least 0, a schedule over the limit has a tardy task |
| Moore.PassStops | moore.c:280-283 | with weights and limit at least 0, the loop can only break on a feasible schedule, left in place, that the record scores at least as well as |
| Moore.Heuristic | moore.c:146-293 | a result other than -1 is a feasible permutation with that S-on-time count; -1 means the EDD schedule is infeasible; a feasible EDD schedule is matched or beaten; with weights and limit at least 0, a loop that stops reports a schedule, and a loop with no feasible permutation never stops |
| MooreFixed.Search | moore.c:152-284 | passes repeated until no progress or a repeated schedule keep a permutation and a valid record that only improves |
| Moore.RunStep | moore.c:152-284 | the loop runs one pass; it ends there with the pass's state when the pass reports no progress, ends unfinished when the passes are used up, and otherwise continues from the pass's state |
| Moore.MovePass | moore.c:191-214 | a pass over a schedule over the limit, with a tardy task, that does not beat the record keeps the record and moves the first heaviest tardy task to the end, reporting progress |
| Moore.RunIntoCycle | moore.c:152-284 | if a pass leads to a state whose own pass reports progress and returns that same state, the loop never stops and ends in that state |
| MooreFixed.Heuristic | moore.c:146-293 | with the repeated-schedule stop, a result other than -1 is a feasible permutation with that count, -1 is reported whenever no permutation is feasible, and a feasible EDD schedule is matched or beaten |
| MooreFixed.StuckIsInfeasible | moore.c:157-179 | no order of the two-task table meets the limit 0 |
| MooreFixed.NeverEnds | moore.c:206-214 | on the two-task table with limit 0, the loop as written is still reporting progress after any number of passes, with nothing recorded |
| MooreFixed.StuckReportsNone | moore.c:291-293 | with the repeated-schedule stop, the same table ends with -1 |
| MooreFixed.SpinsOnFeasible | moore.c:206-214 | on the three-task table with limit 0, the id order is feasible, yet the loop as written is still reporting progress after any number of passes, with nothing recorded |
| MooreFixed.SpinReportsNone | moore.c:291-293 | with the repeated-schedule stop, the three-task table ends with -1 although the id order is feasible |

## Left out

- `main` in both programs. This covers argument checks, reading the task file, and the "no valid schedule" messages. It is all input and output.
- Output formatting of `print_schedule` (`printf`). Each printed line is modelled as a `Row` value holding the same seven columns. The status strings become the `Status` values `OnTimeS`, `OnTime` and `Tardy`.
- `clock()` timing and the CPU-time `double` in `main`. This is floating-point measurement outside the core.
- `malloc`, `calloc`, `free` and `memcpy`, and the nested-function mechanics of the merge sort. Arrays are immutable sequences, and a copy is a sequence value.
- The `nopts`/`option` arrays are modelled as one sequence per level, listing the level's stack bottom to top. The entry value of the dummy level 0 is irrelevant to the code and is modelled as 0.
- The unused `swap` helper (naive.c:14-19).
- The globals `max_s_on_time_count` and `optimal_permutation` (naive.c:21-22) are a record value threaded through the enumeration.
- C `int` overflow. The clock and the weight sums are unbounded integers, so inputs whose sums exceed 32 bits are not modelled.
- The contents of `best_schedule` when nothing was ever recorded. The C buffer is uninitialised. The model holds the empty sequence with the count -1.
- Task ids: the EDD schedule reads `->id`. The model requires a well-formed table (`tasks[i].id == i`), as the input reader builds it.
- Moore.Run: the C loop has no bound, so the model runs at most fuel + 1 passes. `stopped` tells whether the loop ended by itself before the fuel ran out.
- Moore.Heuristic: the guarantees about stopping (a schedule is reported; no stop without a feasible permutation) are stated only for weights of at least 0 and K of at least 0. With a negative weight or limit, a schedule can be over the limit while the move-to-end step finds nothing to move.
- Moore.Heuristic: no optimality is claimed, because the heuristic promises none. The model states only that a feasible EDD schedule is matched or beaten.
- MooreFixed.Heuristic: -1 from the corrected engine does not mean that no feasible order exists. The heuristic is not complete, and `MooreFixed.SpinReportsNone` gives a table with a feasible order on which it reports -1. Only the converse is stated: when no order is feasible, it reports -1.

## Findings

| source | as written | input that shows it | evidently intended | confidence | as-written member | corrected member |
|---|---|---|---|---|---|---|
| moore.c:206-214, 280-283 | the move-to-end step reports progress even when it only cycles through schedules already tried, so when no schedule meets the limit the loop never breaks | n = 2, K = 0, lengths 5 and 5, weights 1 and 1, deadlines 3 and 3, both tasks in S | the engine ends and reports -1 ("no valid schedule") | not executed | MooreFixed.NeverEnds | MooreFixed.Heuristic |
| moore.c:206-214, 280-283 | the move-to-end step reports progress even when the heaviest tardy task is already last, so the schedule is written back unchanged and the loop spins, also on a table with a feasible order | n = 3, K = 0, no task in S; (length, weight, deadline) = (2, 1, 2), (2, 1, 4), (1, 0, 1); EDD is 2, 0, 1, one move gives 2, 1, 0, whose only tardy task is last; the order 0, 1, 2 is feasible | the loop ends once a move changes nothing | not executed | MooreFixed.SpinsOnFeasible | MooreFixed.Heuristic |
