# IPSC 2015 problems G and A, modelled in Dafny

Problem G is about a company of `N` employees numbered 1..N. Employee 1 is the
root. Employee `i + 2` reports to manager `hierarchy_spec[i]`, and every
manager's number is below its report's number. The input is a list of events of
two kinds:

- a **memo** `(person, importance, tie)` sets the tie of every employee at most
  `importance` hops below `person`, including `person`;
- a **read** `(person, multiplier)` adds `multiplier` times the reader's current
  tie to a total.

Every tie starts at 1.

The model states this meaning once, in module `Events`. `TieAt` is the tie of
the latest earlier memo that reaches the reader, or 1 when there is none;
`ExpectedTotal` is the sum over the reads. Both engines of the repository are
proved to return `ExpectedTotal`:

- **Deep engine** (`problem2015g/deepcompany.py`, module `DeepCompanyEngine`).
  - Each employee gets a write-once *line summary*: every `interval`-th manager
    on its line from the root, with the distance to it.
  - Events are walked from last to first. Reads wait in a queue kept sorted by
    person, with merged multipliers (`ReadEvents`, `Bisect`).
  - A memo settles the waiting reads it reaches. The scan stops at the first
    person numbered below the memo's origin.
  - `InManagementLine` answers "does `m` manage `e` within `d` hops" by jumping
    through the summary, and is proved equal to walking the line.
  - `ipsc2015g.py:37-281` is the same code with `SUMMARY_INTERVAL = 10`
    (`ipsc2015g.py:30`), so the engine is modelled once, with the interval as a
    parameter.
  - `StandaloneSolution.Solve` builds it with interval 10 and reduces the total
    modulo 10^9 + 7.
- **Shallow engine** (`problem2015g/shallowcompany.py`, modules
  `ShallowCompanyEngine` and `MemoQueues`).
  - Events are walked forwards and memos are queued.
  - A read pushes down every queued memo whose origin is numbered at or below
    the reader. Each such memo sets its origin's tie and is replaced in place by
    one memo per report, with one hop less.
  - Termination uses the total size of the hop-truncated subtrees of the queued
    memos. That measure drops by one with every expansion.
- **Engine selection** (`problem2015g/company.py`, module `CompanyModels`).
  - The depth of each employee is measured, and a counter of depths is kept.
  - Deep is chosen when the average depth exceeds `sqrt(N)`.
  - `BothEnginesAgree` shows the choice cannot change the total.

Problem A (`ipsc2015a.py`, module `DigitPuzzle`) reads a line of digits and
sorts the digits largest first. The smallest digit is added to the number that
the remaining digits form, read largest first. The model proves three things:

- the sort is the unique non-increasing permutation;
- the popped digit is the minimum;
- the second number is the largest number those digits can form.

The company is an arena indexed by employee number. The per-employee fields of
the source become `seq` fields of the company classes:

- `_line_summary` and the manager links in the Deep engine;
- `_reports` and `_tie` in the Shallow engine;
- `_depth` in the depth measure.

Python's `ReadEventQueue.__len__` and `__getitem__` are `Length` and `Get`. The
loop over `reverse_index_range()` is a `while` loop from `Length() - 1` down
to 0.

## Model

| member | source | states |
|---|---|---|
| Hierarchy.Manager | problem2015g/deepcompany.py:41-48 | the manager of a non-root employee is numbered below it |
| Hierarchy.Depth | problem2015g/company.py:37-44 | the depth (0 at the root, manager's depth + 1 otherwise) is below the employee's number |
| Hierarchy.Ancestor | problem2015g/deepcompany.py:143-152 | the ancestor `k` hops up is `k` levels shallower and, for `k > 0`, numbered lower |
| Hierarchy.FullLine | problem2015g/deepcompany.py:143-152 | the management line of `e` has one entry per level above `e` |
| Hierarchy.LineOfManager | problem2015g/deepcompany.py:67-72 | popping the last entry of `e`'s line gives the line of `e`'s manager, which the summary walk relies on |
| Hierarchy.PopManager | problem2015g/deepcompany.py:67 | `full_line.pop()` on the line of a non-root `e` leaves exactly the line of `e`'s manager |
| Hierarchy.FullLineIsAncestors | problem2015g/deepcompany.py:143-152 | the line starts at the root (the source's assertion), entry `i` is the ancestor `|line| - i` hops up, and entries strictly increase and stay below `e` |
| Hierarchy.ChildrenSpec | problem2015g/shallowcompany.py:23-27 | the reports of `o` are exactly the employees whose manager is `o`, in increasing order and numbered above `o` |
| Hierarchy.NoReportIffNoChildren | problem2015g/deepcompany.py:49-54 | an employee is a leaf of the first `n` (`not employee.reports`) iff it has no children among them |
| Hierarchy.ManagesWithinBound | problem2015g/deepcompany.py:184-185 | a manager within reach of `e` is numbered at most `e`, so `manager > number` answers False |
| Hierarchy.ManagesWithinMonotone | problem2015g/deepcompany.py:181-229 | a larger hop budget reaches at least as far |
| Hierarchy.ManagesWithinIsAncestor | problem2015g/deepcompany.py:181-229 | `m` reaches `e` within `d` hops iff `m` is the ancestor of `e` some `k <= d` hops up |
| Hierarchy.AncestorIsManager | problem2015g/deepcompany.py:216-227 | the ancestor `k` hops up reaches `e` with any budget of at least `k` |
| Hierarchy.ManagerDistance | problem2015g/deepcompany.py:216-227 | a manager within reach is the ancestor at some distance within the budget |
| Hierarchy.ManagesWithinJump | problem2015g/deepcompany.py:197-209 | jumping `k` hops up to an ancestor at or above `m`, and spending `k` of the budget, keeps the answer |
| Hierarchy.ChildrenReach | problem2015g/shallowcompany.py:90-98 | some report of `o` reaches `x` within `d` hops iff `o` reaches `x != o` within `d + 1` hops |
| Hierarchy.ReportReachImpliesManagerReach | problem2015g/shallowcompany.py:90-98 | what a report of `o` reaches within `d` hops, `o` reaches within `d + 1`, and it is not `o` |
| Hierarchy.ManagerReachImpliesReportReach | problem2015g/shallowcompany.py:90-98 | what `o` reaches within `d + 1` hops, other than `o`, some report reaches within `d` |
| Hierarchy.LookUp | problem2015g/deepcompany.py:84-85 | `get_employee` with Python list indexing: numbers 1..count as given, 0 and negative numbers counted from the end, others raise |
| Hierarchy.ResolveManagers | problem2015g/deepcompany.py:41-48 | every manager number resolves to an existing employee, or the first that does not fails |
| Hierarchy.BuildHierarchy | problem2015g/deepcompany.py:41-57 | the Deep engine's construction (and the depth measure's, which looks managers up the same way) fails iff a manager number cannot be looked up or the employee count is wrong; otherwise the result is a valid hierarchy |
| Hierarchy.ValidSpecBuildsAsWritten | problem2015g/deepcompany.py:41-48 | a hierarchy with managers 1..i+1 is built exactly as written |
| Hierarchy.ManagerZeroIsAccepted | problem2015g/deepcompany.py:45 | in the Deep engine and the depth measure, manager number 0 is not rejected: it names the employee built last |
| Events.LatestReachIsLatest | problem2015g/deepcompany.py:100-113 | no memo reaches `x` iff the latest reach is None; otherwise it is the tie of a reaching memo with no reaching memo after it |
| Events.LatestReachAppend | problem2015g/deepcompany.py:93-113 | the latest reaching memo of `a + b` comes from `b` if any memo of `b` reaches |
| Events.LatestReachAbove | problem2015g/deepcompany.py:105-107 | memos whose origins are all numbered above `x` never reach `x` |
| Events.TieAfterRead | problem2015g/shallowcompany.py:63-65 | a read changes no tie |
| Events.TieAfterMemo | problem2015g/shallowcompany.py:90-91 | a memo sets the tie of exactly the employees it reaches |
| Events.EventList.constructor | problem2015g/deepcompany.py:87 | the caller's event list as given |
| Events.EventList.Pop | problem2015g/deepcompany.py:96 | `event_queue.pop()` returns the last event and removes it |
| Events.EmptyEventsTotal | problem2015g/deepcompany.py:115-119 | no events give total 0 |
| Events.ChainExample | problem2015g/deepcompany.py:87-119 | a memo from the root with importance 2 reaches employee 3 of the chain 1, 2, 3 |
| Events.ImportanceZeroExample | problem2015g/deepcompany.py:87-119 | a memo with importance 0 does not reach a report |
| Events.OverridingExample | problem2015g/deepcompany.py:87-119 | of two reaching memos the later one decides the tie read |
| Bisect.BisectLeft | problem2015g/deepcompany.py:254-255 | `bisect_left` returns the index splitting a sorted list into the elements below `x` and those at least `x` |
| Bisect.BisectFinds | problem2015g/deepcompany.py:256-257 | `x` is in the sorted list iff it sits at the bisect index |
| Bisect.InsertKeepsIncreasing | problem2015g/deepcompany.py:260-261 | inserting an absent person at its bisect index keeps the list strictly increasing |
| Bisect.RemoveKeepsIncreasing | problem2015g/deepcompany.py:271-274 | removing one entry keeps the list strictly increasing and removes exactly that person |
| ReadEvents.ReadEventQueue.constructor | problem2015g/deepcompany.py:235-241 | the queue starts empty, with both lists of equal length |
| ReadEvents.ReadEventQueue.AddEvent | problem2015g/deepcompany.py:250-263 | a read of a queued person adds its multiplier to that entry, otherwise one entry is inserted at the bisect index; the lists stay of equal length and strictly increasing, and the queued persons gain exactly the reader |
| ReadEvents.ReadEventQueue.Pop | problem2015g/deepcompany.py:271-274 | entry `index` is removed from both lists and the rest keep their order |
| LineSummaries.SampleAt | problem2015g/deepcompany.py:164-166 | `SampleNumbers` and `SampleDistances` have equal lengths, and entry `j` of a summary is `line[j * interval]` at distance `|line| - j * interval` |
| LineSummaries.SampleFromLine | problem2015g/deepcompany.py:164-166 | every sampled number is a line entry paired with its distance to the end of the line |
| LineSummaries.SampleIncreasing | problem2015g/deepcompany.py:164-166 | sampling a strictly increasing line gives a strictly increasing summary |
| LineSummaries.SampledSummaryValid | problem2015g/deepcompany.py:154-169 | a sample of `e`'s line is a valid summary: each entry is the ancestor of `e` at the paired distance |
| LineSummaries.SummaryOfValid | problem2015g/deepcompany.py:154-169 | the summary actually stored, `SummaryOf` of the line (empty when the line has at most `interval` entries) is valid |
| LineSummaries.FloorDivisionSummaryValid | problem2015g/deepcompany.py:158-160 | with floor division instead, the summary is still valid and empty below `2 * interval` entries |
| LineSummaries.TrueQuotientAtMostOne | problem2015g/deepcompany.py:158-159 | under true division `len(full_line) / interval <= 1` holds iff the line has at most `interval` entries |
| ReadAccounting.WeightedAgree | problem2015g/deepcompany.py:115-117 | the queue's weighted total depends only on the ties of the queued persons |
| ReadAccounting.MergedWeight | problem2015g/deepcompany.py:258 | merging a multiplier into entry `k` adds that multiplier times the entry's tie |
| ReadAccounting.InsertedWeight | problem2015g/deepcompany.py:260-261 | inserting an entry adds its multiplier times its tie |
| ReadAccounting.AddedAtWeight | problem2015g/deepcompany.py:250-263 | adding a read to the queue, by merging or inserting, adds the read's multiplier times its tie |
| ReadAccounting.SettledStep | problem2015g/deepcompany.py:110-113 | settling entry `i` at tie `t` moves `t` times its multiplier into the total and removes it |
| ReadAccounting.KeptStep | problem2015g/deepcompany.py:109-111 | an entry the memo does not reach contributes the same before and after it |
| ReadAccounting.StoppedScan | problem2015g/deepcompany.py:105-107 | once the scan stops, the unscanned entries contribute the same on both sides of the memo |
| ReadAccounting.TiesAfterRead | problem2015g/deepcompany.py:97-98 | a read changes no queued person's tie |
| ReadAccounting.TiesAfterMemoAbove | problem2015g/deepcompany.py:105-107 | a memo changes no tie of a person numbered below its origin |
| DeepCompanyEngine.ManagerOf | problem2015g/deepcompany.py:135-137 | the manager property: None exactly for the root, otherwise a lower-numbered employee |
| DeepCompanyEngine.Reversed | problem2015g/deepcompany.py:150 | `list.reverse`: entry `i` is the original entry `|s| - 1 - i` |
| DeepCompanyEngine.NonLeafSummarized | problem2015g/deepcompany.py:61-72 | after the leaf pass every employee with a report has a summary |
| DeepCompanyEngine.LeavesCover | problem2015g/deepcompany.py:61-72 | after the leaf pass every employee or its manager has a summary, which `in_management_line` needs |
| DeepCompanyEngine.LeafStep | problem2015g/deepcompany.py:50-55 | after adding employee `i + 2`, the leaf list holds exactly the built employees with no report |
| DeepCompanyEngine.AddReport | problem2015g/deepcompany.py:40-55 | one round of the first constructor loop: the leaf list stays strictly increasing and holds exactly the built employees with no report |
| DeepCompanyEngine.WalkUp | problem2015g/deepcompany.py:216-229 | climbing one manager at a time answers exactly whether `m` manages `start` within `steps` hops |
| DeepCompanyEngine.ExactSummariesValid | problem2015g/deepcompany.py:154-169 | a summary that is the sample of its employee's line is a valid summary |
| DeepCompanyEngine.PopulatedStaysExact | problem2015g/deepcompany.py:154-169 | storing the sample of `e`'s line, when `e` had none, keeps every stored summary the sample of its line, keeps the earlier ones unchanged, adds only `e`, and leaves at most `e` without a summarised manager |
| DeepCompanyEngine.PopulatedStaysClosed | problem2015g/deepcompany.py:154-169 | filling the empty entry of `e` breaks closure under taking the manager at most at `e` |
| DeepCompanyEngine.UnreachedMembers | problem2015g/deepcompany.py:108-113 | of the readers `Unreached` keeps (the queued readers the memo misses, in order), a reader is among them iff it was queued and the memo does not reach it |
| DeepCompanyEngine.UnreachedKeepsFront | problem2015g/deepcompany.py:105-107 | entries at the front of the queue whose readers the memo does not reach all stay, in order, in either list |
| DeepCompanyEngine.ScanStepKept | problem2015g/deepcompany.py:108-113 | settling the entry at `idx`, by removing it iff the memo reaches its reader, extends the settled tail by one entry, for the readers and the multipliers alike |
| DeepCompanyEngine.ScanStopped | problem2015g/deepcompany.py:105-107 | once the scan stops below the memo's origin, each list holds exactly its entries whose readers the memo does not reach |
| DeepCompanyEngine.DeepCompany.constructor | problem2015g/deepcompany.py:33-74 | after construction the root is summarised, every stored summary is exactly the sample of its employee's line (so valid), summaries are closed under taking the manager, and every employee or its manager has a summary |
| DeepCompanyEngine.DeepCompany.SummariseLeaves | problem2015g/deepcompany.py:61-72 | the loop over the leaves leaves every leaf or its manager summarised, keeps earlier summaries unchanged, and keeps every summary exact and upward closed |
| DeepCompanyEngine.DeepCompany.SummariseFromLeaf | problem2015g/deepcompany.py:61-72 | one round of the leaf loop leaves the leaf or its manager summarised, keeps every earlier summary unchanged, and keeps every stored summary the sample of its line and upward closed |
| DeepCompanyEngine.DeepCompany.SummariseManagers | problem2015g/deepcompany.py:66-72 | the `while populate_line_summary(...)` walk ends with the first manager summarised, every earlier summary unchanged, and every stored summary the sample of its line and closed under taking the manager |
| DeepCompanyEngine.DeepCompany.ClimbStep | problem2015g/deepcompany.py:69-72 | one round of that walk moves to the manager, whose line is the line popped; it reports a store iff that manager had no summary, adds a summary for it alone, changes no earlier summary, and keeps the walk's invariant (summaries exact, only a just-summarised manager may lack a summarised manager) |
| DeepCompanyEngine.DeepCompany.StoreManagerSummary | problem2015g/deepcompany.py:69-72 | one `populate_line_summary` call of the walk up: reports a store iff `e` had no summary; afterwards `e` is summarised, no other entry is added, earlier summaries are unchanged, every stored summary is the sample of its line, and the closure is broken at most at `e` if it was just summarised |
| DeepCompanyEngine.DeepCompany.PopulateLineSummary | problem2015g/deepcompany.py:154-169 | summaries are written once: stores the sample of the line iff the employee had none and returns whether it did |
| DeepCompanyEngine.DeepCompany.BuildFullLine | problem2015g/deepcompany.py:143-152 | returns the management line of `e`, root first |
| DeepCompanyEngine.DeepCompany.BuildLineSummary | problem2015g/deepcompany.py:171-179 | builds nothing when the manager is summarised; otherwise summarises the employee and returns its full line |
| DeepCompanyEngine.DeepCompany.ProcessEventQueue | problem2015g/deepcompany.py:87-119 | consumes the event list and returns the reference total of the events |
| DeepCompanyEngine.DeepCompany.QueueRead | problem2015g/deepcompany.py:97-98 | the read branch: the read joins the queue, merged into its person's entry or inserted at the bisect index, and the queue's weight at the ties before the read is its weight at the ties after it plus the read's multiplier times its tie |
| DeepCompanyEngine.DeepCompany.DeliverMemo | problem2015g/deepcompany.py:100-113 | the memo branch: both lists end holding exactly the entries of the readers the memo does not reach, in order and each with its own multiplier; the settled reads gain the memo's tie, so the queue's remaining weight plus the gain is unchanged |
| DeepCompanyEngine.DeepCompany.SettleIfReached | problem2015g/deepcompany.py:108-113 | one step of the scan: a reached entry leaves both lists and gains the memo's tie times its multiplier, an unreached one stays and gains nothing, and the split weight is unchanged |
| DeepCompanyEngine.DeepCompany.InManagementLine | problem2015g/deepcompany.py:181-229 | the summary-jumping walk answers exactly whether `m` is `e` or manages `e` within `maxDistance` hops |
| MemoQueues.SpliceShape | problem2015g/shallowcompany.py:10-11 | `Splice`, the slice assignment, has the length of the rest plus the sublist, keeps the entries before `index`, puts the sublist at `index`, and shifts the later entries |
| MemoQueues.SpliceAtEnd | problem2015g/shallowcompany.py:13-14 | expanding at the end with one memo appends it |
| MemoQueues.MemoQueue.constructor | problem2015g/shallowcompany.py:57 | the queue starts empty |
| MemoQueues.MemoQueue.Expand | problem2015g/shallowcompany.py:10-11 | replaces the slot at `index` by the sublist |
| MemoQueues.MemoQueue.Append | problem2015g/shallowcompany.py:13-14 | appends one memo |
| ShallowCompanyEngine.ExpansionValid | problem2015g/shallowcompany.py:90-98 | the memos `Expansion` hands on (`ReportMemos` of the reports, none at importance 0) are valid and originate at reports, numbered above the memo's origin |
| ShallowCompanyEngine.UniformLatestReach | problem2015g/shallowcompany.py:95-97 | when all memos carry one tie, the latest reach is that tie iff some memo reaches |
| ShallowCompanyEngine.ExpansionReach | problem2015g/shallowcompany.py:90-98 | the expanded memos reach exactly the employees other than the origin that the memo reached |
| ShallowCompanyEngine.ExpandKeepsEffective | problem2015g/shallowcompany.py:44-46 | setting the origin's tie and splicing in its expansion leaves every employee's effective tie unchanged |
| ShallowCompanyEngine.PendingAppend | problem2015g/shallowcompany.py:42-48 | the termination measure adds up over concatenation |
| ShallowCompanyEngine.PendingReportMemos | problem2015g/shallowcompany.py:95-97 | the memos handed to the reports weigh at most the reports' subtrees |
| ShallowCompanyEngine.PendingShrinks | problem2015g/shallowcompany.py:44-46 | an expansion strictly lowers the measure of the rest of the queue |
| ShallowCompanyEngine.NoReportsYet | problem2015g/shallowcompany.py:74-77 | an employee has no reports among the employees built before it |
| ShallowCompanyEngine.ShallowCompany.constructor | problem2015g/shallowcompany.py:19-29 | every employee's reports are exactly the employees it manages, in order, and every tie is 1 |
| ShallowCompanyEngine.ShallowCompany.ExpandMemo | problem2015g/shallowcompany.py:34-37 | sets the origin's tie to the memo's tie and returns one memo per report with one hop less, or none at importance 0 |
| ShallowCompanyEngine.ShallowCompany.ExpandStep | problem2015g/shallowcompany.py:44-46 | one expansion keeps the queue valid, the scanned prefix above the reader, and every effective tie, and lowers the measure |
| ShallowCompanyEngine.ShallowCompany.PushDown | problem2015g/shallowcompany.py:42-47 | the inner scan ends at the end of the queue with every memo from an origin at or below the reader pushed down, the queue valid, and every effective tie unchanged |
| ShallowCompanyEngine.ShallowCompany.GetTie | problem2015g/shallowcompany.py:39-52 | returns the reader's effective tie and leaves only memos from origins numbered above the reader, without changing anyone's effective tie |
| ShallowCompanyEngine.ShallowCompany.ProcessEventQueue | problem2015g/shallowcompany.py:54-69 | returns the reference total of the events |
| CompanyModels.Increment | problem2015g/company.py:24 | `counter[d] += 1`: depth `d` counts one more and no other count changes |
| CompanyModels.IncrementSums | problem2015g/company.py:32-34 | one more employee at depth `d` adds 1 to the counter's count `CountSum` and `d` to its weighted sum `WeightedSum` |
| CompanyModels.EmptySums | problem2015g/company.py:17 | an empty counter sums to 0 |
| CompanyModels.CountNext | problem2015g/company.py:19-24 | counting the next employee at its depth keeps the counter equal to the head count per depth, with the matching sums |
| CompanyModels.SumDepthsBounds | problem2015g/company.py:37-44 | the non-root employees' depths add up to between `n - 1` and `(n - 1)^2` |
| CompanyModels.DepthMeasureCompany.constructor | problem2015g/company.py:14-26 | every employee's depth is its distance to the root; the counter holds the head count at each depth, summing to `N - 1`, with weighted sum the total depth |
| CompanyModels.DepthMeasureCompany.AverageDepth | problem2015g/company.py:31-34 | division by zero iff there is only the root; otherwise the mean depth of the non-root employees, between 1 and `N - 1` |
| CompanyModels.MeanBounds | problem2015g/company.py:31-34 | a total between `m` and `m^2` over `m` items has a mean between 1 and `m` |
| CompanyModels.SquareRootCriterion | problem2015g/company.py:56 | for the square root `r` of `n`, `average > r` iff the average is non-negative with square above `n` |
| CompanyModels.DeepCriterion | problem2015g/company.py:56 | with `n >= 2`, the average depth exceeds `sqrt(n)` iff the integer criterion `PrefersDeep` (`S^2 > n (n - 1)^2` for the total depth `S`) holds |
| CompanyModels.SelectionExamples | problem2015g/company.py:56-61 | a chain of 4 and a star of 5 employees get the Shallow engine, a chain of 5 the Deep engine |
| CompanyModels.CreateCompanyModel | problem2015g/company.py:51-61 | fails iff `N == 1`; otherwise returns a Deep engine (interval 10000) iff the integer criterion holds, else a fresh Shallow engine, both built from the given hierarchy |
| CompanyModels.BothEnginesAgree | problem2015g/company.py:56-61 | both engines return the same total, the reference total, for any events |
| StandaloneSolution.Solve | ipsc2015g.py:352-360 | the Deep engine with interval 10 gives the reference total, reduced into `[0, 10^9 + 7)` |
| DigitPuzzle.ParseDigits | ipsc2015a.py:47 | one digit per character; fails iff some character is not a decimal digit |
| DigitPuzzle.Render | ipsc2015a.py:77 | `"".join(map(str, digits))`: one character per digit |
| DigitPuzzle.ParseRender | ipsc2015a.py:47 | reading back written digits gives the digits |
| DigitPuzzle.RenderParse | ipsc2015a.py:47 | writing out a parsed line gives the line |
| DigitPuzzle.Insert | ipsc2015a.py:75 | inserting into a non-increasing list keeps it non-increasing and adds exactly that element |
| DigitPuzzle.SortDescending | ipsc2015a.py:75 | `sorted(..., reverse=True)` is non-increasing and a permutation of its input |
| DigitPuzzle.NonIncreasingUnique | ipsc2015a.py:75 | a non-increasing permutation is unique, so this sort and Python's agree |
| DigitPuzzle.DecimalValueBounds | ipsc2015a.py:77 | `int(...)` of `k` decimal digits lies in `[0, 10^k)` |
| DigitPuzzle.InsertMaximizes | ipsc2015a.py:77 | putting a digit at its place in a non-increasing list does not lower its decimal value |
| DigitPuzzle.SortMaximizes | ipsc2015a.py:77 | sorting largest first does not lower the decimal value |
| DigitPuzzle.LargestArrangement | ipsc2015a.py:77 | a non-increasing arrangement has the largest value among all orders of the same digits |
| DigitPuzzle.LastIsSmallest | ipsc2015a.py:76 | the last element of a non-increasing list is its smallest |
| DigitPuzzle.SplitSorted | ipsc2015a.py:76-77 | the popped digit is the minimum and the rest are the other digits in their largest arrangement |
| DigitPuzzle.SolveErrors | ipsc2015a.py:75-77 | `Solve`: no digits fail at the pop, one digit fails at `int("")`, and two or more succeed |
| DigitPuzzle.SolveSpec | ipsc2015a.py:75-78 | `Solve`'s answer is the smallest digit plus the largest number the other digits form |

## Left out

- The puzzle readers are not modelled: logging, timing, file handles and `sys.argv` (`puzzlereader.py`, `ipsc2015g.py:290-367` apart from lines 352-360, `ipsc2015a.py:20-85` apart from lines 47 and 75-78). They are I/O only.
- The engines take the reader's facts as preconditions:
  - every manager number is between 1 and the new employee's number minus 1;
  - every event names an existing employee;
  - importances are non-negative, and memo ties are non-zero, because a zero tie marks a read in the input (`ipsc2015g.py:323-330`). A memo with tie 0 would also make `get_tie`'s `while result == 0` loop (`shallowcompany.py:42`) run forever.
- `Hierarchy.BuildHierarchy` models what the Deep engine's and the depth measure's construction do with other manager numbers (`deepcompany.py:44`, `company.py:21`): Python's negative indexing and the raised errors.
- The Shallow engine's own construction with other manager numbers is not modelled; `ShallowCompany` takes a valid hierarchy as a precondition. It appends the new employee before looking up its manager (`shallowcompany.py:25-27`), so manager 0, or the employee's own number, makes the employee its own report, and a negative number resolves one place later than in the Deep engine.
- `CompanyModels.CreateCompanyModel` takes the hierarchy spec as a list. `create_company_model` walks it twice (`company.py:52`, then `58` or `61`), while the reader hands over a `map` object (`puzzlereader.py:41`), which the first walk would exhaust under Python 3; the model does not capture that.
- Employees are an arena indexed by number, not objects with a back-reference to the company. The unused `_iterator_index` of `ReadEventQueue` is dropped.
- Some loops and loop bodies of the source are split out as methods. Their callers run them exactly where the source runs the inline code:
  - `DeepCompanyEngine.AddReport` (`deepcompany.py:40-55`);
  - `SummariseManagers`, `ClimbStep` and `StoreManagerSummary` (`deepcompany.py:66-72`);
  - `SummariseLeaves` (`deepcompany.py:61-72`);
  - `QueueRead`, `DeliverMemo` and `SettleIfReached` (`deepcompany.py:97-113`);
  - `WalkUp` (`deepcompany.py:216-229`);
  - `ShallowCompanyEngine.ShallowCompany.PushDown` (`shallowcompany.py:42-47`).
- `ShallowCompanyEngine.ShallowCompany.ProcessEventQueue`: proved only for a company whose ties are all still 1. The source keeps the ties in the employees, so a second call on the same company would start from the first call's ties.
- The summary cut-off uses `/` (`deepcompany.py:158`), which is true division under Python 3, so a line of at most `interval` entries gets an empty summary. With floor division instead, `LineSummaries.FloorDivisionSummaryValid` shows that the summaries are still valid. `InManagementLine`'s answer does not depend on the cut-off.
- The code samples every `interval`-th manager starting from the root (`deepcompany.py:164-166`), and so does the model.
- The code adds unbounded Python integers and reduces once at the end (`ipsc2015g.py:360`); the model does the same.
- `CompanyModels.DepthMeasureCompany.AverageDepth`: the average is an exact `real`, not a float, so float rounding is not modelled. Under Python 2 the division would floor; that is not modelled either.
- `CompanyModels.CreateCompanyModel`: `average > sqrt(N)` is decided by the exact comparison `S^2 > N (N - 1)^2`. `SquareRootCriterion` and `DeepCriterion` relate it to the real square root; a float `sqrt` could differ at the boundary.
- The counter's sums run over the depths below `N` rather than over `Counter.items()`. They are the same sums, because `DepthMeasureCompany.Valid` keeps every key between 1 and `N - 1`.
- `DigitPuzzle.ParseDigits`: only the ASCII digits `0`-`9` are accepted, while Python's `int` also accepts other Unicode decimal digits. The line is taken as already stripped.
