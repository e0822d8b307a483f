# Flight Scheduler controller core, modelled in Dafny

This project models the bookkeeping core of the Flight Scheduler controller,
a batch scheduler for HPC clusters. Jobs arrive as plain jobs or as array
jobs whose tasks are drawn one at a time. The controller validates jobs and
partitions, binds jobs to nodes through a single allocation registry, and
tracks each job step's per-node executions. Every operation is a pure
function over immutable data, and the properties are proved about those
functions.

| file | module | models |
|---|---|---|
| `wrappers.dfy` | `Wrappers` | `Option` |
| `values.dfy` | `Values` | Ruby values: truthiness, `Kernel#Array`, blank strings, decimal digits, validation errors |
| `nodes.dfy` | `Nodes` | compute nodes and their names |
| `range_expander.dfy` | `RangeExpander` | array range expressions (`1,3`, `1-10`, `8-10,1-4`) and their expansion |
| `partition.dfy` | `Partitions` | `Partition`: keyword defaults, `default?`, equality and hash, validation |
| `job.dfy` | `Jobs` | `Job` and `Task`: construction, the `min_nodes` decoder, `array=`, readers, `script_path`, validation, task delegation |
| `task_registry.dfy` | `TaskRegistry` | the pending / running / past bookkeeping of an array job's tasks |
| `allocation_registry.dfy` | `AllocationRegistry` | `add`, `delete`, the lookups and the capacity query of the allocation registry |
| `job_step.dfy` | `JobSteps` | `JobStep` and `JobStep::Execution` |

Modelling choices:

- **Ruby values.** Ruby's dynamic values are the `Values.Value` datatype.
- **Optional attributes.** An attribute that may be `nil` is an `Option`.
- **Validation.** A validation returns its errors as a list, in the order
  the rules are declared, and "valid" means the list is empty. Each
  validation's result is matched against an independent predicate stating
  the rules (`Jobs.WellFormed` and friends).
- **Array tasks.** A task is identified by its position in the array job's
  task list. Task states are read at the moment of each query, so every
  `TaskRegistry` query takes the list of task states as a parameter.
- **Allocation registry tables.**
  - The node table is a map, including the empty entries that reading the
    table inserts.
  - The job table is a list of allocations in insertion order, because
    Ruby hashes enumerate in insertion order.
- **Parsing range expressions.** The parser of range expressions is not part
  of this model. A parsed expression is its list of tokens plus the parser's
  verdict, `valid`.

Three behaviours of the code are worth stating up front:

- **Task exhaustion.** Once an array job's last task has been drawn, the
  next draw (`task_enum.next`, lib/flight_scheduler/task_registry.rb:72)
  raises `StopIteration`, after the old pending task was already moved.
  The model states that behaviour (`TaskRegistry.RefreshAsWritten`) and
  uses a corrected refresh that empties the pending slot instead (see
  Findings).
- **Missing resource requirements.** `allocated_resources`
  (lib/flight_scheduler/allocation_registry.rb:123-128) sums the
  allocations' per-node requirements and turns the result into an integer
  with `to_i`, so an empty or single `nil` sum is 0. A sum over two or more
  allocations with a `nil` requirement would raise. The registry's
  invariant (`AtMostOnePerNode`) keeps at most one allocation on a node, so
  no reachable registry has such a node.
- **Job type after `array=`.** `array=` (app/models/job.rb:113-117) sets
  the job type to `ARRAY_JOB`, but parameters are assigned in the order
  given, so a `job_type` given after it overrides that
  (`Jobs.LaterJobTypeWins`).

## Model

| member | source | states |
|---|---|---|
| Values.ArrayOf | app/models/job.rb:155-157 | `Kernel#Array`: `nil` gives the empty list, a list is kept, a hash gives its pairs, and any other value is wrapped into a one-element list |
| Values.ArrayOfIdempotent | app/models/job.rb:155-157 | wrapping an already-wrapped value again changes nothing |
| Values.DigitsRoundTrip | app/models/job.rb:78-79 | reading back the decimal text of a number gives the number (the `to_i` of a digit string) |
| RangeExpander.Interval | spec/range_expander_spec.rb:56-61 | a dashed range `a-b` covers exactly a, a+1, …, b, in order, and nothing when a > b |
| RangeExpander.ExpandLength | spec/range_expander_spec.rb:72-84 | an expansion is as long as the sum of its tokens' lengths |
| RangeExpander.ExpandAppend | spec/range_expander_spec.rb:72-84 | comma-separated parts expand independently, concatenated in the order written |
| RangeExpander.ExpandMembers | spec/range_expander_spec.rb:36-40 | an index is in the expansion iff some token covers it |
| RangeExpander.ExpandSingles | spec/range_expander_spec.rb:49-54 | a comma-separated list of single indices (`Singles`) expands back to exactly those indices, in the order written |
| RangeExpander.InvertedSpanIsEmpty | spec/range_expander_spec.rb:63-70 | an inverted range expands to nothing |
| RangeExpander.ExampleSingle | spec/range_expander_spec.rb:42-47 | "1" expands to [1] |
| RangeExpander.ExampleList | spec/range_expander_spec.rb:49-54 | "1,2,3,6,7,10,12,4" is the text of its own token list, and expands to exactly those indices in that order |
| RangeExpander.FormatEightSingles | spec/range_expander_spec.rb:49-54 | eight single tokens are written as their numbers joined by commas, in order |
| RangeExpander.ExampleSpan | spec/range_expander_spec.rb:56-61 | "1-10" expands to 1 through 10 |
| RangeExpander.ExampleInverted | spec/range_expander_spec.rb:63-70 | "10-1" expands to nothing |
| RangeExpander.ExampleTwoSpansText | spec/range_expander_spec.rb:72-84 | the two ranges are written as "8-10,1-4" |
| RangeExpander.ExampleTwoSpans | spec/range_expander_spec.rb:72-84 | "8-10,1-4" expands to exactly 8, 9, 10, 1, 2, 3, 4 in that order, which is the multiset of indices the test expects |
| Partitions.NewPartition | app/models/partition.rb:33-47 | an omitted `default` is false, `matches` is `{}`, and the time limits are `nil`; given settings are stored as given |
| Partitions.NotDefaultUnlessSet | app/models/partition.rb:51-53 | a partition built without `default:` is not the default one |
| Partitions.SameIsEquivalence | app/models/partition.rb:55-60 | `==` (same name and same nodes) is reflexive, symmetric and transitive |
| Partitions.HashAgreesWithSame | app/models/partition.rb:55-64 | two partitions are `==` iff they hash the same input, so `eql?` and `hash` agree |
| Partitions.SettingsDoNotMatter | app/models/partition.rb:55-64 | `default`, `matches` and the time limits take no part in equality or hashing |
| Partitions.Validate | app/models/partition.rb:66-71 | a partition is valid iff `matches` is a hash; otherwise the one error is "must be a hash" on `matches` |
| Partitions.DefaultMatchesValid | app/models/partition.rb:38 | a partition with the default `matches` passes validation |
| Jobs.StripFinalNewline | app/models/job.rb:74-78 | `\Z` lets one trailing newline through, and nothing else is dropped |
| Jobs.DecodeMinNodes | app/models/job.rb:72-84 | `min_nodes=` always stores something, stores text it cannot decode unchanged, and never decodes a negative count |
| Jobs.DecodeLiteral | app/models/job.rb:74-79 | digits with suffix `k` are multiplied by 1024, with `m` by 1048576, and bare digits are the number, with or without a final newline |
| Jobs.DecodeRawIff | app/models/job.rb:72-84 | the value is kept as raw text exactly when it is no count literal |
| Jobs.DecodeExamples | app/models/job.rb:72-84 | "2k" is 2048, "3m" is 3145728, "7" is 7 and "abc" stays "abc" |
| Jobs.ApplyKeepsType | app/models/job.rb:59-63 | parameters that touch neither `job_type` nor `array` leave the job type alone |
| Jobs.NewJobIsPlainByDefault | app/models/job.rb:59-63 | a new job is a `JOB` unless a parameter sets its type or its array |
| Jobs.LaterJobTypeWins | app/models/job.rb:113-117 | `array=` makes the job an `ARRAY_JOB`, but a `job_type` assigned after it wins; the range stays set |
| Jobs.SetArrayRange | app/models/job.rb:113-117 | a `nil` range leaves the job unchanged; any other range makes it an `ARRAY_JOB` holding that range |
| Jobs.MaxNodesAfterAssignment | app/models/job.rb:67-84 | `max_nodes` reads back the decoded `min_nodes` |
| Jobs.Reason | app/models/job.rb:123-125 | the reason shows only while the job is `PENDING`, and is `nil` in every other state |
| Jobs.ArgumentsAfterAssignment | app/models/job.rb:155-157 | assigned arguments read back as a list: `nil` as none, a list as itself, a scalar as a one-element list |
| Jobs.ScriptPathShape | app/models/job.rb:141-143 | the script path is the job directory, one `/`, the id's segment, then `job-script` |
| Jobs.ScriptPathInjective | app/models/job.rb:141-143 | jobs whose ids (free of `/`) differ get different script paths |
| Jobs.HashIsById | app/models/job.rb:159-161 | two jobs hash alike exactly when their ids agree |
| Jobs.PresenceErrors | app/models/job.rb:87 | presence fails exactly for `nil` or blank text, with the single error "can't be blank" |
| Jobs.InclusionErrors | app/models/job.rb:88-92 | inclusion fails exactly for a value outside the list (`nil` passes only when allowed), with the single error "is not included in the list" |
| Jobs.NamesAreNotBlank | app/models/job.rb:32-38 | no state or job type name is blank |
| Jobs.SignedRawPassesAsWritten | app/models/job.rb:99-102 | as written, "+5" stays raw text yet passes the presence and numericality rules |
| Jobs.NumericalityErrorsAsWritten | app/models/job.rb:99-102 | as written: `min_nodes` passes iff it is a count of at least 1 or raw text in integer syntax reading as at least 1; raw text Ruby's `Float()` refuses gets "is not a number", and text it reads as a number that is not in integer syntax gets "must be an integer"; at most one error |
| Jobs.IntegerTextIsFloatText | app/models/job.rb:101 | every text in integer syntax is also a number to `Float()`, so the integer check only ever sees numbers |
| Jobs.FloatSyntaxMessages | app/models/job.rb:99-102 | "1.5", "2.0" and "+5" with a final newline get "must be an integer" |
| Jobs.SpacedFloatSyntaxMessages | app/models/job.rb:99-102 | " 5", "1_000" and "1e3" get "must be an integer" |
| Jobs.NonFloatSyntaxMessages | app/models/job.rb:99-102 | "abc", "1." and "1__0" get "is not a number" |
| Jobs.NumericalityErrors | app/models/job.rb:99-102 | corrected: `min_nodes` passes iff it decoded to a count of at least 1, and it agrees with the written rule on everything but raw text |
| Jobs.MinNodesErrors | app/models/job.rb:99-102 | corrected: the `min_nodes` rules pass iff it is a decoded count of at least 1 |
| Jobs.MinNodesErrorsAsWritten | app/models/job.rb:99-102 | as written: the `min_nodes` presence and numericality rules pass iff it is a count of at least 1 or text in integer syntax reading as at least 1, and agree with the corrected rules on everything but raw text |
| Jobs.ArrayRangeErrors | app/models/job.rb:163-165 | the array rule fails exactly for a range the parser rejected |
| Jobs.CommonErrors | app/models/job.rb:87-96 | the shared rules pass iff id and job type are present and allowed, state is a known state, and a shown reason is a known reason; no reason error unless `PENDING` |
| Jobs.PlainErrors | app/models/job.rb:98-105 | corrected: the `JOB` rules pass iff `min_nodes` is a count of at least 1, the script name is not blank and `script_provided` is `true`; each failure has its error |
| Jobs.PlainErrorsAsWritten | app/models/job.rb:98-105 | as written: the `JOB` rules pass iff `min_nodes` is accepted by ActiveModel's integer syntax, the script name is not blank and `script_provided` is `true`; with no raw `min_nodes` they are the corrected rules |
| Jobs.Validate | app/models/job.rb:86-110 | corrected: a job is valid iff it meets every rule for its type; a non-`PENDING` job never gets a reason error; a `JOB` gets every error of the plain-job rules (script name, script presence, counts); an `ARRAY_JOB` has the array error iff its range was rejected |
| Jobs.ValidateAsWritten | app/models/job.rb:86-110 | as written: a job is valid iff it meets the shared rules, a `JOB` meets the `JOB` rules with ActiveModel's numericality on raw `min_nodes`, and an `ARRAY_JOB` holds an accepted range; every job valid under the corrected rules is valid as written, and the two agree unless a `JOB` holds raw `min_nodes` |
| Jobs.SignedMinNodesSplitsVerdicts | app/models/job.rb:72-102 | a `JOB` with `min_nodes` "+5" and otherwise valid settings passes `valid?` as written and fails the corrected validation with "must be an integer" |
| Jobs.UndecodableMinNodesFailsValidation | app/models/job.rb:80-102 | `min_nodes = "abc"` is accepted by the setter and the job then fails validation |
| Jobs.InvertedRangeIsAccepted | app/models/job.rb:107-110 | an inverted range expands to nothing yet raises no array error |
| Jobs.NewTask | app/models/job.rb:168-173 | `Task.new` builds its inner job from the options, exactly as `Job.new` would |
| Jobs.MinNodesOf | app/models/job.rb:175-177 | a task always needs one node, and a job needs its own `min_nodes` |
| Jobs.JobTypeOf | app/models/job.rb:179-181 | a task reports `ARRAY_TASK` whatever its inner job holds |
| Jobs.MaxNodesOf | app/models/job.rb:64-67 | a task's `max_nodes` is its inner job's `min_nodes` (delegated, not the task's 1), and a job's is its own `min_nodes` |
| Jobs.SetStateOf | app/models/job.rb:184-186 | setting a task's state is read back and keeps it a task |
| Jobs.TaskStateIsOwn | app/models/job.rb:183-186 | a task's state change leaves the partition, validity, script path and node count it takes from its array job untouched |
| Jobs.DelegatorsReadInnerJob | app/models/job.rb:183-186 | a task's `id`, `state`, `reason`, `cpus_per_node`, `gpus_per_node` and `memory_per_node` are those of its inner job, whatever its array job is |
| Jobs.NewTaskViews | app/models/job.rb:168-186 | a task answers partition, `valid?` and script path from its array job, and state from its own options |
| TaskRegistry.InvBuckets | lib/flight_scheduler/task_registry.rb:60-74 | under the invariant, a task has been drawn iff it is before the cursor, sits in at most one of pending, running and past, and appears at most once |
| TaskRegistry.Init | lib/flight_scheduler/task_registry.rb:31-36 | corrected: a new registry satisfies the invariant, has no running or past tasks, and the first task, if any, is pending; with no tasks nothing is pending |
| TaskRegistry.InitAsWritten | lib/flight_scheduler/task_registry.rb:31-36 | as written, building the registry of an array job with no tasks raises |
| TaskRegistry.Select | lib/flight_scheduler/task_registry.rb:61-65 | keeps exactly the tasks whose running state matches |
| TaskRegistry.SelectSplits | lib/flight_scheduler/task_registry.rb:61-65 | the kept and dropped tasks together are the original tasks, as a multiset |
| TaskRegistry.Sweep | lib/flight_scheduler/task_registry.rb:60-71 | after the sweep the running tasks are the still-running ones in their order, then the old pending task exactly when it started running; the past tasks are the earlier past tasks, then the stopped running tasks in their order, then the old pending task exactly when it stopped without running; the cursor is untouched |
| TaskRegistry.SweepConserves | lib/flight_scheduler/task_registry.rb:61-65 | the sweep moves tasks from running to past without losing or duplicating any |
| TaskRegistry.Refresh | lib/flight_scheduler/task_registry.rb:60-74 | the running tasks are the still-running ones in their order, then the old pending task when it started running; the past tasks start with the earlier past tasks followed by the stopped running tasks in their order; the cursor stays or advances by one with the next task pending; a still-pending task stays |
| TaskRegistry.RefreshPastOrigins | lib/flight_scheduler/task_registry.rb:60-74 | every task a refresh adds to past was running or was the pending task |
| TaskRegistry.BucketsOfInv | lib/flight_scheduler/task_registry.rb:60-74 | under the invariant, pending, running and past together hold each drawn position exactly once |
| TaskRegistry.SameBuckets | lib/flight_scheduler/task_registry.rb:60-74 | moving tasks between running and past, without loss or duplication, keeps the invariant |
| TaskRegistry.SweepKeepsInv | lib/flight_scheduler/task_registry.rb:60-74 | a refresh that does not advance keeps the invariant |
| TaskRegistry.SweepMovesPending | lib/flight_scheduler/task_registry.rb:66-71 | a pending task that stopped pending joins running or past, so every drawn task stays accounted for |
| TaskRegistry.DrawInto | lib/flight_scheduler/task_registry.rb:66-73 | drawing the next position into the emptied slot of buckets that hold every earlier position keeps the invariant |
| TaskRegistry.ExhaustKeepsInv | lib/flight_scheduler/task_registry.rb:66-73 | clearing the pending slot once every task is drawn keeps the invariant |
| TaskRegistry.RefreshKeepsInv | lib/flight_scheduler/task_registry.rb:60-74 | every refresh keeps the invariant: each task drawn so far is in exactly one of pending, running and past |
| TaskRegistry.PendingTask | lib/flight_scheduler/task_registry.rb:38-41 | `pending_task` refreshes, then answers either the previous pending task or the next undrawn one |
| TaskRegistry.RunningTasks | lib/flight_scheduler/task_registry.rb:43-46 | `running_tasks` refreshes, then answers only running tasks |
| TaskRegistry.PastTasks | lib/flight_scheduler/task_registry.rb:48-51 | `past_tasks` refreshes, then answers an extension of the earlier past tasks |
| TaskRegistry.Limit | lib/flight_scheduler/task_registry.rb:53-56 | `limit?` holds iff at least `min_nodes` tasks run after the refresh, and has no answer when `min_nodes` is not a count |
| TaskRegistry.DrainSteps | lib/flight_scheduler/task_registry.rb:60-81 | with every task completed, k refreshes move the first k tasks to past in order |
| TaskRegistry.DrainOnce | lib/flight_scheduler/task_registry.rb:60-81 | with every task completed, tasks 0 to k - 2 past and task k - 1 pending, one refresh moves task k - 1 to past and leaves task k pending, or nothing once every task is drawn |
| TaskRegistry.DrainAll | lib/flight_scheduler/task_registry.rb:60-81 | with every task completed, refreshing once per task leaves none pending and all of them past |
| TaskRegistry.RefreshAsWritten | lib/flight_scheduler/task_registry.rb:66-81 | as written, advancing past the last task raises after the old pending task was already moved, leaving it in the pending slot |
| TaskRegistry.ExhaustionDuplicatesAsWritten | lib/flight_scheduler/task_registry.rb:60-81 | as written, two queries on a finished one-task array put task 0 in past twice, breaking the invariant |
| TaskRegistry.ExhaustionEmptiesSlot | lib/flight_scheduler/task_registry.rb:66-73 | corrected, the same query leaves task 0 in past once and nothing pending, within the invariant |
| AllocationRegistry.ForNode | lib/flight_scheduler/allocation_registry.rb:87-89 | an unknown node holds no allocations |
| AllocationRegistry.ForJob | lib/flight_scheduler/allocation_registry.rb:83-85 | answers a registered allocation with that job id, and `nil` iff none has it |
| AllocationRegistry.SizeCountsJobs | lib/flight_scheduler/allocation_registry.rb:91-95 | `size` is the number of distinct job ids holding an allocation |
| AllocationRegistry.EachAgreesWithForJob | lib/flight_scheduler/allocation_registry.rb:97-102 | with unique job ids, `each` yields `size` allocations, `for_job` of each one's id finds it, and every `for_job` answer is among them |
| AllocationRegistry.LookupFindsEntry | lib/flight_scheduler/allocation_registry.rb:83-85 | with unique job ids, looking up a registered allocation's id answers that allocation |
| AllocationRegistry.FirstBusy | lib/flight_scheduler/allocation_registry.rb:55-57 | finds the first node, in the allocation's order, that some allocation already holds |
| AllocationRegistry.Vivify | lib/flight_scheduler/allocation_registry.rb:47-57 | reading the node table adds an empty entry for each unknown name read and changes no existing entry |
| AllocationRegistry.VivifyUnobservable | lib/flight_scheduler/allocation_registry.rb:47-57 | the entries reading inserts change no `for_node` answer |
| AllocationRegistry.AppendEachContents | lib/flight_scheduler/allocation_registry.rb:60-62 | each node's list gains one copy of the allocation per occurrence of its name, after its old contents |
| AllocationRegistry.Add | lib/flight_scheduler/allocation_registry.rb:53-65 | a busy node raises a conflict naming the first busy node in order; otherwise a registered job id raises a job conflict; a conflict leaves every observation unchanged; success appends the allocation to the job table and to each of its nodes, touching no other node |
| AllocationRegistry.AddSuccess | lib/flight_scheduler/allocation_registry.rb:53-65 | a successful `add` met free nodes and an unregistered job id, and produced exactly the appended tables |
| AllocationRegistry.AddThenForJob | lib/flight_scheduler/allocation_registry.rb:58-63 | after a successful `add`, `for_job` finds the allocation and answers every other id as before |
| AllocationRegistry.RemoveAll | lib/flight_scheduler/allocation_registry.rb:78 | removes every copy of the allocation and keeps everything else |
| AllocationRegistry.RemoveId | lib/flight_scheduler/allocation_registry.rb:72 | removes the job id's entry and keeps every other entry |
| AllocationRegistry.RemoveFromNodes | lib/flight_scheduler/allocation_registry.rb:76-79 | removes the allocation from each of its nodes the table knows, skips unknown names, and adds no entry |
| AllocationRegistry.Delete | lib/flight_scheduler/allocation_registry.rb:67-81 | afterwards the job id has no allocation, each of the allocation's nodes has lost it, other nodes are untouched, and other jobs' entries remain |
| AllocationRegistry.DeleteFreesNodes | lib/flight_scheduler/allocation_registry.rb:76-79 | no node of a deleted allocation still lists it |
| AllocationRegistry.DeleteKeepsOtherJobs | lib/flight_scheduler/allocation_registry.rb:72 | `delete` leaves `for_job` of every other id unchanged |
| AllocationRegistry.AllocatedFollowsAddAndDelete | app/models/job.rb:145-151 | `allocated?` holds after a successful `add` and fails after `delete` |
| AllocationRegistry.NoDoubleBooking | lib/flight_scheduler/allocation_registry.rb:38-43 | under the invariant, no two registered allocations share a node |
| AllocationRegistry.EmptyInv | lib/flight_scheduler/allocation_registry.rb:47-51 | the empty registry satisfies the invariant |
| AllocationRegistry.AddConflictKeepsInv | lib/flight_scheduler/allocation_registry.rb:53-58 | a refused `add` keeps the invariant |
| AllocationRegistry.AddKeepsUniqueIds | lib/flight_scheduler/allocation_registry.rb:58-63 | registering an unregistered job id keeps job ids unique |
| AllocationRegistry.AddedLists | lib/flight_scheduler/allocation_registry.rb:60-62 | after a successful `add`, each of the allocation's nodes holds only copies of it, and every other node keeps its list |
| AllocationRegistry.AddKeepsInv | lib/flight_scheduler/allocation_registry.rb:53-65 | a successful `add` keeps the invariant: unique job ids, at most one allocation per node, each registered allocation listed under its nodes |
| AllocationRegistry.RemoveIdUnique | lib/flight_scheduler/allocation_registry.rb:72 | removing a job id keeps job ids unique |
| AllocationRegistry.DeleteKeepsInv | lib/flight_scheduler/allocation_registry.rb:67-81 | `delete` keeps the invariant |
| AllocationRegistry.AddThenDelete | lib/flight_scheduler/allocation_registry.rb:53-81 | `add` then `delete` of the same allocation restores every node's list, every job lookup and the job table |
| AllocationRegistry.AllocatedResources | lib/flight_scheduler/allocation_registry.rb:123-128 | a free node has nothing allocated, and a node held once carries that job's CPU requirement (`nil` as 0) |
| AllocationRegistry.MaxParallelPerNode | lib/flight_scheduler/allocation_registry.rb:104-118 | never negative; 0 for a job that fails `valid?` as written; for a job that passes it, the written formula `node.cpus / cpus_per_node - allocated`, floored at 0; on a free node, the number of whole copies of the job's CPU need that fit the node's CPUs |
| AllocationRegistry.MaxParallelByCapacity | lib/flight_scheduler/allocation_registry.rb:115-117 | corrected: the largest count of further instances whose CPU needs fit in the CPUs the node has left |
| AllocationRegistry.FormulaNeverAboveFree | lib/flight_scheduler/allocation_registry.rb:116-117 | for a positive CPU need and non-negative allocated CPUs, the written formula never exceeds the count that actually fits |
| AllocationRegistry.FormulaAgreesWhenFree | lib/flight_scheduler/allocation_registry.rb:116-117 | on a node with nothing allocated, the written formula and the corrected count agree |
| AllocationRegistry.WrittenNeverAboveCapacity | lib/flight_scheduler/allocation_registry.rb:104-118 | `max_parallel_per_node` as written never promises more instances than fit in the free CPUs, is at most the corrected query for jobs valid under the corrected rules, and is 0 for jobs failing `valid?` |
| AllocationRegistry.CapacityMixesUnits | lib/flight_scheduler/allocation_registry.rb:113-117 | on an 8-CPU node holding one 2-CPU job, the written formula allows 2 more 2-CPU instances where 3 fit |
| AllocationRegistry.MixedUnitsOn | lib/flight_scheduler/allocation_registry.rb:113-117 | the same for any 8-CPU node held by one 2-CPU allocation and any valid 2-CPU job: 2 as written, 3 by capacity |
| AllocationRegistry.SignedJobGetsCapacityAsWritten | lib/flight_scheduler/allocation_registry.rb:104-118 | a 2-CPU `JOB` with `min_nodes` "+5" gets 4 on an empty 8-CPU node as written, where the corrected validation refuses it and the corrected query answers 0 |
| JobSteps.NewStep | app/models/job_step.rb:52-55 | a step built without executions has none, and so counts as submitted |
| JobSteps.PtyOnlyOffWhenFalsy | app/models/job_step.rb:57-59 | `pty?` fails only for `nil` and `false` |
| JobSteps.Submitted | app/models/job_step.rb:61-63 | a step is submitted iff every execution has a port |
| JobSteps.AddExecution | app/models/job_step.rb:65-73 | appends one execution on the node, owned by the step, with no port or state and id `<job id>.<step id>.<node name>`; nothing else changes |
| JobSteps.AddExecutionUnsubmits | app/models/job_step.rb:61-73 | a step that just gained an execution is not submitted |
| JobSteps.ExecutionIdInjective | app/models/job_step.rb:67 | when job and step ids contain no `.`, an execution id determines the job id, the step id and the node name |
| JobSteps.DisplayId | app/models/job_step.rb:75-77 | the display id begins with the job's display id, has a `.` right after it, and ends with the step id's text |
| JobSteps.DisplayIdDistinguishesSteps | app/models/job_step.rb:75-77 | within one job, two steps have equal display ids iff their ids are equal |
| JobSteps.FirstOn | app/models/job_step.rb:79-81 | answers the first execution on the named node (every earlier one is on another node), and `nil` iff every execution is on another node |
| JobSteps.ExecutionFor | app/models/job_step.rb:79-81 | the scan answers the first execution on the named node, and `nil` iff there is none |
| JobSteps.FirstOnAfterAppend | app/models/job_step.rb:79-81 | an earlier execution on a node shadows one appended later |
| JobSteps.NoneOnScansAll | app/models/job_step.rb:79-81 | when every execution is on some other node, the scan reads them all and answers `nil` |
| JobSteps.AddedExecutionIsFound | app/models/job_step.rb:65-81 | after `add_execution` on a node the step had no execution on, `execution_for` finds the new execution |
| JobSteps.JobErrors | app/models/job_step.rb:48 | the job rule passes iff the step has a job |
| JobSteps.StepErrorsAsWritten | app/models/job_step.rb:83-87 | as written: validation raises (no answer) iff `envs` is neither a hash, a String nor a Symbol; otherwise the step is valid iff it has a job, a non-blank path and hash `envs`, and a String or Symbol `envs` has its error filed under that symbol |
| JobSteps.StepErrors | app/models/job_step.rb:48-50 | corrected: a step is valid iff it has a job, a non-blank path and hash `envs`; the `envs` error is present iff `envs` is not a hash and is filed under `envs`; errors concern only job, path and `envs` |
| JobSteps.EnvsErrorMisfiled | app/models/job_step.rb:83-87 | with `envs` a String other than "envs", the written rule rejects the step, files the message under that String's symbol and none under `envs`, where the corrected rule files it |
| JobSteps.EnvsErrorMisfiledExample | app/models/job_step.rb:83-87 | a step with job, path "run.sh" and `envs` "PATH=/bin" gets exactly the error on `:"PATH=/bin"` as written, and exactly the error on `envs` corrected |
| JobSteps.UnsetEnvsRaisesAsWritten | app/models/job_step.rb:83-87 | with `envs` unset, the written rule raises, while the corrected rule files "must be a hash" on `envs` |
| JobSteps.CorrectionKeepsVerdict | app/models/job_step.rb:83-87 | where the written rule reaches a verdict, the corrected rule reaches the same one; where the written rule raises, the corrected rule rejects the step |
| JobSteps.ExecutionErrors | app/models/job_step.rb:104-108 | an execution is valid iff it has a step, a node and a known state; a missing state fails both presence and inclusion |
| JobSteps.ValidExecutionHasOneState | app/models/job_step.rb:93-96 | a valid execution answers exactly one of `initializing?`, `running?`, `completed?` and `failed?` |

## Left out

- The read/write lock of the allocation registry and all concurrency. Each public call is modelled as one atomic step.
- File I/O: `write_script`, `read_script` and `cleanup` on jobs, and the job directory setting, which is a parameter of `ScriptPath`.
- The logger call in `max_parallel_per_node`. It is a side effect only.
- `empty?` and `clear` of the allocation registry. They exist only to support tests.
- The range-expression parser and `RangeExpander.split`. Their source is not part of this model; a parsed expression carries the parser's verdict.
- `Job#array_tasks`, `Job#display_id`, `cpus_per_node`, `gpus_per_node` and `memory_per_node`. They are not defined in the modelled files. Task states, the job's display id and the per-node requirements are inputs.
- `Job#task_registry` and `Job#allocation`. These memoise, or reach the application-wide registry; `allocated?` is modelled against an explicit registry.
- Object identity. Ruby compares jobs, tasks and allocations by identity in places (`Array#delete`, `Task#hash`). The model compares them by value, which agrees whenever no two distinct objects hold equal contents.
- Assigning an unknown attribute, which raises in `Job.new`.
- Jobs.NumericalityErrorsAsWritten: reads numbers with the decimal syntax of Ruby's `Float()` only. A fraction with no integer digits, such as ".5", counts as not a number here, whatever `Float()` makes of it. Hexadecimal text counts as not a number in every position. ActiveModel refuses hexadecimal text only at the very start, and `Float()` also accepts it after leading whitespace.
- Blank text covers ASCII whitespace only. Ruby's `blank?` also treats Unicode spaces as blank.
- `File.join` is modelled for two parts, joined by exactly one `/`. Runs of slashes inside a part are kept as written.
- `for_node` and `allocated_resources` insert an empty entry for an unknown name, just as `add` does. `VivifyUnobservable` shows that no lookup can see such an entry, so these two reads are modelled as pure.
- AllocationRegistry.AllocatedResources: the sum of two or more allocations with a `nil` requirement raises in Ruby but is 0-based here. No registry satisfying the invariant holds two allocations on one node.
- AllocationRegistry.AddKeepsInv: requires the allocation's node names to be distinct. The source does not check this, and a repeated node would be listed twice.
- AllocationRegistry.MaxParallelPerNode: requires a positive CPU need for a job that passes `valid?` as written. The source divides by it, so a `nil` or zero need raises `ZeroDivisionError`. A negative need does not raise: Ruby floor-divides (8 / -2 - 0 = -4) and the query answers 0. That case is excluded here too.
- AllocationRegistry.MaxParallelByCapacity: requires the same.
- AllocationRegistry.WrittenNeverAboveCapacity: compares the written query with the corrected one only for jobs valid under the corrected rules. A job valid only as written, such as `min_nodes` "+5", gets the formula from the written query and 0 from the corrected one (`SignedJobGetsCapacityAsWritten`). For such a job the lemma bounds the written answer by the free capacity instead.
- Jobs.PartitionOf, Jobs.ScriptPathOf and Jobs.ValidOf: require a task to have an array job. A task whose `array_job` is `nil` raises `NoMethodError` from `partition`, `valid?` and `script_path`, which are delegated to it.
- Jobs.Validate: requires an `ARRAY_JOB` to hold a range. The source calls `valid?` on it and would raise on `nil`.
- JobSteps.ExecutionFor: requires each execution the scan reads, up to and including the first on the named node, to be on a node. The source calls `name` on each of those nodes and raises on `nil`; executions after the match are not read.
- JobSteps.AddExecution: requires the step to have a job.
- JobSteps.DisplayId: requires the step to have a job. In both cases the source reads the job's id and raises on `nil`.
- JobSteps.CorrectionKeepsVerdict: states the same verdict only for the `envs` values the written rule can file (a hash, a String or a Symbol). For any other value the written rule raises and has no verdict to keep.

## Findings

| source | as written | input that shows it | evidently intended | confidence | as-written member | corrected member |
|---|---|---|---|---|---|---|
| app/models/job_step.rb:83-87 | the `envs` error is added under the value of `envs` | a step with a job and a path whose `envs` is the String "PATH=/bin": the message is filed under `:"PATH=/bin"` and `errors[:envs]` is empty; with `envs` unset, `valid?` raises `NoMethodError` from `nil.to_sym` | the error filed under the `envs` attribute | medium, not executed | JobSteps.StepErrorsAsWritten, JobSteps.EnvsErrorMisfiled, JobSteps.EnvsErrorMisfiledExample, JobSteps.UnsetEnvsRaisesAsWritten | JobSteps.StepErrors, JobSteps.CorrectionKeepsVerdict |
| lib/flight_scheduler/task_registry.rb:66-81 | after the last task is drawn, `task_enum.next` raises `StopIteration` after the old pending task was already moved | a one-task array job whose task completed: two queries both move task 0 to the past tasks, so it is listed twice | the pending slot empties once every task is drawn | high, not executed | TaskRegistry.RefreshAsWritten, TaskRegistry.ExhaustionDuplicatesAsWritten | TaskRegistry.Refresh, TaskRegistry.RefreshKeepsInv |
| lib/flight_scheduler/allocation_registry.rb:116 | an instance count (`node.cpus / cpus_per_node`) minus a sum of allocated CPUs | an 8-CPU node holding one 2-CPU job, asked about a 2-CPU job: 8 / 2 - 2 = 2, yet 6 free CPUs fit 3 | `(node.cpus - allocated) / cpus_per_node`, at least 0 | low, not executed | AllocationRegistry.MaxParallelPerNode, AllocationRegistry.CapacityMixesUnits, AllocationRegistry.FormulaNeverAboveFree | AllocationRegistry.MaxParallelByCapacity |
| app/models/job.rb:72-102 | `min_nodes = "+5"` is no count literal, so it is stored as text, and the numericality rule accepts the signed integer text | a `JOB` with `min_nodes` "+5" and otherwise valid settings passes validation while `min_nodes` still holds the text "+5", not a count; with a 2-CPU need, `max_parallel_per_node` then answers 4 on an empty 8-CPU node | signed or otherwise undecoded text rejected by validation | medium, not executed | Jobs.NumericalityErrorsAsWritten, Jobs.SignedRawPassesAsWritten, Jobs.ValidateAsWritten, Jobs.SignedMinNodesSplitsVerdicts, AllocationRegistry.SignedJobGetsCapacityAsWritten | Jobs.NumericalityErrors, Jobs.Validate |
| lib/flight_scheduler/task_registry.rb:31-36 | `initialize` draws the first task with `task_enum.next`, which raises `StopIteration` when the array job has no tasks | an `ARRAY_JOB` with range "10-1": it validates, yet its range expands to no task, so building its task registry raises | a registry with nothing pending, running or past | low, not executed | TaskRegistry.InitAsWritten, Jobs.InvertedRangeIsAccepted | TaskRegistry.Init |
