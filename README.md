# java-kanban in Dafny

A model of the in-memory task tracker of java-kanban: tasks, epics and
subtasks kept in three id-keyed maps with an id counter, an epic whose status
and times are recomputed from its subtasks, a priority index ordered by start
time that refuses overlapping items, and a history of viewed items. The
repository holds three generations of the tracker, and all three are modelled:

- the current one (`ru.yandex.practicum.task.managers`, `tasks`, `utils`):
  `InMemoryTaskManager` with copies, the `TreeSet` priority index, time
  intersection checks, `NotFoundException`/`TimeIntersectedException`, and
  the doubly linked `InMemoryHistoryManager`;
- the earlier `ru.yandex.practicum.task` package: `TaskManager`,
  `InMemoryTaskManager` (the same plus a ten-entry history) and its `Epic`
  with a list of subtask ids;
- the oldest `ru.yandex.practicum` package: `TaskManager` and an `Epic`
  holding its subtasks.

Layout:

- `wrappers.dfy`: `Option`, `Result` and the failures the code can raise
  (`NotFoundException`, `TimeIntersectedException`, `NullPointerException`).
- `seqs.dfy`: `List.remove(Object)`, `HashMap.get`, `values()` and a
  sequence of removals, as functions with their properties.
- `task_status.dfy`: the status enumeration and the epic status loop shared
  by all three `Epic` classes, proved equal to the rule it implements.
- `tasks.dfy`, `epic_state.dfy`, `task_object.dfy`: the current item classes
  as values, the epic recomputation (`calculateState`) as a function with
  its properties, and the mutable Java object as a class whose methods are
  proved against those functions.
- `task_manager_util.dfy`, `task_format.dfy`: `getCopyTask`,
  `isTimeIntersected` and `toString`.
- `priority_index.dfy`: the `TreeSet` ordered by start time, including what
  its comparator makes `add`, `remove` and `removeAll` do.
- `history_manager.dfy`: the linked-list history manager as a class over
  nodes, proved against a sequence specification.
- `task_store.dfy`, `task_store_facts.dfy`, `in_memory_task_manager.dfy`:
  the current manager as functions on a store value, the properties of each
  operation, and the manager class whose methods are proved equal to them.
- `legacy_epic.dfy`, `legacy_history.dfy`, `legacy_store.dfy`,
  `legacy_managers.dfy`: the earlier package, in the same layering.
- `oldest.dfy`: the oldest package.

Times are whole minutes on one line and durations whole minutes; a `null`
reference is `None`, and an exception is a `Failure` value returned with the
state the Java leaves behind when it throws.

## Model

| member | source | states |
|---|---|---|
| Seqs.RemoveFirstCutsFirstOccurrence | src/ru/yandex/practicum/task/tasks/Epic.java:30-32 | `List.remove(Object)` leaves a list without `x` untouched and otherwise cuts out exactly the first occurrence, the rest in order |
| Seqs.RemoveFirstDistinct | src/ru/yandex/practicum/task/tasks/Epic.java:30-32 | on a duplicate-free list the removal takes `x` out entirely and keeps the list duplicate-free |
| Seqs.SortedIds | src/ru/yandex/practicum/task/managers/InMemoryTaskManager.java:122-124 | the map's keys listed once each, ascending (the iteration order the model gives a `HashMap`) |
| Seqs.ValuesSpec | src/ru/yandex/practicum/task/managers/InMemoryTaskManager.java:122-124 | `new ArrayList<>(map.values())` lists every stored value and nothing else |
| Seqs.Find | src/ru/yandex/practicum/task/managers/InMemoryTaskManager.java:138 | `HashMap.get` is the stored value for a present key and `null` (None) otherwise |
| Seqs.RemoveKeysSpec | src/ru/yandex/practicum/task/TaskManager.java:98-100 | removing each listed key in turn removes exactly those keys and keeps every other entry and value |
| TaskStatuses.StatusBySubtasks | src/ru/yandex/practicum/task/tasks/Epic.java:74-91 | `getStatusBySubtasks`: NEW for no subtasks, else the loop's result, None where it reaches a null; matches `Rule` over existing subtasks (StatusMatchesRule) |
| TaskStatuses.Rule | src/ru/yandex/practicum/task/tasks/Epic.java:74-91 | the rule the loop implements: NEW for none, IN_PROGRESS if any is, DONE if all are, otherwise NEW (StatusMatchesRule, NewAndDoneGiveNew) |
| TaskStatuses.StatusMatchesRule | src/ru/yandex/practicum/task/tasks/Epic.java:74-91 | over subtasks that all exist the loop yields the rule: none gives NEW, any IN_PROGRESS gives IN_PROGRESS, all DONE gives DONE, any other mix gives NEW |
| TaskStatuses.NewAndDoneGiveNew | src/ru/yandex/practicum/task/tasks/Epic.java:79-90 | a mix of NEW and DONE without IN_PROGRESS yields NEW, not IN_PROGRESS |
| TaskStatuses.ScanFailsAtNull | src/ru/yandex/practicum/task/tasks/Epic.java:81-88 | the loop throws exactly when a null element comes before the first IN_PROGRESS subtask |
| TaskStatuses.GetStatusBySubtasks | src/ru/yandex/practicum/task/tasks/Epic.java:74-91 | the `for` loop with its early return computes the status function, which follows the rule |
| Tasks.KindOf | src/ru/yandex/practicum/task/tasks/Epic.java:50-54 | the type tag is EPIC exactly for an epic and SUBTASK exactly for a subtask |
| Tasks.WithId | src/ru/yandex/practicum/task/tasks/Task.java:37-39 | `setId` changes the id and keeps every other field and the class |
| Tasks.Equal | src/ru/yandex/practicum/task/tasks/Task.java:85-92 | `equals`: same class and same id; an equivalence that ignores every other field (EqualIgnoresContents, EqualIsEquivalence) |
| Tasks.HashCode | src/ru/yandex/practicum/task/tasks/Task.java:94-97 | `hashCode`: the id, so equal items hash alike (EqualIsEquivalence) |
| Tasks.EqualIgnoresContents | src/ru/yandex/practicum/task/tasks/Task.java:85-92 | `equals` holds between items of one class and one id whatever their names, statuses or times |
| Tasks.EqualIsEquivalence | src/ru/yandex/practicum/task/tasks/Task.java:85-97 | `equals` is reflexive, symmetric and transitive, and equal items have equal `hashCode` |
| Tasks.GetEndTime | src/ru/yandex/practicum/task/tasks/Task.java:81-83 | a task's end is start plus duration and fails on a null start; an epic's end is its stored field |
| EpicState.AddSubtaskIdKeepsDistinct | src/ru/yandex/practicum/task/tasks/Epic.java:24-28 | `addSubtaskId` keeps the list duplicate-free, keeps its order and makes the id present |
| EpicState.RemoveSubtaskIdKeepsDistinct | src/ru/yandex/practicum/task/tasks/Epic.java:30-32 | `removeSubtaskId` keeps the list duplicate-free and takes out exactly that id |
| EpicState.TotalDurationCoversEach | src/ru/yandex/practicum/task/tasks/Epic.java:57-59 | the summed duration is at least each subtask's duration |
| EpicState.StartsSpec | src/ru/yandex/practicum/task/tasks/Epic.java:60-63 | start times are collected, in list order, exactly when none is null |
| EpicState.Earliest | src/ru/yandex/practicum/task/tasks/Epic.java:60-63 | the minimum start is one of the starts and no later than any of them |
| EpicState.Latest | src/ru/yandex/practicum/task/tasks/Epic.java:64-67 | the maximum is one of the values and no earlier than any of them |
| EpicState.CalculateState | src/ru/yandex/practicum/task/tasks/Epic.java:34-37 | `calculateState`: status, then duration, start and end; a null subtask or start throws with the earlier fields set; its results are stated by CalculateStateFrame, CalculateStateOfItems, CalculateStateTimes, CalculateStateFollows and UnscheduledSubtaskFails |
| EpicState.CalculateStateFrame | src/ru/yandex/practicum/task/tasks/Epic.java:34-37 | `calculateState` changes only status and time fields; with no subtasks the epic is NEW, unscheduled, zero length, with no end |
| EpicState.CalculateStateOfItems | src/ru/yandex/practicum/task/tasks/Epic.java:56-72 | over existing subtasks status and duration always follow the status rule and the sum of durations |
| EpicState.CalculateStateTimes | src/ru/yandex/practicum/task/tasks/Epic.java:56-68 | over scheduled subtasks the start is the earliest start and the end the latest start plus the total duration |
| EpicState.CalculateStateFollows | src/ru/yandex/practicum/task/tasks/Epic.java:34-68 | a recomputation over existing subtasks that does not throw sets the status rule, the total duration, and the earliest start and latest start plus total, or no start and end for none |
| EpicState.CalculateStateOfScheduled | src/ru/yandex/practicum/task/tasks/Epic.java:34-37 | over scheduled subtasks the whole state: rule status, total duration, earliest start, latest start plus total |
| EpicState.EpicEndCoversEverySubtask | src/ru/yandex/practicum/task/tasks/Epic.java:64-67 | the stored end is never before any subtask's own end |
| EpicState.CalculateStateOfTwo | src/ru/yandex/practicum/task/tasks/Epic.java:56-68 | the recomputation over two scheduled subtasks written out field by field |
| EpicState.EpicEndIsNotLatestSubtaskEnd | src/ru/yandex/practicum/task/tasks/Epic.java:64-67 | subtasks 0-10 and 100-110 give an epic end of 120, not the latest subtask end 110 |
| EpicState.TwoSubtaskTimeState | test/ru/yandex/practicum/task/managers/AbstractTaskManagerTest.java:329-361 | the epic time test: start 21:30, 90 minutes, end 22:30 plus 90 minutes, status NEW |
| EpicState.UnscheduledSubtaskFails | src/ru/yandex/practicum/task/tasks/Epic.java:56-68 | an unscheduled subtask makes the recomputation throw after status and duration were stored |
| TaskObjects.TaskObject.Scheduled | src/ru/yandex/practicum/task/tasks/Task.java:18-24 | the five-argument constructor sets the given fields, id 0, start and duration in minutes |
| TaskObjects.TaskObject.Unscheduled | src/ru/yandex/practicum/task/tasks/Task.java:26-31 | the three-argument constructor: no start, zero duration |
| TaskObjects.TaskObject.SubtaskOf | src/ru/yandex/practicum/task/tasks/Subtask.java:11-14 | the subtask constructor: the task fields plus the final epic id |
| TaskObjects.TaskObject.EpicOf | src/ru/yandex/practicum/task/tasks/Epic.java:16-18 | the epic constructor: the three-argument task fields and an empty id list |
| TaskObjects.TaskObject.SetId | src/ru/yandex/practicum/task/tasks/Task.java:37-39 | the id changes and nothing else |
| TaskObjects.TaskObject.SetName | src/ru/yandex/practicum/task/tasks/Task.java:45-47 | the name changes and nothing else |
| TaskObjects.TaskObject.SetDescription | src/ru/yandex/practicum/task/tasks/Task.java:53-55 | the description changes and nothing else |
| TaskObjects.TaskObject.SetStatus | src/ru/yandex/practicum/task/tasks/Epic.java:39-42 | a task or subtask takes the status; an epic ignores it and nothing changes |
| TaskObjects.TaskObject.SetStartTime | src/ru/yandex/practicum/task/tasks/Task.java:69-71 | the start changes and nothing else |
| TaskObjects.TaskObject.SetDuration | src/ru/yandex/practicum/task/tasks/Task.java:77-79 | the duration changes and nothing else |
| TaskObjects.TaskObject.AddSubtaskId | src/ru/yandex/practicum/task/tasks/Epic.java:24-28 | the id list becomes `addSubtaskId` of the old one, so it stays duplicate-free |
| TaskObjects.TaskObject.RemoveSubtaskId | src/ru/yandex/practicum/task/tasks/Epic.java:30-32 | the id list loses the first occurrence of the id |
| TaskObjects.TaskObject.CalculateState | src/ru/yandex/practicum/task/tasks/Epic.java:34-37 | the object's new fields are `calculateState` of its old value, including the partial state a throw leaves |
| TaskObjects.Recalculated | src/ru/yandex/practicum/task/tasks/Epic.java:34-72 | the four stream loops together compute `calculateState` |
| TaskObjects.TimesOf | src/ru/yandex/practicum/task/tasks/Epic.java:60-67 | the start and end loops compute the earliest start and latest start plus total, or fail on a null start |
| TaskObjects.SumDurations | src/ru/yandex/practicum/task/tasks/Epic.java:57-59 | the duration loop computes the sum of durations, failing on a null element |
| TaskObjects.MinStart | src/ru/yandex/practicum/task/tasks/Epic.java:60-63 | the start loop computes the earliest start, failing on a null start |
| TaskObjects.MaxEnd | src/ru/yandex/practicum/task/tasks/Epic.java:64-67 | the end loop computes the latest start plus the epic's whole duration |
| TaskManagerUtil.GetCopyTask | src/ru/yandex/practicum/task/utils/TaskManagerUtil.java:14-32 | the copy has the same class and id; an epic copy keeps name, description and status and has no ids and no times |
| TaskManagerUtil.CopyIsIdempotent | src/ru/yandex/practicum/task/utils/TaskManagerUtil.java:14-32 | copying a copy gives the copy again |
| TaskManagerUtil.IsIntersectedByTime | src/ru/yandex/practicum/task/utils/TaskManagerUtil.java:43-54 | a null start on either side throws (the ends are computed first); otherwise the half-open windows are tested |
| TaskManagerUtil.IntersectionSharesAMinute | src/ru/yandex/practicum/task/utils/TaskManagerUtil.java:43-54 | for positive lengths the test holds exactly when some minute lies in both windows, and it is symmetric |
| TaskManagerUtil.TouchingWindowsDoNotIntersect | src/ru/yandex/practicum/task/utils/TaskManagerUtil.java:53 | a window ending where another starts does not intersect it |
| TaskManagerUtil.IsTimeIntersected | src/ru/yandex/practicum/task/utils/TaskManagerUtil.java:34-41 | `isTimeIntersected`: true exactly when some element not equal to the candidate overlaps it, failing when a tested pair lacks a start (TimeIntersectedIffSomeOtherOverlaps, UnscheduledCandidateFails, OnlyEqualsGiveFalse) |
| TaskManagerUtil.TimeIntersectedIffSomeOtherOverlaps | src/ru/yandex/practicum/task/utils/TaskManagerUtil.java:34-41 | with all starts present, the result is whether some element not equal to the candidate intersects it |
| TaskManagerUtil.UnscheduledCandidateFails | src/ru/yandex/practicum/task/utils/TaskManagerUtil.java:43-50 | an unscheduled candidate throws as soon as one element is compared with it |
| TaskManagerUtil.OnlyEqualsGiveFalse | src/ru/yandex/practicum/task/utils/TaskManagerUtil.java:34-41 | a collection holding only the candidate's equals gives false without any comparison |
| TaskManagerUtil.TestScenarios | test/ru/yandex/practicum/task/utils/TaskManagerUtilTest.java:18-65 | 22:15 for 5 minutes meets 22:00 for 20; 22:20 for 10 meets nothing |
| TaskFormat.ToString | src/ru/yandex/practicum/task/tasks/Task.java:99-104 | `toString` of a task, subtask or epic: its class name and fields joined by commas, each field readable back (ToStringFields, FieldsRead) |
| TaskFormat.IntRoundTrip | src/ru/yandex/practicum/task/tasks/Task.java:99-104 | `%d` of an integer reads back as that integer |
| TaskFormat.SplitJoin | src/ru/yandex/practicum/task/tasks/Task.java:99-104 | splitting comma-joined comma-free fields gives the fields back |
| TaskFormat.ToStringFields | src/ru/yandex/practicum/task/tasks/Task.java:99-104 | a line splits back into seven fields (eight for a subtask) holding id, type, name, status, description, start, minutes |
| TaskFormat.FieldsRead | src/ru/yandex/practicum/task/tasks/Subtask.java:20-25 | each field of the line holds the item's value, a subtask's epic id last |
| PriorityIndex.Add | src/ru/yandex/practicum/task/managers/InMemoryTaskManager.java:19 | the tree's `add`: a no-op when an entry has the item's start, else the item goes before the first later start (AddSpec, AddAscending) |
| PriorityIndex.AddSpec | src/ru/yandex/practicum/task/managers/InMemoryTaskManager.java:19 | on an ordered index an entry with the item's start makes `add` a no-op; otherwise exactly the item is inserted |
| PriorityIndex.AddAscending | src/ru/yandex/practicum/task/managers/InMemoryTaskManager.java:19 | adding keeps the index in strictly ascending start order |
| PriorityIndex.AddOrdersByStart | test/ru/yandex/practicum/task/managers/AbstractTaskManagerTest.java:459-485 | items at 22:00, 21:10, 22:10, 21:00 iterate as 21:00, 21:10, 22:00, 22:10 |
| PriorityIndex.FilterSpec | src/ru/yandex/practicum/task/managers/InMemoryTaskManager.java:186 | `removeIf` keeps exactly the entries that pass, in order |
| PriorityIndex.RemoveIdSpec | src/ru/yandex/practicum/task/managers/InMemoryTaskManager.java:186 | removing by id leaves no entry with the id and keeps every other entry in order |
| PriorityIndex.Remove | src/ru/yandex/practicum/task/managers/InMemoryTaskManager.java:256 | the tree's `remove`: an empty tree is unchanged, an unscheduled item throws, otherwise entries with the item's start go (RemoveSpec) |
| PriorityIndex.RemoveSpec | src/ru/yandex/practicum/task/managers/InMemoryTaskManager.java:256 | `remove` throws exactly for an unscheduled item on a non-empty tree; else it drops the entry with that start and keeps the rest in order |
| PriorityIndex.RemoveEach | src/ru/yandex/practicum/task/managers/InMemoryTaskManager.java:168 | `removeAll`'s comparator branch: `remove` of each element in turn, stopping at the first failure (RemoveEachSpec, RemoveEachDrops) |
| PriorityIndex.RemoveEachSpec | src/ru/yandex/practicum/task/managers/InMemoryTaskManager.java:168 | comparator removal of each element keeps the index well-formed and ordered even when it stops midway; when every element has a start it never fails and drops exactly the entries sharing a start with one of them |
| PriorityIndex.RemoveEachDrops | src/ru/yandex/practicum/task/managers/InMemoryTaskManager.java:168 | with every start present, the removals leave exactly the entries whose start no element of `c` has |
| PriorityIndex.RemoveAll | src/ru/yandex/practicum/task/managers/InMemoryTaskManager.java:168 | `AbstractSet.removeAll`: the comparator branch when the set is larger than `c`, else the iterator drops entries `c` contains by `equals` (RemoveAllSpec) |
| PriorityIndex.RemoveAllSpec | src/ru/yandex/practicum/task/managers/InMemoryTaskManager.java:168 | `removeAll` never adds, keeps the index ordered, and fails only on the comparator path with an unscheduled element; the iterator path drops exactly the entries `c` contains, the comparator path with all starts present exactly those sharing a start with `c` |
| PriorityIndex.Refresh | src/ru/yandex/practicum/task/managers/InMemoryTaskManager.java:258-266 | the stream rewrites in place the entries equal to the task and keeps the others |
| PriorityIndex.UpdateOrRemove | src/ru/yandex/practicum/task/managers/InMemoryTaskManager.java:254-268 | `updateOrRemovePrioritizedTask`: an unscheduled item is removed by start, otherwise entries equal to it take its fields in place (UpdateOrRemoveSpec, UpdateBreaksOrder) |
| PriorityIndex.UpdateOrRemoveSpec | src/ru/yandex/practicum/task/managers/InMemoryTaskManager.java:254-268 | the update keeps each entry's id and class, changes only entries equal to the item and never inserts |
| PriorityIndex.UpdateBreaksOrder | src/ru/yandex/practicum/task/managers/InMemoryTaskManager.java:258-266 | rewriting a start time in place can leave the tree out of order or with two entries at one start |
| HistoryManagers.Without | src/ru/yandex/practicum/task/managers/InMemoryHistoryManager.java:44-49 | `remove(id)` on the history as a list: the entries with the id go, the rest keep their order (WithoutSpec) |
| HistoryManagers.WithoutSpec | src/ru/yandex/practicum/task/managers/InMemoryHistoryManager.java:44-49 | with unique ids, removal takes out exactly the entry with the id and keeps the others unique and in order: the result is the history with that one position cut out, or the history itself when the id is absent |
| HistoryManagers.Record | src/ru/yandex/practicum/task/managers/InMemoryHistoryManager.java:30-37 | `add`: the entry with the task's id goes and the task is appended last (RecordSpec) |
| HistoryManagers.RecordSpec | src/ru/yandex/practicum/task/managers/InMemoryHistoryManager.java:30-37 | `add` puts the task last, keeps one entry per id, grows only for a new id and keeps the others in order |
| HistoryManagers.HistoryScenarios | test/ru/yandex/practicum/task/managers/InMemoryHistoryManagerTest.java:23-79 | three items give three entries; a repeat keeps one entry with the newer payload; removing the only item empties the history |
| HistoryManagers.Node.constructor | src/ru/yandex/practicum/task/managers/InMemoryHistoryManager.java:132-136 | a node holds the task and the given links |
| HistoryManagers.HistoryManager.constructor | src/ru/yandex/practicum/task/managers/InMemoryHistoryManager.java:18-20 | an empty list and an empty map |
| HistoryManagers.HistoryManager.ValidIds | src/ru/yandex/practicum/task/managers/InMemoryHistoryManager.java:18-20 | a valid manager holds one entry per id, its map keys are those ids, and `first`/`last` are null exactly when it is empty |
| HistoryManagers.HistoryManager.LinkLast | src/ru/yandex/practicum/task/managers/InMemoryHistoryManager.java:80-92 | a fresh node holding the task is linked after the old last one |
| HistoryManagers.HistoryManager.RemoveNode | src/ru/yandex/practicum/task/managers/InMemoryHistoryManager.java:98-117 | the node is cut out of the list, its neighbours joined, its links and payload cleared |
| HistoryManagers.HistoryManager.Unlink | src/ru/yandex/practicum/task/managers/InMemoryHistoryManager.java:98-117 | the pointer work of `removeNode` over list position `k` |
| HistoryManagers.HistoryManager.UnlinkId | src/ru/yandex/practicum/task/managers/InMemoryHistoryManager.java:31-34 | the entry with the id, if any, leaves the list |
| HistoryManagers.HistoryManager.PutLast | src/ru/yandex/practicum/task/managers/InMemoryHistoryManager.java:36 | the map sends the new id to the last node and the manager is valid again |
| HistoryManagers.HistoryManager.Add | src/ru/yandex/practicum/task/managers/InMemoryHistoryManager.java:30-37 | the history becomes `Record` of the old one (see RecordSpec) and the manager stays valid |
| HistoryManagers.HistoryManager.Remove | src/ru/yandex/practicum/task/managers/InMemoryHistoryManager.java:44-49 | the history becomes `Without` the id (see WithoutSpec) and the manager stays valid |
| HistoryManagers.HistoryManager.GetHistory | src/ru/yandex/practicum/task/managers/InMemoryHistoryManager.java:56-73 | the walk from `first` returns the tasks oldest first |
| TaskStore.Empty | src/ru/yandex/practicum/task/managers/InMemoryTaskManager.java:16-21 | a new manager has empty maps, index and history and counter 0 |
| TaskStore.SubtasksByIds | src/ru/yandex/practicum/task/managers/InMemoryTaskManager.java:248-252 | one element per listed id, the stored subtask or null |
| TaskStore.CheckTime | src/ru/yandex/practicum/task/managers/InMemoryTaskManager.java:270-272 | `isTimeIntersected(task)` over the index, with `TimeIntersectedException` for an overlap (CheckTimeSpec) |
| TaskStore.CheckTimeSpec | src/ru/yandex/practicum/task/managers/InMemoryTaskManager.java:270-272 | a write is refused with `TimeIntersectedException` exactly when some other index entry overlaps the item |
| TaskStore.Schedule | src/ru/yandex/practicum/task/managers/InMemoryTaskManager.java:33-35 | `prioritizedTasks.add` for an item with a start; one without is not indexed (ScheduleSpec) |
| TaskStore.ScheduleSpec | src/ru/yandex/practicum/task/managers/InMemoryTaskManager.java:33-35 | indexing a timed item keeps the index well-formed and ordered |
| TaskStoreFacts.EmptyIsValid | src/ru/yandex/practicum/task/managers/InMemoryTaskManager.java:16-21 | a new manager keeps the invariant and holds no ids |
| TaskStore.CreateTask | src/ru/yandex/practicum/task/managers/InMemoryTaskManager.java:24-38 | `createTask`: refuse an overlap, else take the next id, store a copy and index it if timed (CreateTaskSpec) |
| TaskStore.CreateEpic | src/ru/yandex/practicum/task/managers/InMemoryTaskManager.java:41-46 | `createEpic`: take the next id and store a copy with no subtask ids (CreateEpicSpec) |
| TaskStore.CreateSubtask | src/ru/yandex/practicum/task/managers/InMemoryTaskManager.java:49-67 | `createSubtask`: refuse an overlap, else store and index a copy under the next id, list it in its epic and recompute the epic (CreateSubtaskSpec) |
| TaskStore.UpdateTask | src/ru/yandex/practicum/task/managers/InMemoryTaskManager.java:70-80 | `updateTask`: refuse an overlap, update or remove the index entry, then store a copy under the item's id (UpdateTaskSpec) |
| TaskStore.UpdateEpic | src/ru/yandex/practicum/task/managers/InMemoryTaskManager.java:83-100 | `updateEpic`: collect the subtasks naming the epic into a fresh copy and the caller's object, recompute both and store the copy (UpdateEpicFrame, UpdateEpicDerives, UpdateEpicCaller) |
| TaskStore.PutRecalculated | src/ru/yandex/practicum/task/managers/InMemoryTaskManager.java:93-99 | the end of `updateEpic`: recompute both epic objects and store one, aborting on the first throw (PutRecalculatedFrame) |
| TaskStore.UpdateSubtask | src/ru/yandex/practicum/task/managers/InMemoryTaskManager.java:103-119 | `updateSubtask`: refuse an overlap, return null without the epic, else update the index, store a copy and recompute the epic (UpdateSubtaskSpec) |
| TaskStore.Get | src/ru/yandex/practicum/task/managers/InMemoryTaskManager.java:137-164 | `getTask`, `getEpic`, `getSubtask`: `NotFoundException` for an absent id, else the item, recorded in the history (GetSpec) |
| TaskStore.DeleteAllTasks | src/ru/yandex/practicum/task/managers/InMemoryTaskManager.java:167-170 | `deleteAllTasks`: `removeAll` of the tasks from the index, then clear the map (DeleteAllTasksSpec) |
| TaskStore.DeleteAllEpics | src/ru/yandex/practicum/task/managers/InMemoryTaskManager.java:173-176 | `deleteAllEpics`: all subtasks first, then the epics (DeleteAllEpicsSpec) |
| TaskStore.DeleteAllSubtasks | src/ru/yandex/practicum/task/managers/InMemoryTaskManager.java:179-182 | `deleteAllSubtasks`: `removeAll` of the subtasks from the index, then clear the map (DeleteAllSubtasksSpec) |
| TaskStore.DeleteTask | src/ru/yandex/practicum/task/managers/InMemoryTaskManager.java:185-195 | `deleteTask`: drop the index and history entries with the id, then the task, `NotFoundException` when absent (DeleteTaskSpec) |
| TaskStore.DropSubtask | src/ru/yandex/practicum/task/managers/InMemoryTaskManager.java:204-206 | one step of the epic cascade: the subtask leaves the index, the history and the map (DropSubtaskSpec) |
| TaskStore.DropSubtasks | src/ru/yandex/practicum/task/managers/InMemoryTaskManager.java:203-207 | the cascade over the epic's list in order (DropSubtasksSpec) |
| TaskStore.DeleteEpic | src/ru/yandex/practicum/task/managers/InMemoryTaskManager.java:198-213 | `deleteEpic`: remove the epic and its history entry, then its listed subtasks (DeleteEpicSpec) |
| TaskStore.DeleteSubtask | src/ru/yandex/practicum/task/managers/InMemoryTaskManager.java:216-235 | `deleteSubtask`: remove the subtask everywhere, take it off its epic, delete an emptied epic or recompute it (DeleteSubtaskSpec) |
| TaskStoreFacts.CreateTaskSpec | src/ru/yandex/practicum/task/managers/InMemoryTaskManager.java:24-38 | a refused write changes nothing; else id `lastTaskId + 1`, a stored copy, the caller's item returned, other maps and history untouched |
| TaskStoreFacts.CreateEpicSpec | src/ru/yandex/practicum/task/managers/InMemoryTaskManager.java:41-46 | next id; the stored copy has the caller's name, description and status, no subtasks, no times |
| TaskStoreFacts.CreateSubtaskSpec | src/ru/yandex/practicum/task/managers/InMemoryTaskManager.java:49-67 | refused writes change nothing; else the subtask is stored and indexed, then a missing epic is a null pointer with the subtask kept, or the epic lists the id and on success holds the status rule, total duration, earliest start and latest start plus total of its listed subtasks (`Recomputed`) |
| TaskStoreFacts.UpdateTaskSpec | src/ru/yandex/practicum/task/managers/InMemoryTaskManager.java:70-80 | a failure changes nothing; an unscheduled item on a non-empty index fails; success stores a copy and only shrinks or rewrites the index |
| TaskStoreFacts.UpdateTaskBreaksOrder | src/ru/yandex/practicum/task/managers/InMemoryTaskManager.java:74 | an accepted update on an ordered store can leave the index out of order |
| TaskStoreFacts.UpdateTaskStoresUnknownId | src/ru/yandex/practicum/task/managers/InMemoryTaskManager.java:70-80 | an update stores an id the counter never issued |
| TaskStoreFacts.ChildIdsSpec | src/ru/yandex/practicum/task/managers/InMemoryTaskManager.java:86-91 | the filter keeps exactly the ids whose subtask names the epic, without repeats |
| TaskStoreFacts.ChildrenSpec | src/ru/yandex/practicum/task/managers/InMemoryTaskManager.java:86-91 | the collected ids are exactly the stored subtasks naming the epic, each once, ascending |
| TaskStoreFacts.UpdateEpicUnfolds | src/ru/yandex/practicum/task/managers/InMemoryTaskManager.java:83-100 | `updateEpic` is the put of the recomputed copy listing the children and the recomputed caller |
| TaskStoreFacts.UpdateEpicFrame | src/ru/yandex/practicum/task/managers/InMemoryTaskManager.java:83-100 | only the epic map changes; success stores the epic under its id with exactly the subtasks naming it |
| TaskStoreFacts.PutRecalculatedFrame | src/ru/yandex/practicum/task/managers/InMemoryTaskManager.java:93-97 | the final put keeps the invariant and changes only the epic map |
| TaskStoreFacts.RecalculatedFollows | src/ru/yandex/practicum/task/managers/InMemoryTaskManager.java:64 | a recomputation over `getSubtasksByEpic` that does not throw leaves every listed id stored and the epic in the state `calculateState` derives from them |
| TaskStoreFacts.UpdateEpicDerives | src/ru/yandex/practicum/task/managers/InMemoryTaskManager.java:93-95 | on success the stored epic's status and duration follow from the subtasks naming it, and so do its start and end: the whole derived state (`Recomputed`) |
| TaskStoreFacts.UpdateEpicCaller | src/ru/yandex/practicum/task/managers/InMemoryTaskManager.java:86-99 | the caller's epic object gains the ids of the subtasks naming it |
| TaskStoreFacts.UpdateSubtaskSpec | src/ru/yandex/practicum/task/managers/InMemoryTaskManager.java:103-119 | refused or epic-less updates change nothing (the latter returning null); else the copy replaces the stored subtask, the epic keeps its key and list, and on success it holds the status, duration, start and end its listed subtasks give (`Recomputed`) |
| TaskStoreFacts.UpdateSubtaskKeepsInv | src/ru/yandex/practicum/task/managers/InMemoryTaskManager.java:103-119 | `updateSubtask` keeps every item under its own id, epics listing distinct ids, and the index and history well-formed |
| TaskStoreFacts.UpdateSubtaskRecomputes | src/ru/yandex/practicum/task/managers/InMemoryTaskManager.java:113-118 | a successful `updateSubtask` leaves the epic holding the status, duration, start and end its listed, stored subtasks give |
| TaskStoreFacts.GetSpec | src/ru/yandex/practicum/task/managers/InMemoryTaskManager.java:137-164 | a lookup fails with `NotFoundException` exactly when the id is absent; a hit returns the item and moves it to the end of the history |
| TaskStoreFacts.GetKeepsInv | src/ru/yandex/practicum/task/managers/InMemoryTaskManager.java:137-164 | lookups keep the invariant and the index order |
| TaskStoreFacts.RemoveValues | src/ru/yandex/practicum/task/managers/InMemoryTaskManager.java:168 | removing stored values from the index keeps it well-formed and ordered and adds nothing |
| TaskStoreFacts.DeleteAllTasksSpec | src/ru/yandex/practicum/task/managers/InMemoryTaskManager.java:167-170 | history and other maps untouched; success empties the task map; a failure leaves it as it was |
| TaskStoreFacts.DeleteAllSubtasksSpec | src/ru/yandex/practicum/task/managers/InMemoryTaskManager.java:179-182 | as for tasks, for the subtask map; epics keep their id lists |
| TaskStoreFacts.DeleteAllEpicsSpec | src/ru/yandex/practicum/task/managers/InMemoryTaskManager.java:173-176 | success empties both the epic and subtask maps; tasks and history untouched |
| TaskStoreFacts.DeleteTaskSpec | src/ru/yandex/practicum/task/managers/InMemoryTaskManager.java:185-195 | no index or history entry and no task keeps the id, others stay; an absent id throws after the index and history removals |
| TaskStoreFacts.DropSubtaskSpec | src/ru/yandex/practicum/task/managers/InMemoryTaskManager.java:204-206 | one cascade step drops the id from index, history and subtask map and keeps the invariant |
| TaskStoreFacts.DropSubtasksSpec | src/ru/yandex/practicum/task/managers/InMemoryTaskManager.java:203-207 | the cascade drops every listed id from index, history and subtask map and nothing else |
| TaskStoreFacts.DropSubtasksKeeps | src/ru/yandex/practicum/task/managers/InMemoryTaskManager.java:203-207 | the cascade keeps the invariant, the order, tasks, epics and the counter |
| TaskStoreFacts.DropSubtasksDrops | src/ru/yandex/practicum/task/managers/InMemoryTaskManager.java:203-207 | the cascade removes exactly the listed ids from the map, the index and the history |
| TaskStoreFacts.DeleteEpicSpec | src/ru/yandex/practicum/task/managers/InMemoryTaskManager.java:198-213 | an absent id throws `NotFoundException` with nothing changed; else the epic and each listed subtask leave every structure |
| TaskStoreFacts.DeleteSubtaskSpec | src/ru/yandex/practicum/task/managers/InMemoryTaskManager.java:216-235 | absent id throws with nothing changed; else the subtask leaves map, index, history; a missing epic is a null pointer; an emptied epic is deleted, an epic left with ids keeps its key with the shorter list, every other epic stays as it was, and on success the epic holds the status, duration, start and end its remaining subtasks give (`Recomputed`) |
| TaskStoreFacts.DeleteSubtaskEmptiesParent | src/ru/yandex/practicum/task/managers/InMemoryTaskManager.java:222-226 | an epic left with no ids is deleted and its history entry goes with the subtask's; the removed subtask is returned |
| TaskStoreFacts.DeleteSubtaskKeepsParent | src/ru/yandex/practicum/task/managers/InMemoryTaskManager.java:222-228 | an epic left with ids keeps its key with the shorter list, no other epic changes, and on success it holds the state its remaining subtasks give (`Recomputed`) |
| InMemoryTaskManagers.InMemoryTaskManager.constructor | src/ru/yandex/practicum/task/managers/InMemoryTaskManager.java:16-21 | the new manager is the empty store |
| InMemoryTaskManagers.InMemoryTaskManager.CheckTimeOf | src/ru/yandex/practicum/task/managers/InMemoryTaskManager.java:270-272 | the check against the live index, failing exactly when another entry overlaps a timed item |
| InMemoryTaskManagers.InMemoryTaskManager.CreateTask | src/ru/yandex/practicum/task/managers/InMemoryTaskManager.java:24-38 | the new state and result are those of `TaskStore.CreateTask` (see CreateTaskSpec) |
| InMemoryTaskManagers.InMemoryTaskManager.CreateEpic | src/ru/yandex/practicum/task/managers/InMemoryTaskManager.java:41-46 | as `TaskStore.CreateEpic` (see CreateEpicSpec) |
| InMemoryTaskManagers.InMemoryTaskManager.CreateSubtask | src/ru/yandex/practicum/task/managers/InMemoryTaskManager.java:49-67 | as `TaskStore.CreateSubtask` (see CreateSubtaskSpec) |
| InMemoryTaskManagers.InMemoryTaskManager.RecalculateEpic | src/ru/yandex/practicum/task/managers/InMemoryTaskManager.java:64 | `calculateState(getSubtasksByEpic(epic))` keeps the epic's id and id list |
| InMemoryTaskManagers.InMemoryTaskManager.UpdateTask | src/ru/yandex/practicum/task/managers/InMemoryTaskManager.java:70-80 | as `TaskStore.UpdateTask` (see UpdateTaskSpec) |
| InMemoryTaskManagers.InMemoryTaskManager.UpdateEpic | src/ru/yandex/practicum/task/managers/InMemoryTaskManager.java:83-100 | the loop over the subtask map and the put give `TaskStore.UpdateEpic` (see UpdateEpicFrame) |
| InMemoryTaskManagers.InMemoryTaskManager.PutRecalculated | src/ru/yandex/practicum/task/managers/InMemoryTaskManager.java:93-99 | as `TaskStore.PutRecalculated` |
| InMemoryTaskManagers.InMemoryTaskManager.UpdateSubtask | src/ru/yandex/practicum/task/managers/InMemoryTaskManager.java:103-119 | as `TaskStore.UpdateSubtask` (see UpdateSubtaskSpec) |
| InMemoryTaskManagers.InMemoryTaskManager.GetAllTasks | src/ru/yandex/practicum/task/managers/InMemoryTaskManager.java:122-124 | every stored task is listed and only stored tasks |
| InMemoryTaskManagers.InMemoryTaskManager.GetAllEpics | src/ru/yandex/practicum/task/managers/InMemoryTaskManager.java:127-129 | every stored epic is listed and only stored epics |
| InMemoryTaskManagers.InMemoryTaskManager.GetAllSubtasks | src/ru/yandex/practicum/task/managers/InMemoryTaskManager.java:132-134 | every stored subtask is listed and only stored subtasks |
| InMemoryTaskManagers.InMemoryTaskManager.GetFrom | src/ru/yandex/practicum/task/managers/InMemoryTaskManager.java:137-144 | as `TaskStore.Get` on one map (see GetSpec) |
| InMemoryTaskManagers.InMemoryTaskManager.GetTask | src/ru/yandex/practicum/task/managers/InMemoryTaskManager.java:137-144 | as `TaskStore.Get` on the task map |
| InMemoryTaskManagers.InMemoryTaskManager.GetEpic | src/ru/yandex/practicum/task/managers/InMemoryTaskManager.java:147-154 | as `TaskStore.Get` on the epic map |
| InMemoryTaskManagers.InMemoryTaskManager.GetSubtask | src/ru/yandex/practicum/task/managers/InMemoryTaskManager.java:157-164 | as `TaskStore.Get` on the subtask map |
| InMemoryTaskManagers.InMemoryTaskManager.DeleteAllTasks | src/ru/yandex/practicum/task/managers/InMemoryTaskManager.java:167-170 | as `TaskStore.DeleteAllTasks` (see DeleteAllTasksSpec) |
| InMemoryTaskManagers.InMemoryTaskManager.DeleteAllSubtasks | src/ru/yandex/practicum/task/managers/InMemoryTaskManager.java:179-182 | as `TaskStore.DeleteAllSubtasks` |
| InMemoryTaskManagers.InMemoryTaskManager.DeleteAllEpics | src/ru/yandex/practicum/task/managers/InMemoryTaskManager.java:173-176 | as `TaskStore.DeleteAllEpics` |
| InMemoryTaskManagers.InMemoryTaskManager.DeleteTask | src/ru/yandex/practicum/task/managers/InMemoryTaskManager.java:185-195 | as `TaskStore.DeleteTask` (see DeleteTaskSpec) |
| InMemoryTaskManagers.InMemoryTaskManager.DeleteEpic | src/ru/yandex/practicum/task/managers/InMemoryTaskManager.java:198-213 | the loop over the listed ids gives `TaskStore.DeleteEpic` (see DeleteEpicSpec) |
| InMemoryTaskManagers.InMemoryTaskManager.DeleteSubtask | src/ru/yandex/practicum/task/managers/InMemoryTaskManager.java:216-235 | as `TaskStore.DeleteSubtask` (see DeleteSubtaskSpec) |
| InMemoryTaskManagers.InMemoryTaskManager.GetHistory | src/ru/yandex/practicum/task/managers/InMemoryTaskManager.java:238-240 | the history, oldest first, one entry per id |
| InMemoryTaskManagers.InMemoryTaskManager.GetPrioritizedTasks | src/ru/yandex/practicum/task/managers/InMemoryTaskManager.java:243-245 | every entry of the returned set is a task or subtask with a start time; no epic and no unscheduled item |
| LegacyEpics.AddSubtaskId | src/ru/yandex/practicum/task/Epic.java:17-19 | the id is appended and the old list kept in front |
| LegacyEpics.AddingTwiceListsTwice | src/ru/yandex/practicum/task/Epic.java:17-19 | adding a listed id lists it twice |
| LegacyEpics.RemoveSubtaskId | src/ru/yandex/practicum/task/Epic.java:21-23 | the first occurrence of the id leaves the list |
| LegacyEpics.RemoveFirstTakesOne | src/ru/yandex/practicum/task/Epic.java:21-23 | removal takes one occurrence out of the multiset, none when absent |
| LegacyEpics.CalculateAndSetStatus | src/ru/yandex/practicum/task/Epic.java:25-27 | only the status changes, to the loop's result; None when the loop throws |
| LegacyEpics.CalculateAndSetStatusFails | src/ru/yandex/practicum/task/Epic.java:34-51 | the call fails exactly when a null element precedes the first IN_PROGRESS subtask |
| LegacyEpics.CalculateAndSetStatusByRule | src/ru/yandex/practicum/task/Epic.java:34-51 | over existing subtasks the status follows the rule |
| LegacyEpicObjects.EpicObject.constructor | src/ru/yandex/practicum/task/Epic.java:9-11 | id 0, the given fields, no subtasks |
| LegacyEpicObjects.EpicObject.AddSubtaskId | src/ru/yandex/practicum/task/Epic.java:17-19 | the object's list gains the id at the end |
| LegacyEpicObjects.EpicObject.RemoveSubtaskId | src/ru/yandex/practicum/task/Epic.java:21-23 | the object's list loses the first occurrence |
| LegacyEpicObjects.EpicObject.CalculateAndSetStatus | src/ru/yandex/practicum/task/Epic.java:25-27 | the object's status becomes the loop's; a throw changes nothing |
| LegacyEpicObjects.EpicObject.SetStatus | src/ru/yandex/practicum/task/Epic.java:29-32 | the argument is ignored and nothing changes |
| LegacyHistoryManagers.Push | src/ru/yandex/practicum/task/InMemoryHistoryManager.java:13-18 | the entry is last, at most ten are held, and the oldest goes only when ten were held |
| LegacyHistoryManagers.PushAll | src/ru/yandex/practicum/task/InMemoryHistoryManager.java:13-18 | a run of `add` calls, oldest first (PushAllKeepsNewest) |
| LegacyHistoryManagers.PushAllKeepsNewest | src/ru/yandex/practicum/task/InMemoryHistoryManager.java:9-18 | after any run of `add` the list holds the ten newest entries, oldest first, repeats included |
| LegacyHistoryManagers.AddingTwiceKeepsBoth | src/ru/yandex/practicum/task/InMemoryHistoryManager.java:13-18 | the same entry added twice is held twice |
| LegacyHistoryManagers.InMemoryHistoryManager.constructor | src/ru/yandex/practicum/task/InMemoryHistoryManager.java:9-10 | an empty list |
| LegacyHistoryManagers.InMemoryHistoryManager.Add | src/ru/yandex/practicum/task/InMemoryHistoryManager.java:13-18 | the list becomes `Push` of the old one |
| LegacyHistoryManagers.InMemoryHistoryManager.GetHistory | src/ru/yandex/practicum/task/InMemoryHistoryManager.java:21-23 | the list itself, at most ten entries |
| LegacyStore.SubtasksByIds | src/ru/yandex/practicum/task/TaskManager.java:120-126 | one element per listed id, the stored subtask or null |
| LegacyStore.CreateTask | src/ru/yandex/practicum/task/TaskManager.java:11-15 | `createTask`: set the next id on the caller's task and store it (CreateSpec) |
| LegacyStore.CreateEpic | src/ru/yandex/practicum/task/TaskManager.java:17-21 | `createEpic`: set the next id on the caller's epic and store it as is (CreateSpec) |
| LegacyStore.CreateSubtask | src/ru/yandex/practicum/task/TaskManager.java:23-34 | `createSubtask`: store under the next id, append the id to the epic, recompute its status (CreateSubtaskSpec) |
| LegacyStore.UpdateTask | src/ru/yandex/practicum/task/TaskManager.java:36-38 | `updateTask`: put and return the old value (UpdateSpec) |
| LegacyStore.UpdateEpic | src/ru/yandex/practicum/task/TaskManager.java:40-42 | `updateEpic`: put and return the old value (UpdateSpec) |
| LegacyStore.UpdateSubtask | src/ru/yandex/practicum/task/TaskManager.java:44-53 | `updateSubtask`: null without the epic, else put the subtask and recompute the epic's status (UpdateSubtaskSpec) |
| LegacyStore.DeleteTask | src/ru/yandex/practicum/task/TaskManager.java:91-93 | `deleteTaskById`: remove and return the old value (DeleteTaskSpec) |
| LegacyStore.DeleteEpic | src/ru/yandex/practicum/task/TaskManager.java:95-103 | `deleteEpicById`: the epic and each subtask it lists (DeleteEpicSpec) |
| LegacyStore.DeleteSubtask | src/ru/yandex/practicum/task/TaskManager.java:105-118 | `deleteSubtaskById`: remove the subtask, take it off its epic, delete an emptied epic or recompute its status (DeleteSubtaskSpec, DeleteSubtaskFromEpic) |
| LegacyStore.EmptyIsValid | src/ru/yandex/practicum/task/TaskManager.java:6-9 | a new manager stores every item under its own id |
| LegacyStore.CreateSpec | src/ru/yandex/practicum/task/TaskManager.java:11-21 | the next id is set on the caller's object, which is stored under it and returned |
| LegacyStore.CreateSubtaskSpec | src/ru/yandex/practicum/task/TaskManager.java:23-34 | the subtask is always stored and no other epic changes; a missing epic is a null pointer; else the epic lists the id last and on success takes the loop's status |
| LegacyStore.StaleIdFailsCreateSubtask | src/ru/yandex/practicum/task/TaskManager.java:23-34 | an id left listed after `deleteAllSubtasks` makes the next `createSubtask` on that epic throw |
| LegacyStore.UpdateSpec | src/ru/yandex/practicum/task/TaskManager.java:36-42 | the caller's object is put under its id and the old value or null returned |
| LegacyStore.UpdateSubtaskSpec | src/ru/yandex/practicum/task/TaskManager.java:44-53 | a missing epic changes nothing and returns null; else the subtask is stored, only that epic's status changes and every other epic stays as it was, and on success it is what the status loop gives over the stored subtasks the epic lists |
| LegacyStore.DeleteTaskSpec | src/ru/yandex/practicum/task/TaskManager.java:91-93 | only the task goes; it or null is returned, and an absent id changes nothing |
| LegacyStore.DeleteEpicSpec | src/ru/yandex/practicum/task/TaskManager.java:95-103 | the epic and every subtask it lists go, other subtasks stay, the epic or null is returned |
| LegacyStore.DeleteSubtaskSpec | src/ru/yandex/practicum/task/TaskManager.java:105-118 | the subtask goes and tasks stay; an unknown id changes nothing; a missing epic throws with epics untouched |
| LegacyStore.DeleteSubtaskFromEpic | src/ru/yandex/practicum/task/TaskManager.java:107-116 | the epic loses the first occurrence of the id; an emptied epic is deleted, an epic left with ids changes only its status and every other epic stays as it was; on success that status is what the status loop gives over the stored subtasks still listed |
| LegacyStore.DeleteSubtaskKeepsEpic | src/ru/yandex/practicum/task/TaskManager.java:108-115 | an epic left with ids changes only its status, no other epic changes, and on success the status is what the status loop gives over the stored subtasks still listed |
| LegacyTaskManagers.TaskManager.constructor | src/ru/yandex/practicum/task/TaskManager.java:6-9 | empty maps and counter 0 |
| LegacyTaskManagers.TaskManager.CreateTask | src/ru/yandex/practicum/task/TaskManager.java:11-15 | as `LegacyStore.CreateTask` (see CreateSpec) |
| LegacyTaskManagers.TaskManager.CreateEpic | src/ru/yandex/practicum/task/TaskManager.java:17-21 | as `LegacyStore.CreateEpic` |
| LegacyTaskManagers.TaskManager.CreateSubtask | src/ru/yandex/practicum/task/TaskManager.java:23-34 | as `LegacyStore.CreateSubtask` (see CreateSubtaskSpec) |
| LegacyTaskManagers.TaskManager.UpdateTask | src/ru/yandex/practicum/task/TaskManager.java:36-38 | as `LegacyStore.UpdateTask` (see UpdateSpec) |
| LegacyTaskManagers.TaskManager.UpdateEpic | src/ru/yandex/practicum/task/TaskManager.java:40-42 | as `LegacyStore.UpdateEpic` |
| LegacyTaskManagers.TaskManager.UpdateSubtask | src/ru/yandex/practicum/task/TaskManager.java:44-53 | as `LegacyStore.UpdateSubtask` (see UpdateSubtaskSpec) |
| LegacyTaskManagers.TaskManager.GetAllTasks | src/ru/yandex/practicum/task/TaskManager.java:55-57 | every stored task is listed and only those |
| LegacyTaskManagers.TaskManager.GetAllEpics | src/ru/yandex/practicum/task/TaskManager.java:59-61 | every stored epic is listed and only those |
| LegacyTaskManagers.TaskManager.GetAllSubtasks | src/ru/yandex/practicum/task/TaskManager.java:63-65 | every stored subtask is listed and only those |
| LegacyTaskManagers.TaskManager.GetTaskById | src/ru/yandex/practicum/task/TaskManager.java:67-69 | the stored task or null |
| LegacyTaskManagers.TaskManager.GetEpicById | src/ru/yandex/practicum/task/TaskManager.java:71-73 | the stored epic or null |
| LegacyTaskManagers.TaskManager.GetSubtaskById | src/ru/yandex/practicum/task/TaskManager.java:75-77 | the stored subtask or null |
| LegacyTaskManagers.TaskManager.DeleteAllTasks | src/ru/yandex/practicum/task/TaskManager.java:79-81 | only the task map is cleared |
| LegacyTaskManagers.TaskManager.DeleteAllEpics | src/ru/yandex/practicum/task/TaskManager.java:83-85 | only the epic map is cleared; subtasks stay |
| LegacyTaskManagers.TaskManager.DeleteAllSubtasks | src/ru/yandex/practicum/task/TaskManager.java:87-89 | only the subtask map is cleared; epics keep listing the ids |
| LegacyTaskManagers.TaskManager.DeleteTaskById | src/ru/yandex/practicum/task/TaskManager.java:91-93 | as `LegacyStore.DeleteTask` |
| LegacyTaskManagers.TaskManager.DeleteEpicById | src/ru/yandex/practicum/task/TaskManager.java:95-103 | the loop over the listed ids gives `LegacyStore.DeleteEpic` (see DeleteEpicSpec) |
| LegacyTaskManagers.TaskManager.DeleteSubtaskById | src/ru/yandex/practicum/task/TaskManager.java:105-118 | as `LegacyStore.DeleteSubtask` (see DeleteSubtaskSpec) |
| LegacyTaskManagers.TaskManager.GetSubtasksByEpic | src/ru/yandex/practicum/task/TaskManager.java:120-126 | the loop returns the stored subtask or null for each listed id |
| LegacyTaskManagers.TaskManager.CalculateAndSetStatus | src/ru/yandex/practicum/task/TaskManager.java:30-31 | the stored epic takes the loop's status; a throw changes nothing |
| LegacyInMemoryTaskManagers.InMemoryTaskManager.constructor | src/ru/yandex/practicum/task/InMemoryTaskManager.java:9-13 | empty maps, counter 0, empty history |
| LegacyInMemoryTaskManagers.InMemoryTaskManager.GetTask | src/ru/yandex/practicum/task/InMemoryTaskManager.java:81-87 | the stored task or null; a hit is pushed onto the history |
| LegacyInMemoryTaskManagers.InMemoryTaskManager.GetEpic | src/ru/yandex/practicum/task/InMemoryTaskManager.java:90-96 | the stored epic or null; a hit is pushed onto the history |
| LegacyInMemoryTaskManagers.InMemoryTaskManager.GetSubtask | src/ru/yandex/practicum/task/InMemoryTaskManager.java:99-105 | the stored subtask or null; a hit is pushed onto the history |
| LegacyInMemoryTaskManagers.InMemoryTaskManager.GetHistory | src/ru/yandex/practicum/task/InMemoryTaskManager.java:155-157 | the history list, at most ten entries |
| OldestEpics.StatusOf | src/ru/yandex/practicum/Epic.java:39-56 | NEW for none, IN_PROGRESS if any is, DONE if all are, otherwise NEW |
| OldestEpics.RuleOverSubtasks | src/ru/yandex/practicum/Epic.java:39-56 | the rule's cases read on the subtasks themselves |
| OldestEpics.RemoveWithIdCuts | src/ru/yandex/practicum/Epic.java:23 | removal cuts out the first subtask with the id, or nothing without one |
| OldestEpics.AddSubtask | src/ru/yandex/practicum/Epic.java:17-20 | the subtask is appended and the status is current |
| OldestEpics.UpdateSubtask | src/ru/yandex/practicum/Epic.java:22-27 | `updateSubtask`: replace the first subtask with the id by the new one at the end and recompute the status (UpdateSubtaskReplaces) |
| OldestEpics.UpdateSubtaskReplaces | src/ru/yandex/practicum/Epic.java:22-27 | the first subtask with the id is replaced by the new one at the end, count kept, status current; otherwise no change |
| OldestEpics.RemoveSubtask | src/ru/yandex/practicum/Epic.java:29-32 | `removeSubtask`: the first subtask with the id goes and the status is recomputed (RemoveSubtaskTakesFirst, RemovingLastGivesNew) |
| OldestEpics.RemoveSubtaskTakesFirst | src/ru/yandex/practicum/Epic.java:29-32 | the first subtask with the id goes, or none, and the status is recomputed either way |
| OldestEpics.RemovingLastGivesNew | src/ru/yandex/practicum/Epic.java:29-32 | removing the only subtask leaves an empty NEW epic |
| OldestEpicObjects.EpicObject.constructor | src/ru/yandex/practicum/Epic.java:9-11 | id 0, the given fields, no subtasks |
| OldestEpicObjects.EpicObject.AddSubtask | src/ru/yandex/practicum/Epic.java:17-20 | the object becomes `AddSubtask` of its old value |
| OldestEpicObjects.EpicObject.UpdateSubtask | src/ru/yandex/practicum/Epic.java:22-27 | the object becomes `UpdateSubtask` of its old value |
| OldestEpicObjects.EpicObject.RemoveSubtask | src/ru/yandex/practicum/Epic.java:29-32 | the object becomes `RemoveSubtask` of its old value |
| OldestEpicObjects.EpicObject.SetStatus | src/ru/yandex/practicum/Epic.java:34-37 | the argument is ignored and nothing changes |
| OldestEpicObjects.EpicObject.GetStatusBySubtasks | src/ru/yandex/practicum/Epic.java:39-56 | the loop over held subtasks returns `StatusOf` them |
| OldestStore.CreateSubtask | src/ru/yandex/practicum/TaskManager.java:27-35 | `createSubtask`: store under the next id, then add to the epic (CreateSubtaskSpec) |
| OldestStore.CreateSubtaskSpec | src/ru/yandex/practicum/TaskManager.java:27-35 | the subtask is stored under the next id and no other epic changes; with the epic present it is appended and the status current; else a null pointer and no epic changes |
| OldestStore.UpdateSubtask | src/ru/yandex/practicum/TaskManager.java:45-51 | `updateSubtask`: the epic, when present, updates its copy; the subtask is put in any case (UpdateSubtaskSpec) |
| OldestStore.UpdateSubtaskSpec | src/ru/yandex/practicum/TaskManager.java:45-51 | the subtask is put even when its epic is missing; the old value or null is returned; no other epic changes; the epic, when present, changes only if it holds a subtask with the id, which is then replaced by the new one at the end with the status current |
| OldestStore.DeleteEpic | src/ru/yandex/practicum/TaskManager.java:94-101 | `deleteEpicById`: the epic's subtasks by id, then the epic (DeleteEpicSpec) |
| OldestStore.DeleteEpicSpec | src/ru/yandex/practicum/TaskManager.java:94-101 | the epic and every subtask it holds go, other subtasks stay; the epic or null is returned |
| OldestStore.DeleteSubtask | src/ru/yandex/practicum/TaskManager.java:103-113 | `deleteSubtaskById`: take the subtask out of its epic, delete an emptied epic, remove the subtask (DeleteSubtaskSpec) |
| OldestStore.DeleteSubtaskSpec | src/ru/yandex/practicum/TaskManager.java:103-113 | a missing epic throws with nothing removed; else the subtask leaves the map and its epic, and an emptied epic is deleted |
| OldestTaskManagers.TaskManager.constructor | src/ru/yandex/practicum/TaskManager.java:6-9 | empty maps and counter 0 |
| OldestTaskManagers.TaskManager.CreateTask | src/ru/yandex/practicum/TaskManager.java:15-19 | next id set on the caller's task, which is stored and returned |
| OldestTaskManagers.TaskManager.CreateEpic | src/ru/yandex/practicum/TaskManager.java:21-25 | next id set on the caller's epic, which is stored and returned |
| OldestTaskManagers.TaskManager.CreateSubtask | src/ru/yandex/practicum/TaskManager.java:27-35 | as `OldestStore.CreateSubtask` (see CreateSubtaskSpec) |
| OldestTaskManagers.TaskManager.UpdateTask | src/ru/yandex/practicum/TaskManager.java:37-39 | put under the id, old value or null returned |
| OldestTaskManagers.TaskManager.UpdateEpic | src/ru/yandex/practicum/TaskManager.java:41-43 | put under the id, old value or null returned |
| OldestTaskManagers.TaskManager.UpdateSubtask | src/ru/yandex/practicum/TaskManager.java:45-51 | as `OldestStore.UpdateSubtask` (see UpdateSubtaskSpec) |
| OldestTaskManagers.TaskManager.GetAllTasks | src/ru/yandex/practicum/TaskManager.java:54-56 | every stored task is listed and only those |
| OldestTaskManagers.TaskManager.GetAllEpics | src/ru/yandex/practicum/TaskManager.java:58-60 | every stored epic is listed and only those |
| OldestTaskManagers.TaskManager.GetAllSubtasks | src/ru/yandex/practicum/TaskManager.java:62-64 | every stored subtask is listed and only those |
| OldestTaskManagers.TaskManager.GetTaskById | src/ru/yandex/practicum/TaskManager.java:66-68 | the stored task or null |
| OldestTaskManagers.TaskManager.GetEpicById | src/ru/yandex/practicum/TaskManager.java:70-72 | the stored epic or null |
| OldestTaskManagers.TaskManager.GetSubtaskById | src/ru/yandex/practicum/TaskManager.java:74-76 | the stored subtask or null |
| OldestTaskManagers.TaskManager.DeleteAllTasks | src/ru/yandex/practicum/TaskManager.java:78-80 | only the task map is cleared |
| OldestTaskManagers.TaskManager.DeleteAllEpics | src/ru/yandex/practicum/TaskManager.java:82-84 | only the epic map is cleared |
| OldestTaskManagers.TaskManager.DeleteAllSubtasks | src/ru/yandex/practicum/TaskManager.java:86-88 | only the subtask map is cleared; epics keep theirs |
| OldestTaskManagers.TaskManager.DeleteTaskById | src/ru/yandex/practicum/TaskManager.java:90-92 | removed and the old value or null returned |
| OldestTaskManagers.TaskManager.DeleteEpicById | src/ru/yandex/practicum/TaskManager.java:94-101 | the loop over the epic's subtasks gives `OldestStore.DeleteEpic` (see DeleteEpicSpec) |
| OldestTaskManagers.TaskManager.DeleteSubtaskById | src/ru/yandex/practicum/TaskManager.java:103-113 | as `OldestStore.DeleteSubtask` (see DeleteSubtaskSpec) |

## Left out

- Input and output: the HTTP server and handlers, the file-backed manager, the `Managers` factories, and the console message the `Epic.setStatus` override prints.
- Dates are minutes on one line: `LocalDateTime`, `Duration` and the date formatter behind `getStartTimeFormatted` are not modelled; `toString` takes the formatter as a parameter.
- Java `int` overflow of the id counter is not modelled: ids are unbounded integers.
- Aliasing is not modelled. The managers store values, so these are not captured: the caller keeping a reference to what the legacy managers store; the legacy `getHistory` returning its internal list; the priority index sharing objects with the maps; the oldest epic holding the very subtask objects of the map.
- `HashMap` iteration order is modelled as ascending id order. It decides the order of `getAll*`, of the id collection in `updateEpic` and of the element-wise `removeAll`.
- The `TreeSet` is modelled as a sequence ordered by start time whose lookups go by the comparator, that is by equal start time. Its tree shape and balancing are left out. This changes removal once an in-place start change has put the set out of order (`PriorityIndex.UpdateBreaksOrder`): `PriorityIndex.Remove` scans the whole sequence and drops every entry with the given start, whereas the `TreeMap` descent follows the comparator, can miss an entry that is out of place, and removes at most one entry per call.
- InMemoryTaskManagers.InMemoryTaskManager: the history is held as a value field updated by `HistoryManagers.Record` and `HistoryManagers.Without`. The linked-list `HistoryManagers.HistoryManager` is proved against those same two functions, but the manager class does not embed it.
- InMemoryTaskManagers.InMemoryTaskManager.GetPrioritizedTasks: states what the set holds, not its order. An update can rewrite start times in place and leave the set out of order (PriorityIndex.UpdateBreaksOrder).
- The earlier packages' `Task`, `Subtask` and `TaskStatus` classes are not part of this model. Their items carry only the fields the managers and epics use, and equality of the oldest epic's subtasks is taken to be equality of ids.
- LegacyInMemoryTaskManagers.InMemoryTaskManager: its create, update and delete operations are line for line those of the earlier `TaskManager` and are modelled once, in LegacyTaskManagers.TaskManager; the class adds the history to the lookups.
- `getSubtasksByEpic` of the current manager is the function TaskStore.SubtasksByIds; no separate method is written for it.

## Where the code departs from its description

The model follows the code in each of these places.

- The epic's end time is the latest subtask START plus the TOTAL duration of all subtasks, not the latest subtask end (EpicState.EpicEndIsNotLatestSubtaskEnd).
- A mix of NEW and DONE subtasks gives the epic NEW, not IN_PROGRESS (TaskStatuses.NewAndDoneGiveNew).
- `createEpic` keeps the status the caller set rather than forcing NEW (TaskStoreFacts.CreateEpicSpec).
- Deleting the last subtask of an epic also deletes the epic, in both the current and the earlier manager (TaskStoreFacts.DeleteSubtaskSpec, LegacyStore.DeleteSubtaskFromEpic).
- Updates do not check that the id exists: an update stores an id the counter never issued (TaskStoreFacts.UpdateTaskStoresUnknownId).
- The priority index drops an item whose start equals an indexed one, because the comparator treats them as equal, even when the overlap check let it through (a zero-length item at another item's start): the item only touches the other's window (TaskManagerUtil.TouchingWindowsDoNotIntersect), and `add` is a no-op on an equal start (PriorityIndex.AddSpec).
- The element-wise branch of `removeAll` in `deleteAllTasks` removes by start time and can take a subtask with the same start along with a task (PriorityIndex.RemoveAllSpec, and PriorityIndex.UpdateBreaksOrder for how equal starts arise).
- In the earlier package `deleteAllSubtasks` leaves the ids listed in their epics, so the next `createSubtask` on such an epic throws (LegacyStore.StaleIdFailsCreateSubtask).
- The oldest `updateSubtask` stores the subtask even when its epic does not exist, and the oldest `deleteSubtaskById` throws on a missing epic before removing anything (OldestStore.UpdateSubtaskSpec, OldestStore.DeleteSubtaskSpec).
