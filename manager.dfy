/** The task manager object: the task list it owns, the copy of it in the
    key-value store, and the operations it exposes. */
module Manager {
  import opened Tasks
  import opened Storage

  class TaskManager {
    /** The in-memory task list, in insertion order. */
    var tasks: seq<Task>
    /** What the key-value store holds under "tasks" (`None`: nothing). */
    ghost var persisted: Option<seq<RawRecord>>
    /** How many times the list has been written to the store. */
    ghost var saves: nat

    /** The list in memory is the list that loading the store would give. */
    ghost predicate Valid()
      reads this
    {
      Load(persisted) == tasks
    }

    /** Creating the manager loads the list from the store. */
    constructor (stored: Option<seq<RawRecord>>)
      ensures Valid()
      ensures tasks == Load(stored) && persisted == stored && saves == 0
    {
      tasks := Load(stored);
      persisted := stored;
      saves := 0;
    }

    /** `saveTasks`: write the whole list to the store. */
    method SaveTasks()
      modifies this
      ensures Valid()
      ensures tasks == old(tasks)
      ensures persisted == Some(Serialize(tasks)) && saves == old(saves) + 1
    {
      LoadSerialize(tasks);
      persisted := Some(Serialize(tasks));
      saves := saves + 1;
    }

    /** `addTask`: append a new task and save, unless the description is
        rejected. */
    method AddTask(description: Option<string>) returns (outcome: Outcome)
      requires Valid()
      modifies this
      ensures Valid()
      ensures outcome == if IsText(description) then Ok else Rejected
      ensures outcome == Ok ==>
        && tasks == old(tasks) + [CreateTask(old(tasks), description.value)]
        && persisted == Some(Serialize(tasks)) && saves == old(saves) + 1
      ensures outcome == Rejected ==>
        tasks == old(tasks) && persisted == old(persisted) && saves == old(saves)
      ensures UniqueIds(old(tasks)) ==> UniqueIds(tasks)
      ensures IncreasingIds(old(tasks)) ==> IncreasingIds(tasks)
    {
      if !IsText(description) {
        return Rejected;
      }
      var newTask := CreateTask(tasks, description.value);
      AddKeepsIdOrder(tasks, description.value);
      tasks := tasks + [newTask];
      SaveTasks();
      outcome := Ok;
    }

    /** `toggleTaskCompletion`: flip the first task with the id and save. */
    method ToggleTaskCompletion(id: Option<int>) returns (outcome: Outcome)
      requires Valid()
      modifies this
      ensures Valid()
      ensures outcome == if id.None? then Rejected else if HasId(old(tasks), id.value) then Ok else NotFound
      ensures outcome == Ok ==>
        && tasks == Toggled(old(tasks), id.value)
        && persisted == Some(Serialize(tasks)) && saves == old(saves) + 1
      ensures outcome != Ok ==>
        tasks == old(tasks) && persisted == old(persisted) && saves == old(saves)
      ensures UniqueIds(old(tasks)) ==> UniqueIds(tasks)
      ensures IncreasingIds(old(tasks)) ==> IncreasingIds(tasks)
    {
      if id.None? {
        return Rejected;
      }
      var found := FirstIndex(tasks, id.value);
      if found.None? {
        return NotFound;
      }
      var k := found.value;
      ToggleKeepsIdOrder(tasks, id.value);
      tasks := tasks[k := tasks[k].(completed := !tasks[k].completed)];
      SaveTasks();
      outcome := Ok;
    }

    /** `removeTask`: drop every task with the id; save only if the list
        got shorter. */
    method RemoveTask(id: Option<int>) returns (outcome: Outcome)
      requires Valid()
      modifies this
      ensures Valid()
      ensures outcome == if id.None? then Rejected else if HasId(old(tasks), id.value) then Ok else NotFound
      ensures outcome == Ok ==>
        && tasks == RemoveById(old(tasks), id.value) && |tasks| < |old(tasks)|
        && persisted == Some(Serialize(tasks)) && saves == old(saves) + 1
      ensures outcome != Ok ==>
        tasks == old(tasks) && persisted == old(persisted) && saves == old(saves)
      ensures UniqueIds(old(tasks)) ==> UniqueIds(tasks)
      ensures IncreasingIds(old(tasks)) ==> IncreasingIds(tasks)
    {
      if id.None? {
        return Rejected;
      }
      var initialLength := |tasks|;
      RemoveKeepsIdOrder(tasks, id.value);
      tasks := RemoveById(tasks, id.value);
      if |tasks| < initialLength {
        SaveTasks();
        outcome := Ok;
      } else {
        outcome := NotFound;
      }
    }

    /** `updateTask`: validate the description first, then give the first
        task with the id that description and save. */
    method UpdateTask(id: Option<int>, newDescription: Option<string>) returns (outcome: Outcome)
      requires Valid()
      modifies this
      ensures Valid()
      ensures outcome ==
        if !IsText(newDescription) then Rejected
        else if id.Some? && HasId(old(tasks), id.value) then Ok
        else NotFound
      ensures outcome == Ok ==>
        && tasks == Updated(old(tasks), id.value, newDescription.value)
        && persisted == Some(Serialize(tasks)) && saves == old(saves) + 1
      ensures outcome != Ok ==>
        tasks == old(tasks) && persisted == old(persisted) && saves == old(saves)
      ensures UniqueIds(old(tasks)) ==> UniqueIds(tasks)
      ensures IncreasingIds(old(tasks)) ==> IncreasingIds(tasks)
    {
      if !IsText(newDescription) {
        return Rejected;
      }
      if id.None? {
        // NaN equals no id, so the lookup finds nothing.
        return NotFound;
      }
      var found := FirstIndex(tasks, id.value);
      if found.None? {
        return NotFound;
      }
      var k := found.value;
      UpdateKeepsIdOrder(tasks, id.value, newDescription.value);
      tasks := tasks[k := tasks[k].(description := newDescription.value)];
      SaveTasks();
      outcome := Ok;
    }

    /** `searchTasks`: the tasks matching the term; the list is untouched. */
    method SearchTasks(term: Option<string>) returns (found: Option<seq<Task>>)
      requires Valid()
      ensures found == Search(tasks, term)
      ensures found.None? <==> !IsText(term)
      ensures found.Some? ==> Seqs.IsSubsequence(found.value, tasks)
    {
      found := Search(tasks, term);
    }
  }
}
