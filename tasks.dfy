/** The task records and the pure operations of the task manager: id
    generation, task creation, lookup by id and the new task lists that
    toggling, editing, removing and searching produce. */
module Tasks {
  import opened Seqs
  import opened Text

  datatype Option<T> = None | Some(value: T)

  datatype Task = Task(id: int, description: string, completed: bool)

  /** Which message an operation reports: success, input rejected by
      validation, or no task with the given id. */
  datatype Outcome = Ok | Rejected | NotFound

  /** The text `createTask` substitutes for a missing description. */
  const Placeholder: string := "No Description"

  /** An argument that passes `!v || typeof v !== "string"` unrejected: a
      string that is not empty. `None` stands for a value that is not a
      string at all. */
  predicate IsText(v: Option<string>): (r: bool)
    ensures v.None? ==> !r
    ensures v == Some("") ==> !r
    ensures v.Some? && |v.value| > 0 ==> r
  {
    v.Some? && v.value != []
  }

  predicate HasId(ts: seq<Task>, id: int)
  {
    exists k :: 0 <= k < |ts| && ts[k].id == id
  }

  predicate DistinctIds(a: Task, b: Task)
  {
    a.id != b.id
  }

  predicate AscendingIds(a: Task, b: Task)
  {
    a.id < b.id
  }

  ghost predicate UniqueIds(ts: seq<Task>)
  {
    Pairwise(ts, DistinctIds)
  }

  ghost predicate IncreasingIds(ts: seq<Task>)
  {
    Pairwise(ts, AscendingIds)
  }

  // ---------------------------------------------------------------- ids

  /** The `reduce` of `generateUniqueId`: the largest id, folded from the
      left starting at 0. */
  function MaxId(ts: seq<Task>): (m: int)
    ensures m >= 0
    ensures forall k :: 0 <= k < |ts| ==> ts[k].id <= m
    ensures m == 0 || HasId(ts, m)
  {
    if ts == [] then 0
    else
      var front := ts[..|ts| - 1];
      var m := MaxId(front);
      var last := ts[|ts| - 1].id;
      assert forall k :: 0 <= k < |front| ==> front[k] == ts[k];
      if m >= last then m else last
  }

  /** `generateUniqueId`: 1 for an empty list, else one more than the
      largest id (and than 0). */
  function NextId(ts: seq<Task>): (r: int)
    ensures ts == [] ==> r == 1
    ensures r >= 1
    ensures forall k :: 0 <= k < |ts| ==> ts[k].id < r
    ensures r == 1 || HasId(ts, r - 1)
    ensures !HasId(ts, r)
  {
    if |ts| == 0 then 1 else MaxId(ts) + 1
  }

  /** `createTask`: a new, not completed task with a fresh id. */
  function CreateTask(ts: seq<Task>, description: string): (t: Task)
    ensures t.id == NextId(ts) && !HasId(ts, t.id)
    ensures description != [] ==> t.description == description
    ensures t.description != []
    ensures !t.completed
  {
    Task(NextId(ts), if description != [] then description else Placeholder, false)
  }

  // ------------------------------------------------------------- lookup

  /** `find` by id: the position of the first task with that id. */
  function FirstIndex(ts: seq<Task>, id: int): (r: Option<int>)
    ensures r.Some? ==> 0 <= r.value < |ts| && ts[r.value].id == id
    ensures r.Some? ==> forall k :: 0 <= k < r.value ==> ts[k].id != id
    ensures r.None? <==> !HasId(ts, id)
  {
    if ts == [] then None
    else if ts[0].id == id then Some(0)
    else
      assert forall k :: 0 < k < |ts| ==> ts[k] == ts[1..][k - 1];
      match FirstIndex(ts[1..], id)
      case None => None
      case Some(k) => Some(k + 1)
  }

  /** Two lists with the same ids at the same positions have their first
      match for any id at the same position. */
  lemma FirstIndexSameIds(a: seq<Task>, b: seq<Task>, id: int)
    requires |a| == |b|
    requires forall k :: 0 <= k < |a| ==> a[k].id == b[k].id
    ensures FirstIndex(a, id) == FirstIndex(b, id)
  {
  }

  // ------------------------------------------------------------- toggle

  /** The list after `toggleTaskCompletion(id)`: the first task with that id
      has its `completed` flag flipped, nothing else changes. */
  function Toggled(ts: seq<Task>, id: int): (r: seq<Task>)
    ensures |r| == |ts|
    ensures forall k :: 0 <= k < |ts| ==> r[k].id == ts[k].id && r[k].description == ts[k].description
    ensures forall k :: 0 <= k < |ts| ==>
      r[k].completed == (if FirstIndex(ts, id) == Some(k) then !ts[k].completed else ts[k].completed)
    ensures !HasId(ts, id) ==> r == ts
  {
    match FirstIndex(ts, id)
    case None => ts
    case Some(k) => ts[k := ts[k].(completed := !ts[k].completed)]
  }

  /** Toggling the same id twice restores the list. */
  lemma ToggleTwice(ts: seq<Task>, id: int)
    ensures Toggled(Toggled(ts, id), id) == ts
  {
    var once := Toggled(ts, id);
    FirstIndexSameIds(ts, once, id);
    var twice := Toggled(once, id);
    forall k | 0 <= k < |ts| ensures twice[k] == ts[k] {
    }
  }

  // --------------------------------------------------------------- edit

  /** The list after `updateTask(id, description)` once the description
      has passed validation: the first task with that id gets the new
      description, nothing else changes. */
  function Updated(ts: seq<Task>, id: int, description: string): (r: seq<Task>)
    ensures |r| == |ts|
    ensures forall k :: 0 <= k < |ts| ==> r[k].id == ts[k].id && r[k].completed == ts[k].completed
    ensures forall k :: 0 <= k < |ts| ==>
      r[k].description == (if FirstIndex(ts, id) == Some(k) then description else ts[k].description)
    ensures !HasId(ts, id) ==> r == ts
  {
    match FirstIndex(ts, id)
    case None => ts
    case Some(k) => ts[k := ts[k].(description := description)]
  }

  /** Editing twice with the same description is editing once. */
  lemma UpdateTwice(ts: seq<Task>, id: int, description: string)
    ensures Updated(Updated(ts, id, description), id, description) == Updated(ts, id, description)
  {
    var once := Updated(ts, id, description);
    FirstIndexSameIds(ts, once, id);
    var twice := Updated(once, id, description);
    forall k | 0 <= k < |ts| ensures twice[k] == once[k] {
    }
  }

  // ------------------------------------------------------------- remove

  /** The list after `removeTask(id)`: every task whose id differs, in
      order. All tasks with that id go, not only the first. */
  function RemoveById(ts: seq<Task>, id: int): (r: seq<Task>)
    ensures forall t: Task :: t in r <==> t in ts && t.id != id
    ensures IsSubsequence(r, ts)
    ensures |r| < |ts| <==> HasId(ts, id)
    ensures !HasId(ts, id) ==> r == ts
  {
    FilterMembers(ts, OtherId(id));
    Filter(ts, OtherId(id))
  }

  /** Removing keeps duplicates of other ids: a task whose id differs stays
      as often as it occurred, a task with the id is gone. */
  lemma RemoveByIdMultiplicity(ts: seq<Task>, id: int, t: Task)
    ensures multiset(RemoveById(ts, id))[t] == if t.id != id then multiset(ts)[t] else 0
  {
    FilterMultiplicity(ts, OtherId(id), t);
  }

  /** The test `t.id !== id` of `removeTask`. */
  function OtherId(id: int): Task -> bool
  {
    (t: Task) => t.id != id
  }

  /** When position `i` holds the only task with that id, removing the id
      takes out exactly that position. */
  lemma RemoveOnlyMatch(ts: seq<Task>, id: int, i: int)
    requires 0 <= i < |ts| && ts[i].id == id
    requires forall k :: 0 <= k < |ts| && k != i ==> ts[k].id != id
    ensures RemoveById(ts, id) == ts[..i] + ts[i + 1..]
  {
    var p := OtherId(id);
    var front, back := ts[..i], ts[i + 1..];
    assert ts == front + ([ts[i]] + back);
    assert Filter([ts[i]], p) == [] by {
      assert [ts[i]][1..] == [];
    }
    assert Filter(front, p) == front by {
      assert forall k :: 0 <= k < |front| ==> front[k] == ts[k];
    }
    assert Filter(back, p) == back by {
      assert forall k :: 0 <= k < |back| ==> back[k] == ts[i + 1 + k];
    }
    FilterAppend(front, [ts[i]] + back, p);
    FilterAppend([ts[i]], back, p);
    assert [] + back == back;
  }

  /** With unique ids, removing an id that is present takes out exactly the
      task `find` would have returned. */
  lemma RemoveUniqueIsSplice(ts: seq<Task>, id: int)
    requires UniqueIds(ts)
    requires HasId(ts, id)
    ensures FirstIndex(ts, id).Some?
    ensures var i := FirstIndex(ts, id).value;
            RemoveById(ts, id) == ts[..i] + ts[i + 1..]
  {
    var i := FirstIndex(ts, id).value;
    forall k | 0 <= k < |ts| && k != i ensures ts[k].id != id {
      if k < i {
        assert DistinctIds(ts[k], ts[i]);
      } else {
        assert DistinctIds(ts[i], ts[k]);
      }
    }
    RemoveOnlyMatch(ts, id, i);
  }

  // ------------------------------------------------------------- search

  /** The matching test of `searchTasks`: the lower-cased description
      contains the lower-cased term. */
  predicate Matches(t: Task, term: string)
  {
    Contains(Lower(t.description), Lower(term))
  }

  /** Matching ignores the case of the term: two terms that differ only in
      the case of letters match the same tasks, and lower-casing the term
      first changes nothing. */
  lemma MatchesIgnoresTermCase(t: Task, u: string, v: string)
    ensures SameUpToCase(u, v) ==> Matches(t, u) == Matches(t, v)
    ensures Matches(t, u) == Matches(t, Lower(u))
  {
    LowerEqualIff(u, v);
    LowerIdempotent(u);
  }

  /** `searchTasks(term)`: `None` when the term is rejected, otherwise the
      matching tasks in list order. */
  function Search(ts: seq<Task>, term: Option<string>): (r: Option<seq<Task>>)
    ensures r.None? <==> !IsText(term)
    ensures r.Some? ==> forall t: Task :: t in r.value <==> t in ts && Matches(t, term.value)
    ensures r.Some? ==> forall t: Task ::
      multiset(r.value)[t] == if Matches(t, term.value) then multiset(ts)[t] else 0
    ensures r.Some? ==> IsSubsequence(r.value, ts)
  {
    if !IsText(term) then None
    else
      var p := MatchesTerm(term.value);
      FilterMembers(ts, p);
      assert forall t: Task :: multiset(Filter(ts, p))[t] == if Matches(t, term.value) then multiset(ts)[t] else 0 by {
        forall t: Task ensures multiset(Filter(ts, p))[t] == if Matches(t, term.value) then multiset(ts)[t] else 0 {
          FilterMultiplicity(ts, p, t);
        }
      }
      Some(Filter(ts, p))
  }

  /** Searching for two terms that differ only in the case of letters gives
      the same result. */
  lemma SearchIgnoresTermCase(ts: seq<Task>, u: string, v: string)
    requires SameUpToCase(u, v)
    ensures Search(ts, Some(u)) == Search(ts, Some(v))
  {
    forall i | 0 <= i < |ts| ensures MatchesTerm(u)(ts[i]) == MatchesTerm(v)(ts[i]) {
      MatchesIgnoresTermCase(ts[i], u, v);
    }
    FilterAgreeing(ts, MatchesTerm(u), MatchesTerm(v));
  }

  function MatchesTerm(term: string): Task -> bool
  {
    (t: Task) => Matches(t, term)
  }

  // ---------------------------------------------- invariants of the ids

  lemma IncreasingImpliesUnique(ts: seq<Task>)
    requires IncreasingIds(ts)
    ensures UniqueIds(ts)
  {
  }

  /** `addTask` keeps the ids unique, and increasing, since the new id
      exceeds every current one. */
  lemma AddKeepsIdOrder(ts: seq<Task>, description: string)
    ensures UniqueIds(ts) ==> UniqueIds(ts + [CreateTask(ts, description)])
    ensures IncreasingIds(ts) ==> IncreasingIds(ts + [CreateTask(ts, description)])
  {
    var s := ts + [CreateTask(ts, description)];
    assert forall k :: 0 <= k < |ts| ==> s[k] == ts[k];
  }

  /** Lists with the same ids at the same positions agree on uniqueness and
      order of ids; toggling and editing change no id. */
  lemma SameIdsKeepOrder(a: seq<Task>, b: seq<Task>)
    requires |a| == |b|
    requires forall k :: 0 <= k < |a| ==> a[k].id == b[k].id
    ensures UniqueIds(a) ==> UniqueIds(b)
    ensures IncreasingIds(a) ==> IncreasingIds(b)
  {
    if UniqueIds(a) {
      forall i, j | 0 <= i < j < |b| ensures DistinctIds(b[i], b[j]) {
        assert DistinctIds(a[i], a[j]);
      }
    }
    if IncreasingIds(a) {
      forall i, j | 0 <= i < j < |b| ensures AscendingIds(b[i], b[j]) {
        assert AscendingIds(a[i], a[j]);
      }
    }
  }

  /** `toggleTaskCompletion` keeps the ids unique and increasing. */
  lemma ToggleKeepsIdOrder(ts: seq<Task>, id: int)
    ensures UniqueIds(ts) ==> UniqueIds(Toggled(ts, id))
    ensures IncreasingIds(ts) ==> IncreasingIds(Toggled(ts, id))
  {
    SameIdsKeepOrder(ts, Toggled(ts, id));
  }

  /** `updateTask` keeps the ids unique and increasing. */
  lemma UpdateKeepsIdOrder(ts: seq<Task>, id: int, description: string)
    ensures UniqueIds(ts) ==> UniqueIds(Updated(ts, id, description))
    ensures IncreasingIds(ts) ==> IncreasingIds(Updated(ts, id, description))
  {
    SameIdsKeepOrder(ts, Updated(ts, id, description));
  }

  /** `removeTask` keeps the ids unique and increasing: what remains is a
      subsequence. */
  lemma RemoveKeepsIdOrder(ts: seq<Task>, id: int)
    ensures UniqueIds(ts) ==> UniqueIds(RemoveById(ts, id))
    ensures IncreasingIds(ts) ==> IncreasingIds(RemoveById(ts, id))
  {
    if UniqueIds(ts) {
      SubsequencePairwise(RemoveById(ts, id), ts, DistinctIds);
    }
    if IncreasingIds(ts) {
      SubsequencePairwise(RemoveById(ts, id), ts, AscendingIds);
    }
  }

  // ---------------------------------------------------------- scenarios

  /** Starting empty, adding "Write report" and "Review PR", removing id 1
      and adding "Ship" leaves the tasks with ids 2 and 3. */
  lemma IdsAfterRemovingFirst()
    ensures var l1 := [CreateTask([], "Write report")];
            var l2 := l1 + [CreateTask(l1, "Review PR")];
            var l3 := RemoveById(l2, 1);
            && l2 == [Task(1, "Write report", false), Task(2, "Review PR", false)]
            && l3 + [CreateTask(l3, "Ship")] == [Task(2, "Review PR", false), Task(3, "Ship", false)]
  {
    var l1 := [CreateTask([], "Write report")];
    assert l1 == [Task(1, "Write report", false)];
    assert MaxId(l1) == 1 by {
      assert l1[..0] == [];
    }
    var l2 := l1 + [CreateTask(l1, "Review PR")];
    assert l2 == [Task(1, "Write report", false), Task(2, "Review PR", false)];
    var l3 := RemoveById(l2, 1);
    assert l3 == [l2[1]] by {
      assert l2[1..][1..] == [];
    }
    assert MaxId(l3) == 2 by {
      assert l3[..0] == [];
    }
  }

  /** Ids are reused: after removing the task with the largest id, the
      next id is that id again. */
  lemma IdReusedAfterRemovingMax()
    ensures NextId(RemoveById([Task(1, "Write report", false), Task(2, "Review PR", false)], 2)) == 2
  {
    var ts := [Task(1, "Write report", false), Task(2, "Review PR", false)];
    assert RemoveById(ts, 2) == [ts[0]] by {
      assert ts[1..][1..] == [];
      assert ts == [ts[0]] + ts[1..];
    }
    assert MaxId([ts[0]]) == 1 by {
      assert [ts[0]][..0] == [];
    }
  }

  lemma MilkMatches()
    ensures Matches(Task(1, "Buy milk", false), "MILK")
  {
    assert Lower("MILK") == "milk";
    assert Lower("Buy milk") == "buy milk";
    var s := "buy milk";
    assert "milk" <= s[4..];
    assert s[1..][1..][1..][1..] == s[4..];
  }

  lemma HouseDoesNotMatch()
    ensures !Matches(Task(2, "Clean house", false), "MILK")
  {
    assert Lower("MILK") == "milk";
    assert Lower("Clean house") == "clean house";
    assert 'm' !in "clean house";
    NotContainsWithoutFirst("clean house", "milk");
  }

  /** Search is case-insensitive and matches inside words. */
  lemma SearchExample()
    ensures Search([Task(1, "Buy milk", false), Task(2, "Clean house", false)], Some("MILK"))
         == Some([Task(1, "Buy milk", false)])
  {
    var milk, house := Task(1, "Buy milk", false), Task(2, "Clean house", false);
    MilkMatches();
    HouseDoesNotMatch();
    var p := MatchesTerm("MILK");
    assert p(milk) && !p(house);
    assert [milk, house][1..] == [house];
    assert [house][1..] == [];
    calc {
      Filter([milk, house], p);
      [milk] + Filter([house], p);
      [milk] + Filter([], p);
      [milk];
    }
  }
}
