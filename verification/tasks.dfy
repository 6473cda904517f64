/** The task half of the repository layer (database.js): filtered listing,
    fetch by id, the transactional create and update that rewrite a task's
    associations, delete with cascade, and the advisory link-uniqueness probe.
    Each writing operation maps a store to a reply and a new store; a failure
    inside `db.transaction` rolls back, so a failing operation returns the store
    it was given. */
module Tasks {
  import opened Basics
  import opened Text
  import opened Schema

  // ---------------------------------------------------------------------------
  // Input
  // ---------------------------------------------------------------------------

  /** An entry of `data.tags` or `data.contests`: a JavaScript number, or anything
      else (`typeof tagId !== 'number'`), which the insert loops skip. */
  datatype IdEntry = Num(n: int) | NotNumber

  /** The `taskData` object after destructuring with defaults: absent strings are '',
      an absent `isYCReady` is false, absent lists are empty, and `difficulty` is
      already `parseInt`-ed (`None` for `NaN`). `isCFReady` is whatever the caller
      sent; the repository never reads it. */
  datatype TaskInput = TaskInput(
    title: string,
    difficulty: Option<int>,
    link: string,
    condition: string,
    idea: string,
    note: string,
    isYCReady: bool,
    isCFReady: bool,
    tags: seq<IdEntry>,
    contests: seq<IdEntry>)

  /** The number-typed entries, in order: each id as often as the list has it. */
  function NumIds(entries: seq<IdEntry>): (r: seq<int>)
    ensures |r| <= |entries|
    ensures forall x :: x in r <==> Num(x) in entries
    ensures forall x :: multiset(r)[x] == multiset(entries)[Num(x)]
    decreases |entries|
  {
    if |entries| == 0 then []
    else
      assert entries == [entries[0]] + entries[1..];
      match entries[0]
      case Num(n) => [n] + NumIds(entries[1..])
      case NotNumber => NumIds(entries[1..])
  }

  /** Skipping works entry by entry, so the kept ids keep the list's order: the
      ids of a concatenation are the ids of each part, one after the other. */
  lemma {:induction false} NumIdsOfConcat(a: seq<IdEntry>, b: seq<IdEntry>)
    ensures NumIds(a + b) == NumIds(a) + NumIds(b)
    decreases |a|
  {
    if |a| > 0 {
      assert (a + b)[1..] == a[1..] + b;
      NumIdsOfConcat(a[1..], b);
    } else {
      assert a + b == b;
    }
  }

  /** A single entry keeps its id exactly when it is a number. */
  lemma NumIdsOfEntry(e: IdEntry)
    ensures NumIds([e]) == if e.Num? then [e.n] else []
  {
  }

  /** The row a create or update writes: every column from the input, except that
      `IsCFReady` is derived from the link and the caller's flag is ignored. */
  function RowFor(d: TaskInput): TaskRow {
    TaskRow(d.title, d.difficulty, d.link, CfReadyFor(d.link), d.isYCReady,
            d.condition, d.idea, d.note)
  }

  /** The association pairs linking `task` to each id of `ids`. */
  function PairsFor(task: int, ids: seq<int>): set<Pair> {
    set i | i in ids :: Pair(task, i)
  }

  /** Every id is distinct (else the primary key fails) and names an existing
      parent row (else the foreign key fails). */
  ghost predicate ListAccepted(ids: seq<int>, parents: set<int>) {
    Distinct(ids) && forall i :: 0 <= i < |ids| ==> ids[i] in parents
  }

  /** The insert loop of `addTask` and `updateTask`: one INSERT into TaskTag or TaskContest per
      number-typed entry, in order, stopping with `None` at the first row that
      violates the primary key or a foreign key (the task itself, or the parent). */
  function InsertPairs(pairs: set<Pair>, task: int, taskExists: bool, parents: set<int>,
                       entries: seq<IdEntry>): (r: Option<set<Pair>>)
    ensures r.Some? <==>
      && (NumIds(entries) == [] || taskExists)
      && ListAccepted(NumIds(entries), parents)
      && (forall i :: i in NumIds(entries) ==> Pair(task, i) !in pairs)
    ensures r.Some? ==> r.value == pairs + PairsFor(task, NumIds(entries))
    decreases |entries|
  {
    if |entries| == 0 then Some(pairs)
    else
      var rest := entries[1..];
      assert entries == [entries[0]] + rest;
      match entries[0]
      case NotNumber =>
        InsertPairs(pairs, task, taskExists, parents, rest)
      case Num(n) =>
        var ids := NumIds(rest);
        assert NumIds(entries) == [n] + ids;
        if !taskExists || n !in parents || Pair(task, n) in pairs then
          None
        else
          var r := InsertPairs(pairs + {Pair(task, n)}, task, taskExists, parents, rest);
          InsertStepAccepted(pairs, task, parents, n, ids);
          assert r.Some? ==> PairsFor(task, [n] + ids) == {Pair(task, n)} + PairsFor(task, ids);
          r
  }

  /** One successful insert of `n` followed by the rest is accepted exactly when
      the whole list is. */
  lemma InsertStepAccepted(pairs: set<Pair>, task: int, parents: set<int>, n: int, ids: seq<int>)
    requires n in parents && Pair(task, n) !in pairs
    ensures (ListAccepted(ids, parents) && forall i :: i in ids ==> Pair(task, i) !in pairs + {Pair(task, n)})
        <==> (ListAccepted([n] + ids, parents) && forall i :: i in [n] + ids ==> Pair(task, i) !in pairs)
  {
    var all := [n] + ids;
    if ListAccepted(ids, parents) && forall i :: i in ids ==> Pair(task, i) !in pairs + {Pair(task, n)} {
      forall a, b | 0 <= a < b < |all| ensures all[a] != all[b] {
        if a == 0 {
          assert all[b] == ids[b - 1];
          assert all[b] in ids;
        } else {
          assert all[a] == ids[a - 1] && all[b] == ids[b - 1];
        }
      }
      forall a | 0 <= a < |all| ensures all[a] in parents {
        if a > 0 { assert all[a] == ids[a - 1]; }
      }
    }
    if ListAccepted(all, parents) && forall i :: i in all ==> Pair(task, i) !in pairs {
      forall a, b | 0 <= a < b < |ids| ensures ids[a] != ids[b] {
        assert ids[a] == all[a + 1] && ids[b] == all[b + 1];
      }
      forall a | 0 <= a < |ids| ensures ids[a] in parents {
        assert ids[a] == all[a + 1];
      }
      forall i | i in ids ensures Pair(task, i) !in pairs + {Pair(task, n)} {
        var a :| 0 <= a < |ids| && ids[a] == i;
        assert all[0] != all[a + 1];
      }
    }
  }

  // ---------------------------------------------------------------------------
  // Link uniqueness
  // ---------------------------------------------------------------------------

  /** Some task stores exactly this link. */
  predicate LinkHeld(s: Store, link: string) {
    exists id :: id in s.tasks && s.tasks[id].link == link
  }

  /** Some task other than `self` stores exactly this link. */
  predicate LinkHeldByOther(s: Store, link: string, self: int) {
    exists id :: id in s.tasks && id != self && s.tasks[id].link == link
  }

  /** `if (currentTaskId)`: only a truthy id (not null, not NaN, not 0) is excluded. */
  predicate Excludes(current: Option<int>) {
    current.Some? && current.value != 0
  }

  /** `checkLinkUniqueness(link, currentTaskId)`: no task other than the excluded one
      has this link. A pure read; the store is not part of the result. */
  function CheckLinkUniqueness(s: Store, link: string, current: Option<int>): (isUnique: bool)
    ensures Excludes(current) ==> (isUnique <==> !LinkHeldByOther(s, link, current.value))
    ensures !Excludes(current) ==> (isUnique <==> !LinkHeld(s, link))
  {
    !exists id :: id in s.tasks && s.tasks[id].link == link
                  && !(Excludes(current) && id == current.value)
  }

  // ---------------------------------------------------------------------------
  // addTask
  // ---------------------------------------------------------------------------

  /** The id AUTOINCREMENT gives the next task. */
  function NewTaskId(s: Store): int {
    s.lastTaskId + 1
  }

  /** When `addTask` commits: the difficulty passes the CHECK, the link is free, and
      both id lists insert cleanly. */
  ghost predicate AddAccepted(s: Store, d: TaskInput) {
    && DifficultyAllowed(d.difficulty)
    && !LinkHeld(s, d.link)
    && ListAccepted(NumIds(d.tags), s.tags.Keys)
    && ListAccepted(NumIds(d.contests), s.contests.Keys)
  }

  /** A fresh task id has no association pairs yet. */
  lemma FreshIdHasNoPairs(s: Store)
    requires Valid(s)
    ensures NewTaskId(s) !in s.tasks
    ensures forall p :: p in s.taskTags ==> p.task != NewTaskId(s)
    ensures forall p :: p in s.taskContests ==> p.task != NewTaskId(s)
  {
  }

  /** `addTask(taskData)`: insert the row, then one pair per number-typed tag id and
      contest id, all in one transaction. The CHECK on `Difficulty` is evaluated
      before the UNIQUE index on `PolygonLink`, so an out-of-range difficulty is
      reported generically even when the link also collides. */
  function AddTask(s: Store, d: TaskInput): (r: Response)
    requires Valid(s)
    ensures Valid(r.store)
    ensures r.reply.Ok? <==> AddAccepted(s, d)
    ensures r.reply == Fail(LinkTaken) <==> DifficultyAllowed(d.difficulty) && LinkHeld(s, d.link)
    ensures r.reply in {Ok, Fail(LinkTaken), Fail(DbError)}
    ensures !r.reply.Ok? ==> r.store == s
    ensures r.reply.Ok? ==>
      && NewTaskId(s) !in s.tasks
      && r.store == s.(tasks := s.tasks[NewTaskId(s) := RowFor(d)],
                       taskTags := s.taskTags + PairsFor(NewTaskId(s), NumIds(d.tags)),
                       taskContests := s.taskContests + PairsFor(NewTaskId(s), NumIds(d.contests)),
                       lastTaskId := NewTaskId(s))
  {
    var id := NewTaskId(s);
    var row := RowFor(d);
    FreshIdHasNoPairs(s);
    if !DifficultyAllowed(row.difficulty) then Response(Fail(DbError), s)
    else if LinkHeld(s, row.link) then Response(Fail(LinkTaken), s)
    else match InsertPairs(s.taskTags, id, true, s.tags.Keys, d.tags)
      case None => Response(Fail(DbError), s)
      case Some(taskTags) =>
        match InsertPairs(s.taskContests, id, true, s.contests.Keys, d.contests)
        case None => Response(Fail(DbError), s)
        case Some(taskContests) =>
          var s' := s.(tasks := s.tasks[id := row], taskTags := taskTags,
                       taskContests := taskContests, lastTaskId := id);
          AddKeepsValid(s, d, s');
          Response(Ok, s')
  }

  lemma AddKeepsValid(s: Store, d: TaskInput, s': Store)
    requires Valid(s) && AddAccepted(s, d)
    requires s' == s.(tasks := s.tasks[NewTaskId(s) := RowFor(d)],
                      taskTags := s.taskTags + PairsFor(NewTaskId(s), NumIds(d.tags)),
                      taskContests := s.taskContests + PairsFor(NewTaskId(s), NumIds(d.contests)),
                      lastTaskId := NewTaskId(s))
    ensures Valid(s')
  {
    var id := NewTaskId(s);
    WriteRowKeepsRows(s, id, RowFor(d), s');
    AddPairsKeepsReferences(s.taskTags, id, NumIds(d.tags), s'.tasks.Keys, s.tags.Keys);
    AddPairsKeepsReferences(s.taskContests, id, NumIds(d.contests), s'.tasks.Keys, s.contests.Keys);
  }

  /** Writing `row` at `id` keeps the per-row invariants when the row passes the
      CHECK, carries the derived flag and no other task holds its link. */
  lemma WriteRowKeepsRows(s: Store, id: int, row: TaskRow, s': Store)
    requires LinksUnique(s) && DifficultiesInRange(s) && CfFlagsDerived(s)
    requires s'.tasks == s.tasks[id := row]
    requires DifficultyAllowed(row.difficulty) && row.cfReady == CfReadyFor(row.link)
    requires !LinkHeldByOther(s, row.link, id)
    ensures LinksUnique(s') && DifficultiesInRange(s') && CfFlagsDerived(s')
  {
    forall a, b | a in s'.tasks && b in s'.tasks && a != b
      ensures s'.tasks[a].link != s'.tasks[b].link
    {
      if a == id {
        assert b in s.tasks && b != id;
      } else if b == id {
        assert a in s.tasks && a != id;
      }
    }
  }

  /** Adding the pairs of `task` to pairs without a dangling reference keeps the
      foreign keys, when `task` exists and every id names a parent row. */
  lemma AddPairsKeepsReferences(pairs: set<Pair>, task: int, ids: seq<int>,
                                tasks: set<int>, parents: set<int>)
    requires forall p :: p in pairs ==> p.task in tasks && p.ref in parents
    requires task in tasks && forall i :: 0 <= i < |ids| ==> ids[i] in parents
    ensures forall p :: p in pairs + PairsFor(task, ids) ==> p.task in tasks && p.ref in parents
  {
    forall p | p in pairs + PairsFor(task, ids) ensures p.task in tasks && p.ref in parents {
      if p !in pairs {
        var i :| i in ids && p == Pair(task, i);
        var k :| 0 <= k < |ids| && ids[k] == i;
      }
    }
  }

  // ---------------------------------------------------------------------------
  // updateTask
  // ---------------------------------------------------------------------------

  /** When `updateTask` commits. The UPDATE of a missing id touches no row and so
      checks no constraint, and rows-affected is never looked at; what can still
      fail is an association insert, whose TaskID foreign key has no parent. */
  ghost predicate UpdateAccepted(s: Store, id: int, d: TaskInput) {
    if id in s.tasks then
      && DifficultyAllowed(d.difficulty)
      && !LinkHeldByOther(s, d.link, id)
      && ListAccepted(NumIds(d.tags), s.tags.Keys)
      && ListAccepted(NumIds(d.contests), s.contests.Keys)
    else
      NumIds(d.tags) == [] && NumIds(d.contests) == []
  }

  /** `updateTask(taskId, taskData)`: overwrite the row, then delete the task's
      associations and re-insert them from the new lists, in one transaction. */
  function UpdateTask(s: Store, id: int, d: TaskInput): (r: Response)
    requires Valid(s)
    ensures Valid(r.store)
    ensures r.reply.Ok? <==> UpdateAccepted(s, id, d)
    ensures r.reply == Fail(LinkTaken) <==>
      id in s.tasks && DifficultyAllowed(d.difficulty) && LinkHeldByOther(s, d.link, id)
    ensures r.reply in {Ok, Fail(LinkTaken), Fail(DbError)}
    ensures !r.reply.Ok? ==> r.store == s
    ensures r.reply.Ok? && id !in s.tasks ==> r.store == s
    ensures r.reply.Ok? && id in s.tasks ==>
      r.store == s.(tasks := s.tasks[id := RowFor(d)],
                    taskTags := WithoutTask(s.taskTags, id) + PairsFor(id, NumIds(d.tags)),
                    taskContests := WithoutTask(s.taskContests, id) + PairsFor(id, NumIds(d.contests)))
  {
    var present := id in s.tasks;
    var row := RowFor(d);
    if present && !DifficultyAllowed(row.difficulty) then Response(Fail(DbError), s)
    else if present && LinkHeldByOther(s, row.link, id) then Response(Fail(LinkTaken), s)
    else
      var tasks := if present then s.tasks[id := row] else s.tasks;
      match InsertPairs(WithoutTask(s.taskTags, id), id, present, s.tags.Keys, d.tags)
      case None => Response(Fail(DbError), s)
      case Some(taskTags) =>
        match InsertPairs(WithoutTask(s.taskContests, id), id, present, s.contests.Keys, d.contests)
        case None => Response(Fail(DbError), s)
        case Some(taskContests) =>
          var s' := s.(tasks := tasks, taskTags := taskTags, taskContests := taskContests);
          if present then
            UpdateKeepsValid(s, id, d, s');
            Response(Ok, s')
          else
            MissingTaskHasNoPairs(s, id);
            NoPairsForNoIds(id, NumIds(d.tags));
            NoPairsForNoIds(id, NumIds(d.contests));
            assert s' == s;
            Response(Ok, s')
  }

  /** An empty id list yields no pairs. */
  lemma NoPairsForNoIds(task: int, ids: seq<int>)
    requires ids == []
    ensures PairsFor(task, ids) == {}
  {
  }

  /** Under the foreign keys, a missing task has no association pairs. */
  lemma MissingTaskHasNoPairs(s: Store, id: int)
    requires Valid(s) && id !in s.tasks
    ensures WithoutTask(s.taskTags, id) == s.taskTags
    ensures WithoutTask(s.taskContests, id) == s.taskContests
  {
  }

  lemma UpdateKeepsValid(s: Store, id: int, d: TaskInput, s': Store)
    requires Valid(s) && id in s.tasks && UpdateAccepted(s, id, d)
    requires s' == s.(tasks := s.tasks[id := RowFor(d)],
                      taskTags := WithoutTask(s.taskTags, id) + PairsFor(id, NumIds(d.tags)),
                      taskContests := WithoutTask(s.taskContests, id) + PairsFor(id, NumIds(d.contests)))
    ensures Valid(s')
  {
    WriteRowKeepsRows(s, id, RowFor(d), s');
    assert s'.tasks.Keys == s.tasks.Keys;
    AddPairsKeepsReferences(WithoutTask(s.taskTags, id), id, NumIds(d.tags), s'.tasks.Keys, s.tags.Keys);
    AddPairsKeepsReferences(WithoutTask(s.taskContests, id), id, NumIds(d.contests), s'.tasks.Keys, s.contests.Keys);
  }

  // ---------------------------------------------------------------------------
  // deleteTask
  // ---------------------------------------------------------------------------

  /** `deleteTask(taskId)`: delete the row; ON DELETE CASCADE removes its pairs.
      Success is reported iff a row was deleted. */
  function DeleteTask(s: Store, id: int): (r: Response)
    requires Valid(s)
    ensures Valid(r.store)
    ensures r.reply.Ok? <==> id in s.tasks
    ensures !r.reply.Ok? ==> r.reply == Fail(NotFound) && r.store == s
    ensures r.reply.Ok? ==>
      r.store == s.(tasks := s.tasks - {id},
                    taskTags := WithoutTask(s.taskTags, id),
                    taskContests := WithoutTask(s.taskContests, id))
  {
    if id in s.tasks then
      Response(Ok, s.(tasks := s.tasks - {id},
                      taskTags := WithoutTask(s.taskTags, id),
                      taskContests := WithoutTask(s.taskContests, id)))
    else Response(Fail(NotFound), s)
  }

  // ---------------------------------------------------------------------------
  // getTaskById
  // ---------------------------------------------------------------------------

  /** A task with the ids of its tags and contests (the JSON arrays of the query,
      read as sets: their order is unspecified and the primary keys make them
      duplicate-free). */
  datatype TaskDetail = TaskDetail(id: int, row: TaskRow, tagIds: set<int>, contestIds: set<int>)

  /** `getTaskById(taskId)`: `None` plays `undefined`. */
  function GetTaskById(s: Store, id: int): (r: Option<TaskDetail>)
    ensures r.Some? <==> id in s.tasks
  {
    if id in s.tasks then Some(TaskDetail(id, s.tasks[id], TagIdsOf(s, id), ContestIdsOf(s, id)))
    else None
  }

  // ---------------------------------------------------------------------------
  // getAllTasks
  // ---------------------------------------------------------------------------

  /** `{ minDifficulty, maxDifficulty, tags }`; a bound is `None` for null,
      undefined or NaN. */
  datatype Filter = Filter(minDifficulty: Option<int>, maxDifficulty: Option<int>, tags: seq<int>)

  /** `bound && !isNaN(bound)`: a bound adds a WHERE clause only when truthy, so 0
      is as good as absent. */
  predicate BoundActive(b: Option<int>) {
    b.Some? && b.value != 0
  }

  /** The difficulty clauses `t.Difficulty >= ?` and `t.Difficulty <= ?`. A NULL
      difficulty makes an active clause NULL, which WHERE treats as false. */
  predicate DifficultyClauses(row: TaskRow, f: Filter) {
    && (!BoundActive(f.minDifficulty)
        || (row.difficulty.Some? && row.difficulty.value >= f.minDifficulty.value))
    && (!BoundActive(f.maxDifficulty)
        || (row.difficulty.Some? && row.difficulty.value <= f.maxDifficulty.value))
  }

  /** The tag clause: the number of DISTINCT requested tag ids attached to the task
      equals `tags.length`. */
  predicate TagClause(s: Store, id: int, tags: seq<int>) {
    |tags| == 0 || |TagIdsOf(s, id) * Elements(tags)| == |tags|
  }

  /** The WHERE clause of `getAllTasks` for task `id`. */
  predicate Matches(s: Store, id: int, f: Filter) {
    id in s.tasks && DifficultyClauses(s.tasks[id], f) && TagClause(s, id, f.tags)
  }

  function MatchingIds(s: Store, f: Filter): set<int> {
    set id | id in s.tasks && Matches(s, id, f)
  }

  /** With a non-empty, duplicate-free tag list a task passes the tag clause exactly
      when it carries every requested tag; extra tags do not matter. */
  lemma TagFilterMeansEveryTag(s: Store, id: int, tags: seq<int>)
    requires |tags| > 0 && Distinct(tags)
    ensures TagClause(s, id, tags) <==> forall t :: t in tags ==> t in TagIdsOf(s, id)
  {
    var have := TagIdsOf(s, id);
    var want := Elements(tags);
    DistinctCount(tags);
    SubsetSize(have * want, want);
    if TagClause(s, id, tags) {
      SubsetOfSameSize(have * want, want);
      forall t | t in tags ensures t in have {
        assert t in want;
      }
    }
    if forall t :: t in tags ==> t in have {
      assert have * want == want;
    }
  }

  /** A tag list that names some id twice can never reach its own length in distinct
      matches, so it filters out every task. */
  lemma RepeatedTagMatchesNothing(s: Store, f: Filter)
    requires !Distinct(f.tags)
    ensures MatchingIds(s, f) == {}
  {
    RepeatCount(f.tags);
    forall id | id in s.tasks ensures !TagClause(s, id, f.tags) {
      var want := Elements(f.tags);
      SubsetSize(TagIdsOf(s, id) * want, want);
    }
  }

  /** Which tasks `getAllTasks` returns, for a duplicate-free tag list: inclusive
      difficulty bounds that only apply when truthy and then exclude a NULL
      difficulty, and a superset condition on the task's tags. */
  lemma ListingCharacterised(s: Store, f: Filter, id: int)
    requires Distinct(f.tags)
    ensures id in MatchingIds(s, f) <==>
      && id in s.tasks
      && (BoundActive(f.minDifficulty) || BoundActive(f.maxDifficulty) ==> s.tasks[id].difficulty.Some?)
      && (BoundActive(f.minDifficulty) ==> f.minDifficulty.value <= s.tasks[id].difficulty.value)
      && (BoundActive(f.maxDifficulty) ==> s.tasks[id].difficulty.value <= f.maxDifficulty.value)
      && (forall t :: t in f.tags ==> t in TagIdsOf(s, id))
  {
    if |f.tags| > 0 {
      TagFilterMeansEveryTag(s, id, f.tags);
    }
  }

  /** Without an active bound and without tags every task is listed. */
  lemma NoFilterListsEverything(s: Store, f: Filter)
    requires !BoundActive(f.minDifficulty) && !BoundActive(f.maxDifficulty) && f.tags == []
    ensures MatchingIds(s, f) == s.tasks.Keys
  {
  }

  /** The order of the requested tags, and so the order of the checkboxes, does not
      change the result. */
  lemma TagOrderIrrelevant(s: Store, f: Filter, g: Filter)
    requires f.minDifficulty == g.minDifficulty && f.maxDifficulty == g.maxDifficulty
    requires multiset(f.tags) == multiset(g.tags)
    ensures MatchingIds(s, f) == MatchingIds(s, g)
  {
    assert |f.tags| == |multiset(f.tags)| == |g.tags|;
    assert Elements(f.tags) == Elements(g.tags) by {
      forall t ensures t in f.tags <==> t in g.tags {
        assert t in f.tags <==> t in multiset(f.tags);
        assert t in g.tags <==> t in multiset(g.tags);
      }
    }
  }

  /** `{TagID, Title}` of the `Tags` JSON array. */
  datatype TagRef = TagRef(id: int, title: string)

  /** `{ContestID, TitleRu}` of the `Contests` JSON array. */
  datatype ContestRef = ContestRef(id: int, title: string)

  /** One element of the `getAllTasks` result. */
  datatype TaskView = TaskView(id: int, row: TaskRow, tags: seq<TagRef>, contests: seq<ContestRef>)

  /** The task's tags as the correlated subquery joins them with `Tags`. */
  function JoinedTags(s: Store, id: int): set<TagRef> {
    set p | p in s.taskTags && p.task == id && p.ref in s.tags :: TagRef(p.ref, s.tags[p.ref].title)
  }

  /** The task's contests as the correlated subquery joins them with `Contests`. */
  function JoinedContests(s: Store, id: int): set<ContestRef> {
    set p | p in s.taskContests && p.task == id && p.ref in s.contests
      :: ContestRef(p.ref, s.contests[p.ref].title)
  }

  /** `v` is the stored task `v.id` with its joined tags and contests, each once. */
  ghost predicate Describes(s: Store, v: TaskView) {
    && v.id in s.tasks
    && v.row == s.tasks[v.id]
    && Distinct(v.tags) && (forall t :: t in v.tags <==> t in JoinedTags(s, v.id))
    && Distinct(v.contests) && (forall c :: c in v.contests <==> c in JoinedContests(s, v.id))
  }

  method ViewTask(s: Store, id: int) returns (v: TaskView)
    requires id in s.tasks
    ensures v.id == id && Describes(s, v)
  {
    var tags := Enumerate(JoinedTags(s, id));
    var contests := Enumerate(JoinedContests(s, id));
    v := TaskView(id, s.tasks[id], tags, contests);
  }

  /** `getAllTasks(filters)`: every matching task exactly once, in an unspecified order. */
  method ListTasks(s: Store, f: Filter) returns (rows: seq<TaskView>)
    ensures forall i :: 0 <= i < |rows| ==> rows[i].id in MatchingIds(s, f) && Describes(s, rows[i])
    ensures forall i, j :: 0 <= i < j < |rows| ==> rows[i].id != rows[j].id
    ensures forall id :: id in MatchingIds(s, f) ==> exists i :: 0 <= i < |rows| && rows[i].id == id
  {
    var ids := Enumerate(MatchingIds(s, f));
    rows := [];
    var k := 0;
    while k < |ids|
      invariant 0 <= k <= |ids|
      invariant |rows| == k
      invariant forall i :: 0 <= i < k ==> rows[i].id == ids[i] && Describes(s, rows[i])
    {
      assert ids[k] in MatchingIds(s, f);
      var v := ViewTask(s, ids[k]);
      rows := rows + [v];
      k := k + 1;
    }
    forall id | id in MatchingIds(s, f) ensures exists i :: 0 <= i < |rows| && rows[i].id == id {
      var i :| 0 <= i < |ids| && ids[i] == id;
      assert rows[i].id == id;
    }
  }

  // ---------------------------------------------------------------------------
  // Properties relating the operations
  // ---------------------------------------------------------------------------

  /** Every stored CF-ready flag is the derived one, whatever flag the caller sent. */
  lemma AddDerivesCfFlag(s: Store, d: TaskInput)
    requires Valid(s)
    ensures AddTask(s, d).reply.Ok? ==>
      AddTask(s, d).store.tasks[NewTaskId(s)].cfReady == CfReadyFor(d.link)
    ensures AddTask(s, d) == AddTask(s, d.(isCFReady := !d.isCFReady))
  {
  }

  /** Likewise for `updateTask`. */
  lemma UpdateDerivesCfFlag(s: Store, id: int, d: TaskInput)
    requires Valid(s)
    ensures UpdateTask(s, id, d).reply.Ok? && id in s.tasks ==>
      UpdateTask(s, id, d).store.tasks[id].cfReady == CfReadyFor(d.link)
    ensures UpdateTask(s, id, d) == UpdateTask(s, id, d.(isCFReady := !d.isCFReady))
  {
  }

  /** Create then fetch: the new task comes back with the row written and with the
      number-typed tag and contest ids, as sets. */
  lemma AddThenGet(s: Store, d: TaskInput)
    requires Valid(s) && AddTask(s, d).reply.Ok?
    ensures GetTaskById(AddTask(s, d).store, NewTaskId(s)) ==
      Some(TaskDetail(NewTaskId(s), RowFor(d), Elements(NumIds(d.tags)), Elements(NumIds(d.contests))))
  {
    var s' := AddTask(s, d).store;
    var id := NewTaskId(s);
    FreshIdHasNoPairs(s);
    assert TagIdsOf(s', id) == Elements(NumIds(d.tags)) by {
      forall t ensures t in TagIdsOf(s', id) <==> t in NumIds(d.tags) {
        if t in NumIds(d.tags) {
          assert Pair(id, t) in s'.taskTags;
        }
      }
    }
    assert ContestIdsOf(s', id) == Elements(NumIds(d.contests)) by {
      forall c ensures c in ContestIdsOf(s', id) <==> c in NumIds(d.contests) {
        if c in NumIds(d.contests) {
          assert Pair(id, c) in s'.taskContests;
        }
      }
    }
  }

  /** Update replaces the associations: afterwards the task's tag and contest ids are
      exactly the number-typed entries sent, and no other task's change. */
  lemma UpdateReplacesAssociations(s: Store, id: int, d: TaskInput, other: int)
    requires Valid(s) && id in s.tasks && UpdateTask(s, id, d).reply.Ok?
    ensures TagIdsOf(UpdateTask(s, id, d).store, id) == Elements(NumIds(d.tags))
    ensures ContestIdsOf(UpdateTask(s, id, d).store, id) == Elements(NumIds(d.contests))
    ensures other != id ==> TagIdsOf(UpdateTask(s, id, d).store, other) == TagIdsOf(s, other)
    ensures other != id ==> ContestIdsOf(UpdateTask(s, id, d).store, other) == ContestIdsOf(s, other)
  {
    var s' := UpdateTask(s, id, d).store;
    forall t ensures t in TagIdsOf(s', id) <==> t in NumIds(d.tags) {
      if t in NumIds(d.tags) {
        assert Pair(id, t) in s'.taskTags;
      }
    }
    forall c ensures c in ContestIdsOf(s', id) <==> c in NumIds(d.contests) {
      if c in NumIds(d.contests) {
        assert Pair(id, c) in s'.taskContests;
      }
    }
    if other != id {
      forall t ensures t in TagIdsOf(s', other) <==> t in TagIdsOf(s, other) {
        if t in TagIdsOf(s, other) {
          assert Pair(other, t) in s'.taskTags;
        }
      }
      forall c ensures c in ContestIdsOf(s', other) <==> c in ContestIdsOf(s, other) {
        if c in ContestIdsOf(s, other) {
          assert Pair(other, c) in s'.taskContests;
        }
      }
    }
  }

  /** Rows-affected is never checked: updating a missing id with no number-typed ids
      reports success and changes nothing, whatever the link and difficulty. */
  lemma UpdateOfMissingTaskSucceeds(s: Store, id: int, d: TaskInput)
    requires Valid(s) && id !in s.tasks && NumIds(d.tags) == [] && NumIds(d.contests) == []
    ensures UpdateTask(s, id, d) == Response(Ok, s)
  {
  }

  /** An update that keeps the task's own link never collides on it. */
  lemma KeepingOwnLinkNeverCollides(s: Store, id: int, d: TaskInput)
    requires Valid(s) && id in s.tasks && d.link == s.tasks[id].link
    ensures UpdateTask(s, id, d).reply != Fail(LinkTaken)
  {
  }

  /** An absent link is stored as '' rather than NULL, so once one task has no link
      a second link-less task is rejected with the link message. */
  lemma TwoLinklessTasksCollide(s: Store, first: TaskInput, second: TaskInput)
    requires Valid(s) && first.link == "" && second.link == ""
    requires AddTask(s, first).reply.Ok? && DifficultyAllowed(second.difficulty)
    ensures AddTask(AddTask(s, first).store, second) ==
      Response(Fail(LinkTaken), AddTask(s, first).store)
  {
    var s' := AddTask(s, first).store;
    assert s'.tasks[NewTaskId(s)].link == "";
    assert LinkHeld(s', "");
  }

  /** The advisory probe and the write-time check agree: with a difficulty that
      passes the CHECK, `addTask` reports the link message exactly when the probe
      (with no current task) says the link is not unique. */
  lemma ProbeAgreesWithAdd(s: Store, d: TaskInput)
    requires Valid(s) && DifficultyAllowed(d.difficulty)
    ensures CheckLinkUniqueness(s, d.link, None) <==> AddTask(s, d).reply != Fail(LinkTaken)
  {
  }

  /** Likewise for an edit of an existing task, whose id the probe excludes. */
  lemma ProbeAgreesWithUpdate(s: Store, id: int, d: TaskInput)
    requires Valid(s) && id in s.tasks && id != 0 && DifficultyAllowed(d.difficulty)
    ensures CheckLinkUniqueness(s, d.link, Some(id)) <==> UpdateTask(s, id, d).reply != Fail(LinkTaken)
  {
  }

  /** Deleting a task leaves no pair pointing at it and leaves every other task,
      with its tags and contests, as it was. */
  lemma DeleteTaskCascades(s: Store, id: int, other: int)
    requires Valid(s) && id in s.tasks
    ensures TagIdsOf(DeleteTask(s, id).store, id) == {}
    ensures ContestIdsOf(DeleteTask(s, id).store, id) == {}
    ensures other != id && other in s.tasks ==>
      && other in DeleteTask(s, id).store.tasks
      && DeleteTask(s, id).store.tasks[other] == s.tasks[other]
      && TagIdsOf(DeleteTask(s, id).store, other) == TagIdsOf(s, other)
      && ContestIdsOf(DeleteTask(s, id).store, other) == ContestIdsOf(s, other)
  {
    var s' := DeleteTask(s, id).store;
    if other != id {
      forall t ensures t in TagIdsOf(s', other) <==> t in TagIdsOf(s, other) {
        if t in TagIdsOf(s, other) {
          assert Pair(other, t) in s'.taskTags;
        }
      }
      forall c ensures c in ContestIdsOf(s', other) <==> c in ContestIdsOf(s, other) {
        if c in ContestIdsOf(s, other) {
          assert Pair(other, c) in s'.taskContests;
        }
      }
    }
  }
}
