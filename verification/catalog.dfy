/** The two reference tables of the repository layer (database.js): tags and
    contests, each with a sorted listing, create, rename and delete. Deleting a
    tag or contest cascades to the task associations that point at it. */
module Catalog {
  import opened Basics
  import opened Text
  import opened Schema
  import opened Sorting
  import opened Tasks

  // ---------------------------------------------------------------------------
  // Tags
  // ---------------------------------------------------------------------------

  /** Some tag has this title. */
  predicate TagTitleHeld(s: Store, title: string) {
    exists id :: id in s.tags && s.tags[id].title == title
  }

  /** Some tag other than `self` has this title. */
  predicate TagTitleHeldByOther(s: Store, title: string, self: int) {
    exists id :: id in s.tags && id != self && s.tags[id].title == title
  }

  /** `addTag(title)`: insert one row; a UNIQUE violation on `Title` gets its own
      message. */
  function AddTag(s: Store, title: string): (r: Response)
    requires Valid(s)
    ensures Valid(r.store)
    ensures r.reply.Ok? <==> !TagTitleHeld(s, title)
    ensures !r.reply.Ok? ==> r == Response(Fail(TagTitleTaken), s)
    ensures r.reply.Ok? ==>
      && s.lastTagId + 1 !in s.tags
      && r.store == s.(tags := s.tags[s.lastTagId + 1 := Tag(title)], lastTagId := s.lastTagId + 1)
  {
    if TagTitleHeld(s, title) then Response(Fail(TagTitleTaken), s)
    else
      var id := s.lastTagId + 1;
      Response(Ok, s.(tags := s.tags[id := Tag(title)], lastTagId := id))
  }

  /** `updateTag(tagId, newTitle)`: an UPDATE of a missing id changes no row and so
      reports "not found" without checking the title; renaming a tag to its own
      title succeeds. */
  function UpdateTag(s: Store, id: int, title: string): (r: Response)
    requires Valid(s)
    ensures Valid(r.store)
    ensures r.reply.Ok? <==> id in s.tags && !TagTitleHeldByOther(s, title, id)
    ensures r.reply == Fail(NotFound) <==> id !in s.tags
    ensures r.reply in {Ok, Fail(NotFound), Fail(TagTitleTaken)}
    ensures !r.reply.Ok? ==> r.store == s
    ensures r.reply.Ok? ==> r.store == s.(tags := s.tags[id := Tag(title)])
  {
    if id !in s.tags then Response(Fail(NotFound), s)
    else if TagTitleHeldByOther(s, title, id) then Response(Fail(TagTitleTaken), s)
    else Response(Ok, s.(tags := s.tags[id := Tag(title)]))
  }

  /** `deleteTag(tagId)`: delete the row; ON DELETE CASCADE removes the task
      associations that reference it. */
  function DeleteTag(s: Store, id: int): (r: Response)
    requires Valid(s)
    ensures Valid(r.store)
    ensures r.reply.Ok? <==> id in s.tags
    ensures !r.reply.Ok? ==> r == Response(Fail(NotFound), s)
    ensures r.reply.Ok? ==>
      r.store == s.(tags := s.tags - {id}, taskTags := WithoutRef(s.taskTags, id))
  {
    if id in s.tags then Response(Ok, s.(tags := s.tags - {id}, taskTags := WithoutRef(s.taskTags, id)))
    else Response(Fail(NotFound), s)
  }

  /** Deleting a tag removes exactly that tag from every task and touches nothing
      else a task carries. */
  lemma DeleteTagCascades(s: Store, id: int, task: int)
    requires Valid(s) && id in s.tags
    ensures TagIdsOf(DeleteTag(s, id).store, task) == TagIdsOf(s, task) - {id}
    ensures ContestIdsOf(DeleteTag(s, id).store, task) == ContestIdsOf(s, task)
    ensures DeleteTag(s, id).store.tasks == s.tasks
  {
    var s' := DeleteTag(s, id).store;
    forall t ensures t in TagIdsOf(s', task) <==> t in TagIdsOf(s, task) - {id} {
      if t in TagIdsOf(s, task) - {id} {
        assert Pair(task, t) in s'.taskTags;
      }
    }
  }

  /** A renamed tag keeps its id, so every task keeps it. */
  lemma UpdateTagKeepsAssociations(s: Store, id: int, title: string, task: int)
    requires Valid(s)
    ensures TagIdsOf(UpdateTag(s, id, title).store, task) == TagIdsOf(s, task)
    ensures UpdateTag(s, id, title).reply.Ok? ==> UpdateTag(s, id, title).store.tags[id].title == title
  {
  }

  /** `getAllTags()` row: `{TagID, Title}`. */
  function TagTitle(t: TagRef): string {
    t.title
  }

  /** `rows` is what `SELECT * FROM Tags ORDER BY Title` returns. */
  ghost predicate IsTagListing(s: Store, rows: seq<TagRef>) {
    && SortedBy(rows, TagTitle)
    && Distinct(rows)
    && forall t :: t in rows <==> t.id in s.tags && s.tags[t.id].title == t.title
  }

  /** The catalog's tags as rows, in an unspecified order. */
  function TagRows(s: Store): set<TagRef> {
    set id | id in s.tags :: TagRef(id, s.tags[id].title)
  }

  /** `getAllTags()`. */
  method ListTags(s: Store) returns (rows: seq<TagRef>)
    ensures IsTagListing(s, rows)
  {
    var unordered := Enumerate(TagRows(s));
    rows := Sort(unordered, TagTitle);
    SortKeepsElements(unordered, TagTitle);
  }

  /** Titles are unique, so ordering by title leaves exactly one possible listing. */
  lemma TagListingDetermined(s: Store, a: seq<TagRef>, b: seq<TagRef>)
    requires Valid(s) && IsTagListing(s, a) && IsTagListing(s, b)
    ensures a == b
  {
    assert KeysDistinct(a, TagTitle) by {
      forall i, j | 0 <= i < j < |a| ensures TagTitle(a[i]) != TagTitle(a[j]) {
        assert a[i] in a && a[j] in a;
      }
    }
    SortedListingUnique(a, b, TagTitle);
  }

  // ---------------------------------------------------------------------------
  // Contests
  // ---------------------------------------------------------------------------

  /** Some contest has this (title, year) pair. */
  predicate ContestHeld(s: Store, c: Contest) {
    exists id :: id in s.contests && s.contests[id] == c
  }

  /** Some contest other than `self` has this (title, year) pair. */
  predicate ContestHeldByOther(s: Store, c: Contest, self: int) {
    exists id :: id in s.contests && id != self && s.contests[id] == c
  }

  /** `addContest(title, year)`: a UNIQUE violation on (TitleRu, Year) gets its own
      message. Two contests may share a title in different years. */
  function AddContest(s: Store, title: string, year: int): (r: Response)
    requires Valid(s)
    ensures Valid(r.store)
    ensures r.reply.Ok? <==> !ContestHeld(s, Contest(title, year))
    ensures !r.reply.Ok? ==> r == Response(Fail(ContestTaken), s)
    ensures r.reply.Ok? ==>
      && s.lastContestId + 1 !in s.contests
      && r.store == s.(contests := s.contests[s.lastContestId + 1 := Contest(title, year)],
                       lastContestId := s.lastContestId + 1)
  {
    var c := Contest(title, year);
    if ContestHeld(s, c) then Response(Fail(ContestTaken), s)
    else
      var id := s.lastContestId + 1;
      Response(Ok, s.(contests := s.contests[id := c], lastContestId := id))
  }

  /** `updateContest(contestId, newTitle, newYear)`. */
  function UpdateContest(s: Store, id: int, title: string, year: int): (r: Response)
    requires Valid(s)
    ensures Valid(r.store)
    ensures r.reply.Ok? <==> id in s.contests && !ContestHeldByOther(s, Contest(title, year), id)
    ensures r.reply == Fail(NotFound) <==> id !in s.contests
    ensures r.reply in {Ok, Fail(NotFound), Fail(ContestTaken)}
    ensures !r.reply.Ok? ==> r.store == s
    ensures r.reply.Ok? ==> r.store == s.(contests := s.contests[id := Contest(title, year)])
  {
    var c := Contest(title, year);
    if id !in s.contests then Response(Fail(NotFound), s)
    else if ContestHeldByOther(s, c, id) then Response(Fail(ContestTaken), s)
    else Response(Ok, s.(contests := s.contests[id := c]))
  }

  /** `deleteContest(contestId)`, cascading to `TaskContest`. */
  function DeleteContest(s: Store, id: int): (r: Response)
    requires Valid(s)
    ensures Valid(r.store)
    ensures r.reply.Ok? <==> id in s.contests
    ensures !r.reply.Ok? ==> r == Response(Fail(NotFound), s)
    ensures r.reply.Ok? ==>
      r.store == s.(contests := s.contests - {id}, taskContests := WithoutRef(s.taskContests, id))
  {
    if id in s.contests then
      Response(Ok, s.(contests := s.contests - {id}, taskContests := WithoutRef(s.taskContests, id)))
    else Response(Fail(NotFound), s)
  }

  /** Deleting a contest removes exactly that contest from every task. */
  lemma DeleteContestCascades(s: Store, id: int, task: int)
    requires Valid(s) && id in s.contests
    ensures ContestIdsOf(DeleteContest(s, id).store, task) == ContestIdsOf(s, task) - {id}
    ensures TagIdsOf(DeleteContest(s, id).store, task) == TagIdsOf(s, task)
    ensures DeleteContest(s, id).store.tasks == s.tasks
  {
    var s' := DeleteContest(s, id).store;
    forall c ensures c in ContestIdsOf(s', task) <==> c in ContestIdsOf(s, task) - {id} {
      if c in ContestIdsOf(s, task) - {id} {
        assert Pair(task, c) in s'.taskContests;
      }
    }
  }

  /** `getAllContests()` row: `{ContestID, TitleRu, Year}`. */
  datatype ContestEntry = ContestEntry(id: int, title: string, year: int)

  function ContestTitle(c: ContestEntry): string {
    c.title
  }

  /** `rows` is what `SELECT * FROM Contests ORDER BY TitleRu` returns; contests that
      share a title come in no particular order. */
  ghost predicate IsContestListing(s: Store, rows: seq<ContestEntry>) {
    && SortedBy(rows, ContestTitle)
    && Distinct(rows)
    && forall c :: c in rows <==> c.id in s.contests && s.contests[c.id] == Contest(c.title, c.year)
  }

  function ContestRows(s: Store): set<ContestEntry> {
    set id | id in s.contests :: ContestEntry(id, s.contests[id].title, s.contests[id].year)
  }

  /** `getAllContests()`. */
  method ListContests(s: Store) returns (rows: seq<ContestEntry>)
    ensures IsContestListing(s, rows)
  {
    var unordered := Enumerate(ContestRows(s));
    rows := Sort(unordered, ContestTitle);
    SortKeepsElements(unordered, ContestTitle);
  }
}
