/** Stand-in for the bcrypt library: a salted digest and its verification. The model
    relies on one fact about it, `HashThenVerify`; salting, cost and the digest
    function itself are not modelled. */
module Bcrypt {

  /** A salted password hash as stored in `Users.PasswordHash`. */
  datatype Digest = Digest(salt: int, secret: string)

  /** `bcrypt.hashSync(password, saltRounds)`; the salt is drawn by the caller. */
  function Hash(password: string, salt: int): Digest {
    Digest(salt, password)
  }

  /** `bcrypt.compareSync(password, digest)`. */
  predicate Verify(password: string, digest: Digest) {
    digest.secret == password
  }

  /** A password verifies against any hash made from it, whatever the salt. */
  lemma HashThenVerify(password: string, salt: int)
    ensures Verify(password, Hash(password, salt))
  {
  }
}

/** The relational schema created by `initDatabase` (database.js): four entity tables,
    two association tables, and the constraints SQLite enforces on them, stated as
    the invariant `Valid`. Rows are immutable values; the store is a record of them. */
module Schema {
  import opened Basics
  import opened Text
  import opened Bcrypt

  /** `Users.Role`, restricted by `CHECK(Role IN ('admin', 'user'))`. */
  datatype Role = Admin | User

  /** One `Tasks` row, without its `TaskID` key. `IsCFReady` and `IsYCReady` are stored
      as 0/1 and read here as booleans; `Difficulty` may be NULL. */
  datatype TaskRow = TaskRow(
    title: string,
    difficulty: Option<int>,
    link: string,
    cfReady: bool,
    ycReady: bool,
    condition: string,
    idea: string,
    note: string)

  /** One `Contests` row, without its `ContestID` key. */
  datatype Contest = Contest(title: string, year: int)

  /** One `Tags` row, without its `TagID` key. */
  datatype Tag = Tag(title: string)

  /** One `Users` row, keyed by its unique `Username`. */
  datatype Account = Account(hash: Digest, role: Role)

  /** One row of `TaskTag` (`ref` is a `TagID`) or of `TaskContest` (`ref` is a
      `ContestID`); the pair is the table's primary key. */
  datatype Pair = Pair(task: int, ref: int)

  /** The whole database. `last*` are the AUTOINCREMENT counters SQLite keeps in
      `sqlite_sequence`: the largest id ever handed out in each table. */
  datatype Store = Store(
    tasks: map<int, TaskRow>,
    tags: map<int, Tag>,
    contests: map<int, Contest>,
    users: map<string, Account>,
    taskTags: set<Pair>,
    taskContests: set<Pair>,
    lastTaskId: int,
    lastTagId: int,
    lastContestId: int)

  /** What a repository operation reports. `LinkTaken`, `TagTitleTaken` and
      `ContestTaken` are the specific messages `database.js` builds for a UNIQUE
      violation; `DbError` is any other failure reported through `error.message`. */
  datatype Failure = LinkTaken | TagTitleTaken | ContestTaken | NotFound | DbError

  datatype Reply = Ok | Fail(why: Failure)

  /** The reply of a writing operation together with the store after it. */
  datatype Response = Response(reply: Reply, store: Store)

  /** The substring whose presence in a link marks a task ready for Codeforces. */
  const CodeforcesMarker := "codeforces.com"

  /** The CF-ready flag every write derives from the link:
      `link ? link.includes('codeforces.com') : false`. */
  predicate CfReadyFor(link: string) {
    if link == "" then false else Contains(link, CodeforcesMarker)
  }

  /** `CHECK(Difficulty BETWEEN 1 AND 10)`; a NULL passes a CHECK. */
  predicate DifficultyAllowed(d: Option<int>) {
    d.None? || 1 <= d.value <= 10
  }

  /** Association pairs other than those of task `id`. */
  function WithoutTask(pairs: set<Pair>, id: int): set<Pair> {
    set p | p in pairs && p.task != id
  }

  /** Association pairs other than those pointing at tag or contest `ref`. */
  function WithoutRef(pairs: set<Pair>, ref: int): set<Pair> {
    set p | p in pairs && p.ref != ref
  }

  /** The `TagID`s attached to task `id`. */
  function TagIdsOf(s: Store, id: int): set<int> {
    set p | p in s.taskTags && p.task == id :: p.ref
  }

  /** The `ContestID`s attached to task `id`. */
  function ContestIdsOf(s: Store, id: int): set<int> {
    set p | p in s.taskContests && p.task == id :: p.ref
  }

  // ---------------------------------------------------------------------------
  // The invariant: schema constraints, plus facts every write path maintains
  // ---------------------------------------------------------------------------

  /** `PolygonLink TEXT UNIQUE`. The application never writes NULL there (an absent
      link defaults to ''), so every pair of tasks has distinct links. */
  ghost predicate LinksUnique(s: Store) {
    forall a, b :: a in s.tasks && b in s.tasks && a != b ==> s.tasks[a].link != s.tasks[b].link
  }

  ghost predicate DifficultiesInRange(s: Store) {
    forall id :: id in s.tasks ==> DifficultyAllowed(s.tasks[id].difficulty)
  }

  /** Not a schema constraint: every write recomputes `IsCFReady` from the link. */
  ghost predicate CfFlagsDerived(s: Store) {
    forall id :: id in s.tasks ==> s.tasks[id].cfReady == CfReadyFor(s.tasks[id].link)
  }

  /** `Title TEXT NOT NULL UNIQUE` on `Tags`. */
  ghost predicate TagTitlesUnique(s: Store) {
    forall a, b :: a in s.tags && b in s.tags && a != b ==> s.tags[a].title != s.tags[b].title
  }

  /** `UNIQUE(TitleRu, Year)` on `Contests`. */
  ghost predicate ContestsUnique(s: Store) {
    forall a, b :: a in s.contests && b in s.contests && a != b ==> s.contests[a] != s.contests[b]
  }

  /** AUTOINCREMENT hands out ids from 1 upwards and never reuses one. */
  ghost predicate IdsAllocated(s: Store) {
    && 0 <= s.lastTaskId && 0 <= s.lastTagId && 0 <= s.lastContestId
    && (forall id :: id in s.tasks ==> 1 <= id <= s.lastTaskId)
    && (forall id :: id in s.tags ==> 1 <= id <= s.lastTagId)
    && (forall id :: id in s.contests ==> 1 <= id <= s.lastContestId)
  }

  /** The FOREIGN KEY clauses of `TaskTag` and `TaskContest`: no dangling pair. */
  ghost predicate PairsReferenceRows(s: Store) {
    && (forall p :: p in s.taskTags ==> p.task in s.tasks && p.ref in s.tags)
    && (forall p :: p in s.taskContests ==> p.task in s.tasks && p.ref in s.contests)
  }

  /** The seeded `admin` account has role admin, and no operation changes a role. */
  ghost predicate AdminIsAdmin(s: Store) {
    "admin" in s.users ==> s.users["admin"].role == Admin
  }

  /** Every store the application can reach satisfies this. */
  ghost predicate Valid(s: Store) {
    && LinksUnique(s)
    && DifficultiesInRange(s)
    && CfFlagsDerived(s)
    && TagTitlesUnique(s)
    && ContestsUnique(s)
    && IdsAllocated(s)
    && PairsReferenceRows(s)
    && AdminIsAdmin(s)
  }

  /** The CF-ready flag holds exactly when the marker occurs somewhere in the link;
      the empty-link guard in `database.js` changes nothing. */
  lemma CfReadyMeansMarkerOccurs(link: string)
    ensures CfReadyFor(link) <==> exists i :: OccursAt(link, CodeforcesMarker, i)
  {
    ContainsIffOccurs(link, CodeforcesMarker);
    if link == "" {
      EmptyContainsNothing(CodeforcesMarker);
    }
  }
}
