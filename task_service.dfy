/**
 * The owner-scoped task store of backend/src/services/task.service.ts.
 *
 * The task table is a sequence of rows in insertion order, with unique ids.
 * The read-only queries (`GetTaskById`, `GetTasks`) are functions over that
 * sequence. The writes are methods of `TaskStore`, each tied to a function
 * that gives its result and the table afterwards; the properties of the
 * writes (ownership, what stays unchanged, toggling twice) are proved about
 * those functions.
 */
module TaskService {
  import opened Types
  import Validators

  /** A task row. `createdAt` is the creation time as an integer. */
  datatype Task = Task(id: int, userId: int, title: string, description: Option<string>, status: Status, createdAt: int)

  /** The fields of a creation request (TaskDTO). */
  datatype TaskInput = TaskInput(title: string, description: Option<string>)

  /** The fields of an update request (UpdateTaskDTO): each one optional. */
  datatype TaskUpdate = TaskUpdate(title: Option<string>, description: Option<string>, status: Option<Status>)

  /** A listing query (TaskQueryParams), with page and limit already parsed. */
  datatype TaskQuery = TaskQuery(page: Option<int>, limit: Option<int>, status: Option<Status>, search: Option<string>)

  datatype Pagination = Pagination(page: int, limit: int, total: nat, totalPages: int)

  /** The answer to a listing: one page of tasks and the pagination summary. */
  datatype TaskPage = TaskPage(tasks: seq<Task>, pagination: Pagination)

  /** The one error the service throws, with the message 'Task not found'. */
  datatype TaskError = TaskNotFound

  /** No two rows share an id (the primary key). */
  ghost predicate UniqueIds(tasks: seq<Task>) {
    forall i, j :: 0 <= i < j < |tasks| ==> tasks[i].id != tasks[j].id
  }

  // ---------------------------------------------------------------------
  // Owner-checked lookup: findFirst({ where: { id: taskId, userId } })
  // ---------------------------------------------------------------------

  predicate IsOwned(t: Task, taskId: int, userId: int) {
    t.id == taskId && t.userId == userId
  }

  /** The position of the first row with this id and this owner, if any. */
  function FindOwned(tasks: seq<Task>, taskId: int, userId: int): (r: Option<nat>)
    ensures r.Some? ==> r.value < |tasks| && IsOwned(tasks[r.value], taskId, userId)
    ensures r.Some? ==> forall j :: 0 <= j < r.value ==> !IsOwned(tasks[j], taskId, userId)
    ensures r.None? <==> forall j :: 0 <= j < |tasks| ==> !IsOwned(tasks[j], taskId, userId)
  {
    if tasks == [] then None
    else if IsOwned(tasks[0], taskId, userId) then Some(0)
    else
      match FindOwned(tasks[1..], taskId, userId)
      case None => None
      case Some(k) => Some(k + 1)
  }

  /**
   * getTaskById: the caller's task with this id, or 'Task not found'. The
   * error is the same whether the id is unknown or owned by someone else.
   */
  function GetTaskById(tasks: seq<Task>, userId: int, taskId: int): (r: Result<Task, TaskError>)
    ensures r.Ok? <==> exists j :: 0 <= j < |tasks| && IsOwned(tasks[j], taskId, userId)
    ensures r.Ok? ==> r.value in tasks && r.value.id == taskId && r.value.userId == userId
    ensures r.Err? ==> r.error == TaskNotFound
  {
    match FindOwned(tasks, taskId, userId)
    case None => Err(TaskNotFound)
    case Some(i) => Ok(tasks[i])
  }

  /**
   * Existence is not leaked: a task id held by another user gives exactly the
   * answer an unknown id gives; with unique ids, the caller's own id gives
   * that very row.
   */
  lemma GetTaskByIdOwnership(tasks: seq<Task>, userId: int, i: nat)
    requires UniqueIds(tasks) && i < |tasks|
    ensures tasks[i].userId != userId ==> GetTaskById(tasks, userId, tasks[i].id) == Err(TaskNotFound)
    ensures tasks[i].userId == userId ==> GetTaskById(tasks, userId, tasks[i].id) == Ok(tasks[i])
  {
    var r := FindOwned(tasks, tasks[i].id, userId);
    if r.Some? {
      assert tasks[r.value].id == tasks[i].id;
      assert r.value == i;
    }
  }

  // ---------------------------------------------------------------------
  // Listing filters
  // ---------------------------------------------------------------------

  /** ASCII lower-casing of one character (the collation behind `mode: 'insensitive'`). */
  function LowerChar(c: char): char {
    if 'A' <= c <= 'Z' then (c as int + 32) as char else c
  }

  function Lower(s: string): string {
    if s == [] then [] else [LowerChar(s[0])] + Lower(s[1..])
  }

  /** Lowering works character by character and keeps the length. */
  lemma {:induction false} LowerAt(s: string)
    ensures |Lower(s)| == |s| && forall k :: 0 <= k < |s| ==> Lower(s)[k] == LowerChar(s[k])
  {
    if s != [] {
      LowerAt(s[1..]);
    }
  }

  /** `needle` occurs in `hay` starting at position `i`. */
  predicate OccursAt(hay: string, needle: string, i: int) {
    0 <= i && i + |needle| <= |hay| && hay[i..i + |needle|] == needle
  }

  /** Substring search, scanning `hay` from the left. */
  predicate Contains(hay: string, needle: string)
    decreases |hay|
  {
    (|needle| <= |hay| && hay[..|needle|] == needle)
    || (hay != [] && Contains(hay[1..], needle))
  }

  /** The scan finds `needle` exactly when it occurs somewhere in `hay`. */
  lemma {:induction false} ContainsIffOccurs(hay: string, needle: string)
    ensures Contains(hay, needle) <==> exists i :: OccursAt(hay, needle, i)
    decreases |hay|
  {
    if |needle| <= |hay| && hay[..|needle|] == needle {
      assert OccursAt(hay, needle, 0);
    } else if hay != [] {
      ContainsIffOccurs(hay[1..], needle);
      if Contains(hay[1..], needle) {
        var i :| OccursAt(hay[1..], needle, i);
        OccursShifted(hay, needle, i + 1);
      } else {
        forall i | OccursAt(hay, needle, i)
          ensures OccursAt(hay[1..], needle, i - 1)
        {
          OccursShifted(hay, needle, i);
        }
      }
    }
  }

  /** An occurrence past the first character is an occurrence in the rest. */
  lemma OccursShifted(hay: string, needle: string, i: int)
    requires hay != []
    ensures i == 0 ==> (OccursAt(hay, needle, i) <==> |needle| <= |hay| && hay[..|needle|] == needle)
    ensures i > 0 ==> (OccursAt(hay, needle, i) <==> OccursAt(hay[1..], needle, i - 1))
  {
    if i > 0 && i + |needle| <= |hay| {
      assert hay[1..][i - 1..i - 1 + |needle|] == hay[i..i + |needle|];
    }
  }

  /** Case-insensitive substring test. */
  predicate ContainsIgnoringCase(hay: string, needle: string) {
    Contains(Lower(hay), Lower(needle))
  }

  /** A literal occurrence is also found by the case-insensitive search. */
  lemma ExactOccurrenceFound(hay: string, needle: string, i: int)
    requires OccursAt(hay, needle, i)
    ensures ContainsIgnoringCase(hay, needle)
  {
    var lh, ln := Lower(hay), Lower(needle);
    LowerAt(hay);
    LowerAt(needle);
    assert lh[i..i + |needle|] == ln by {
      forall k | 0 <= k < |needle|
        ensures lh[i..i + |needle|][k] == ln[k]
      {
        assert hay[i + k] == needle[k] by {
          assert hay[i..i + |needle|][k] == hay[i + k];
        }
      }
    }
    assert OccursAt(lh, ln, i);
    ContainsIffOccurs(lh, ln);
  }

  /** `if (query.search)`: an empty search string is falsy and filters nothing. */
  predicate SearchActive(q: TaskQuery) {
    q.search.Some? && q.search.value != ""
  }

  /** The `where` of getTasks: owner, exact status, search on title OR description. */
  predicate MatchesQuery(t: Task, userId: int, q: TaskQuery) {
    && t.userId == userId
    && (q.status.Some? ==> t.status == q.status.value)
    && (SearchActive(q) ==>
          ContainsIgnoringCase(t.title, q.search.value)
          || (t.description.Some? && ContainsIgnoringCase(t.description.value, q.search.value)))
  }

  /** The rows the `where` selects, in table order (findMany before ordering). */
  function Matching(tasks: seq<Task>, userId: int, q: TaskQuery): (r: seq<Task>)
    ensures forall t :: multiset(r)[t] == if MatchesQuery(t, userId, q) then multiset(tasks)[t] else 0
    ensures forall t :: t in r <==> t in tasks && MatchesQuery(t, userId, q)
  {
    if tasks == [] then []
    else
      assert tasks == [tasks[0]] + tasks[1..];
      (if MatchesQuery(tasks[0], userId, q) then [tasks[0]] else []) + Matching(tasks[1..], userId, q)
  }

  /** task.count({ where }): the number of selected rows, counted separately. */
  function CountMatching(tasks: seq<Task>, userId: int, q: TaskQuery): (n: nat)
    ensures n == |Matching(tasks, userId, q)|
  {
    if tasks == [] then 0
    else (if MatchesQuery(tasks[0], userId, q) then 1 else 0) + CountMatching(tasks[1..], userId, q)
  }

  // ---------------------------------------------------------------------
  // orderBy: { createdAt: 'desc' }
  // ---------------------------------------------------------------------

  ghost predicate NewestFirst(s: seq<Task>) {
    forall i, j :: 0 <= i < j < |s| ==> s[i].createdAt >= s[j].createdAt
  }

  /** Putting a row no older than the head in front keeps the order. */
  lemma NewestFirstCons(x: Task, s: seq<Task>)
    requires NewestFirst(s)
    requires s != [] ==> x.createdAt >= s[0].createdAt
    ensures NewestFirst([x] + s)
  {
    var r := [x] + s;
    forall i, j | 0 <= i < j < |r| ensures r[i].createdAt >= r[j].createdAt {
      if i > 0 {
        assert r[i] == s[i - 1] && r[j] == s[j - 1];
      } else if j > 1 {
        assert s[0].createdAt >= s[j - 1].createdAt;
      }
    }
  }

  function InsertByDate(t: Task, s: seq<Task>): (r: seq<Task>)
    requires NewestFirst(s)
    ensures NewestFirst(r)
    ensures multiset(r) == multiset(s) + multiset{t}
    ensures |r| == |s| + 1
    ensures r[0] == t || (s != [] && r[0] == s[0])
  {
    if s == [] || t.createdAt >= s[0].createdAt then
      NewestFirstCons(t, s);
      [t] + s
    else
      NewestFirstTail(s);
      var rest := InsertByDate(t, s[1..]);
      InsertBehindHead(t, s, rest);
      [s[0]] + rest
  }

  /** A row older than the head goes behind it: the head then leads the rest with the row inserted. */
  lemma InsertBehindHead(t: Task, s: seq<Task>, rest: seq<Task>)
    requires NewestFirst(s) && s != [] && t.createdAt < s[0].createdAt
    requires NewestFirst(rest) && multiset(rest) == multiset(s[1..]) + multiset{t}
    requires rest != [] && (rest[0] == t || (s[1..] != [] && rest[0] == s[1..][0]))
    ensures NewestFirst([s[0]] + rest)
    ensures multiset([s[0]] + rest) == multiset(s) + multiset{t}
  {
    NewestFirstTail(s);
    NewestFirstCons(s[0], rest);
  }

  /** Dropping the newest row keeps the order, and that row is no older than the next. */
  lemma NewestFirstTail(s: seq<Task>)
    requires NewestFirst(s) && s != []
    ensures NewestFirst(s[1..])
    ensures |s| > 1 ==> s[0].createdAt >= s[1].createdAt
    ensures multiset(s) == multiset{s[0]} + multiset(s[1..])
  {
    assert s == [s[0]] + s[1..];
    forall i, j | 0 <= i < j < |s[1..]| ensures s[1..][i].createdAt >= s[1..][j].createdAt {
      assert s[1..][i] == s[i + 1] && s[1..][j] == s[j + 1];
    }
  }

  /** A stable sort, newest first; rows with equal `createdAt` keep table order. */
  function SortNewestFirst(s: seq<Task>): (r: seq<Task>)
    ensures NewestFirst(r)
    ensures multiset(r) == multiset(s)
    ensures |r| == |s|
    ensures forall t :: t in r <==> t in s
  {
    if s == [] then []
    else
      assert s == [s[0]] + s[1..];
      var r := InsertByDate(s[0], SortNewestFirst(s[1..]));
      assert forall t :: t in r <==> t in multiset(r);
      assert forall t :: t in s <==> t in multiset(s);
      r
  }

  // ---------------------------------------------------------------------
  // Pagination: skip = (page - 1) * limit, take = limit
  // ---------------------------------------------------------------------

  /** `parseInt(query.page || '1')`, the page already parsed. */
  function PageOf(q: TaskQuery): int { q.page.GetOr(1) }

  /** `parseInt(query.limit || '10')`, the limit already parsed. */
  function LimitOf(q: TaskQuery): int { q.limit.GetOr(10) }

  /** `(page - 1) * limit`: how many ordered rows come before the page. */
  function Skip(q: TaskQuery): (n: nat)
    requires PageOf(q) >= 1 && LimitOf(q) >= 1
    ensures n == (PageOf(q) - 1) * LimitOf(q)
  {
    MulMonotone(0, PageOf(q) - 1, LimitOf(q));
    (PageOf(q) - 1) * LimitOf(q)
  }

  function Min(a: int, b: int): int { if a <= b then a else b }

  /** `pages` pages of `limit` rows hold `total` rows, and one page fewer would not. */
  predicate FewestPages(pages: int, limit: int, total: int) {
    (pages - 1) * limit < total <= pages * limit
  }

  /** Math.ceil(total / limit): the fewest pages of `limit` rows that hold `total` rows. */
  function CeilDiv(total: nat, limit: int): (pages: nat)
    requires limit > 0
    ensures FewestPages(pages, limit, total)
  {
    var pages := (total + limit - 1) / limit;
    var m := (total + limit - 1) % limit;
    assert total + limit - 1 == pages * limit + m;
    pages
  }

  /** Prisma's skip/take over an ordered result: past the end there is nothing. */
  function Window(s: seq<Task>, skip: nat, take: nat): (r: seq<Task>)
    ensures |r| == if skip >= |s| then 0 else Min(take, |s| - skip)
    ensures forall k :: 0 <= k < |r| ==> r[k] == s[skip + k]
    ensures forall t :: t in r ==> t in s
    ensures NewestFirst(s) ==> NewestFirst(r)
  {
    if skip >= |s| then [] else s[skip..skip + Min(take, |s| - skip)]
  }

  /**
   * getTasks: the caller's matching tasks, newest first, one page of them;
   * `total` counts every match, not only the page. Page and limit must be
   * at least 1, which the listing validation guarantees.
   */
  function GetTasks(tasks: seq<Task>, userId: int, q: TaskQuery): (r: TaskPage)
    requires PageOf(q) >= 1 && LimitOf(q) >= 1
    ensures r.pagination.page == PageOf(q) && r.pagination.limit == LimitOf(q)
    ensures forall t :: t in r.tasks ==> t in tasks && MatchesQuery(t, userId, q)
    ensures NewestFirst(r.tasks)
    ensures r.pagination.total == |Matching(tasks, userId, q)|
    ensures |r.tasks| == Min(LimitOf(q), Max0(r.pagination.total - Skip(q)))
    ensures FewestPages(r.pagination.totalPages, LimitOf(q), r.pagination.total)
  {
    var total := CountMatching(tasks, userId, q);
    PageContents(tasks, userId, q, Skip(q), LimitOf(q));
    WindowLength(Ordered(tasks, userId, q), Skip(q), LimitOf(q), total);
    var window := Window(Ordered(tasks, userId, q), Skip(q), LimitOf(q));
    TaskPage(window, Pagination(PageOf(q), LimitOf(q), total, CeilDiv(total, LimitOf(q))))
  }

  /** A page cut from the ordered matches holds only matching tasks. */
  lemma PageContents(tasks: seq<Task>, userId: int, q: TaskQuery, skip: nat, limit: nat)
    ensures forall t :: t in Window(Ordered(tasks, userId, q), skip, limit) ==> t in tasks && MatchesQuery(t, userId, q)
  {
    var ordered := Ordered(tasks, userId, q);
    forall t | t in Window(ordered, skip, limit) ensures t in tasks && MatchesQuery(t, userId, q) {
      assert t in ordered;
    }
  }

  /** A window holds as many rows as remain after the skipped ones, up to the limit. */
  lemma WindowLength(s: seq<Task>, skip: nat, limit: nat, n: int)
    requires limit >= 1 && n == |s|
    ensures |Window(s, skip, limit)| == Min(limit, Max0(n - skip))
  {
  }

  function Max0(x: int): nat { if x < 0 then 0 else x }

  /** The ordered list of every task the query selects, before paging. */
  function Ordered(tasks: seq<Task>, userId: int, q: TaskQuery): seq<Task> {
    SortNewestFirst(Matching(tasks, userId, q))
  }

  /** The page that holds the row of rank k (counting from 0): the one whose window covers k. */
  function PageOfRank(k: nat, limit: int): (p: int)
    requires limit >= 1
    ensures p >= 1 && (p - 1) * limit <= k < (p - 1) * limit + limit
  {
    RankSplits(k, limit);
    k / limit + 1
  }

  /** Rank k sits at offset k % limit past the start (k / limit) * limit of its page. */
  lemma RankSplits(k: nat, limit: int)
    requires limit >= 1
    ensures k == (k / limit) * limit + k % limit && 0 <= k % limit < limit && k / limit >= 0
  {
  }

  /**
   * The page whose window starts at or before rank k and ends after it
   * shows the task of rank k (newest first) at offset k - skip.
   */
  lemma MatchOnItsPage(tasks: seq<Task>, userId: int, q: TaskQuery, k: nat)
    requires PageOf(q) >= 1 && LimitOf(q) >= 1
    requires k < |Ordered(tasks, userId, q)|
    requires Skip(q) <= k < Skip(q) + LimitOf(q)
    ensures k - Skip(q) < |GetTasks(tasks, userId, q).tasks|
    ensures GetTasks(tasks, userId, q).tasks[k - Skip(q)] == Ordered(tasks, userId, q)[k]
  {
    assert GetTasks(tasks, userId, q).tasks == Window(Ordered(tasks, userId, q), Skip(q), LimitOf(q));
  }

  /**
   * Paging loses no task: the match of rank k (newest first) is listed on
   * page PageOfRank(k, limit), at offset k - skip, whatever page was asked.
   */
  lemma EveryMatchIsListed(tasks: seq<Task>, userId: int, q: TaskQuery, k: nat)
    requires LimitOf(q) >= 1
    requires k < |Ordered(tasks, userId, q)|
    ensures var q' := q.(page := Some(PageOfRank(k, LimitOf(q))));
      && PageOf(q') >= 1
      && Skip(q') <= k < Skip(q') + LimitOf(q')
      && k - Skip(q') < |GetTasks(tasks, userId, q').tasks|
      && GetTasks(tasks, userId, q').tasks[k - Skip(q')] == Ordered(tasks, userId, q)[k]
  {
    var q' := q.(page := Some(PageOfRank(k, LimitOf(q))));
    RankOnItsPage(q, k);
    MatchingIgnoresPaging(tasks, userId, q, q');
    assert Ordered(tasks, userId, q') == Ordered(tasks, userId, q);
    MatchOnItsPage(tasks, userId, q', k);
  }

  /** Page PageOfRank(k, limit) is the one whose window covers rank k. */
  lemma RankOnItsPage(q: TaskQuery, k: nat)
    requires LimitOf(q) >= 1
    ensures var q' := q.(page := Some(PageOfRank(k, LimitOf(q))));
      && PageOf(q') >= 1 && LimitOf(q') == LimitOf(q)
      && Skip(q') <= k < Skip(q') + LimitOf(q')
  {
  }

  /** Every page that starts at or before the last match is within totalPages. */
  lemma PageOfMatchWithinTotal(tasks: seq<Task>, userId: int, q: TaskQuery, k: nat)
    requires PageOf(q) >= 1 && LimitOf(q) >= 1
    requires k < GetTasks(tasks, userId, q).pagination.total
    requires Skip(q) <= k
    ensures PageOf(q) <= GetTasks(tasks, userId, q).pagination.totalPages
  {
    var p := GetTasks(tasks, userId, q).pagination;
    assert p.totalPages == CeilDiv(p.total, LimitOf(q));
    PageCoversRank(k, q, p.total);
  }

  /** A rank below total at or after the page's start lies on a page no later than the last one. */
  lemma PageCoversRank(k: nat, q: TaskQuery, total: nat)
    requires PageOf(q) >= 1 && LimitOf(q) >= 1
    requires Skip(q) <= k < total
    ensures PageOf(q) <= CeilDiv(total, LimitOf(q))
  {
    var limit, pages := LimitOf(q), CeilDiv(total, LimitOf(q));
    if pages < PageOf(q) {
      MulMonotone(pages, PageOf(q) - 1, limit);
    }
  }

  lemma MulMonotone(a: int, b: int, c: nat)
    requires a <= b
    ensures a * c <= b * c
  {
  }

  /** The filter reads only owner, status and search, never page or limit. */
  lemma {:induction false} MatchingIgnoresPaging(tasks: seq<Task>, userId: int, q: TaskQuery, q': TaskQuery)
    requires q.status == q'.status && SearchActive(q) == SearchActive(q')
    requires SearchActive(q) ==> q.search == q'.search
    ensures Matching(tasks, userId, q) == Matching(tasks, userId, q')
  {
    if tasks != [] {
      assert MatchesQuery(tasks[0], userId, q) == MatchesQuery(tasks[0], userId, q');
      MatchingIgnoresPaging(tasks[1..], userId, q, q');
    }
  }

  /** An empty search string lists exactly what no search lists. */
  lemma EmptySearchFiltersNothing(tasks: seq<Task>, userId: int, q: TaskQuery)
    requires PageOf(q) >= 1 && LimitOf(q) >= 1
    ensures GetTasks(tasks, userId, q.(search := Some(""))) == GetTasks(tasks, userId, q.(search := None))
  {
    var q1, q2 := q.(search := Some("")), q.(search := None);
    MatchingIgnoresPaging(tasks, userId, q1, q2);
    assert Ordered(tasks, userId, q1) == Ordered(tasks, userId, q2);
    assert CountMatching(tasks, userId, q1) == CountMatching(tasks, userId, q2);
    assert Skip(q1) == Skip(q2);
  }

  /** A user who owns no task sees an empty listing with total 0, whatever others own. */
  lemma OwnerWithoutTasksSeesNothing(tasks: seq<Task>, userId: int, q: TaskQuery)
    requires PageOf(q) >= 1 && LimitOf(q) >= 1
    requires forall t :: t in tasks ==> t.userId != userId
    ensures GetTasks(tasks, userId, q).tasks == []
    ensures GetTasks(tasks, userId, q).pagination.total == 0
  {
  }

  /** The listing validation bounds a query so that skip >= 0 and a page holds at most 100 tasks. */
  lemma ValidatedQueryBounds(raw: Validators.RawTaskQuery, tasks: seq<Task>, userId: int)
    requires Validators.TaskQueryErrors(raw) == []
    ensures var q := FromRaw(raw);
      && PageOf(q) >= 1 && 1 <= LimitOf(q) <= 100
      && (PageOf(q) - 1) * LimitOf(q) >= 0
      && |GetTasks(tasks, userId, q).tasks| <= 100
  {
    var q := FromRaw(raw);
    MulMonotone(0, PageOf(q) - 1, LimitOf(q));
  }

  /** The typed query the controller passes once the listing validation has passed. */
  function FromRaw(raw: Validators.RawTaskQuery): (q: TaskQuery)
    ensures Validators.TaskQueryErrors(raw) == [] && raw.status.Some? ==>
      q.status.Some? && StatusName(q.status.value) == raw.status.value
    ensures raw.status.None? ==> q.status.None?
  {
    TaskQuery(raw.page, raw.limit,
      if raw.status.Some? then ParseStatus(raw.status.value) else None,
      raw.search)
  }

  // ---------------------------------------------------------------------
  // Writes, as functions from the table before to the result and table after
  // ---------------------------------------------------------------------

  /** createTask's new row: owner is the caller, status the schema default PENDING. */
  function NewTask(id: int, userId: int, data: TaskInput, now: int): (t: Task)
    ensures t.userId == userId && t.title == data.title && t.description == data.description
    ensures t.status == Pending && t.id == id
  {
    Task(id, userId, data.title, data.description, Pending, now)
  }

  /** The fields an update names, written over a row; the others are kept. */
  function Patched(t: Task, data: TaskUpdate): (r: Task)
    ensures r.id == t.id && r.userId == t.userId && r.createdAt == t.createdAt
    ensures r.title == (if data.title.Some? then data.title.value else t.title)
    ensures r.description == (if data.description.Some? then data.description else t.description)
    ensures r.status == (if data.status.Some? then data.status.value else t.status)
    ensures data == TaskUpdate(None, None, None) ==> r == t
  {
    t.(title := data.title.GetOr(t.title),
       description := if data.description.Some? then data.description else t.description,
       status := data.status.GetOr(t.status))
  }

  /** PENDING becomes COMPLETED; anything else becomes PENDING. */
  function Flipped(s: Status): (r: Status)
    ensures r != s
  {
    if s == Pending then Completed else Pending
  }

  lemma FlippedTwice(s: Status)
    ensures Flipped(Flipped(s)) == s
  {
  }

  /**
   * updateTask on a table: 'Task not found' and no change unless the caller
   * owns the id; otherwise only that row changes, to its patched version.
   */
  function UpdateInTable(tasks: seq<Task>, userId: int, taskId: int, data: TaskUpdate): (r: (Result<Task, TaskError>, seq<Task>))
    ensures FindOwned(tasks, taskId, userId).None? ==> r == (Err(TaskNotFound), tasks)
    ensures FindOwned(tasks, taskId, userId).Some? ==>
      var i := FindOwned(tasks, taskId, userId).value;
      && r.0 == Ok(Patched(tasks[i], data))
      && |r.1| == |tasks| && r.1[i] == Patched(tasks[i], data)
      && forall j :: 0 <= j < |tasks| && j != i ==> r.1[j] == tasks[j]
    ensures forall j :: 0 <= j < |tasks| && tasks[j].userId != userId ==> r.1[j] == tasks[j]
  {
    match FindOwned(tasks, taskId, userId)
    case None => (Err(TaskNotFound), tasks)
    case Some(i) =>
      var t := Patched(tasks[i], data);
      (Ok(t), tasks[i := t])
  }

  /** toggleTaskStatus on a table: only the caller's row with that id flips status. */
  function ToggleInTable(tasks: seq<Task>, userId: int, taskId: int): (r: (Result<Task, TaskError>, seq<Task>))
    ensures FindOwned(tasks, taskId, userId).None? ==> r == (Err(TaskNotFound), tasks)
    ensures FindOwned(tasks, taskId, userId).Some? ==>
      var i := FindOwned(tasks, taskId, userId).value;
      && |r.1| == |tasks| && r.0 == Ok(r.1[i])
      && r.1[i].status != tasks[i].status
      && r.1[i] == tasks[i].(status := r.1[i].status)
      && forall j :: 0 <= j < |tasks| && j != i ==> r.1[j] == tasks[j]
  {
    match FindOwned(tasks, taskId, userId)
    case None => (Err(TaskNotFound), tasks)
    case Some(i) =>
      var t := tasks[i].(status := Flipped(tasks[i].status));
      (Ok(t), tasks[i := t])
  }

  /** Toggling the same task twice restores the whole table. */
  lemma ToggleTwiceRestores(tasks: seq<Task>, userId: int, taskId: int)
    ensures ToggleInTable(ToggleInTable(tasks, userId, taskId).1, userId, taskId).1 == tasks
  {
    var once := ToggleInTable(tasks, userId, taskId).1;
    match FindOwned(tasks, taskId, userId)
    case None =>
    case Some(i) =>
      var f := FindOwned(once, taskId, userId);
      assert IsOwned(once[i], taskId, userId);
      assert f.Some?;
      assert f.value == i;
      FlippedTwice(tasks[i].status);
  }

  /** deleteTask on a table: the caller's row with that id is removed and nothing else. */
  function DeleteInTable(tasks: seq<Task>, userId: int, taskId: int): (r: (Result<(), TaskError>, seq<Task>))
    ensures FindOwned(tasks, taskId, userId).None? ==> r == (Err(TaskNotFound), tasks)
    ensures FindOwned(tasks, taskId, userId).Some? ==>
      var i := FindOwned(tasks, taskId, userId).value;
      && r.0 == Ok(())
      && multiset(r.1) == multiset(tasks) - multiset{tasks[i]}
      && r.1 == tasks[..i] + tasks[i + 1..]
  {
    match FindOwned(tasks, taskId, userId)
    case None => (Err(TaskNotFound), tasks)
    case Some(i) =>
      assert tasks == tasks[..i] + [tasks[i]] + tasks[i + 1..];
      (Ok(()), tasks[..i] + tasks[i + 1..])
  }

  /** With unique ids, a successful delete leaves exactly the rows with other ids. */
  lemma DeleteRemovesOnlyTarget(tasks: seq<Task>, userId: int, taskId: int)
    requires UniqueIds(tasks)
    requires FindOwned(tasks, taskId, userId).Some?
    ensures forall t :: t in DeleteInTable(tasks, userId, taskId).1 <==> t in tasks && t.id != taskId
  {
    var i := FindOwned(tasks, taskId, userId).value;
    assert tasks[i].id == taskId;
    forall t ensures t in tasks[..i] + tasks[i + 1..] <==> t in tasks && t.id != taskId {
      RemoveAt(tasks, i, t);
    }
  }

  /** Dropping row `i` of a table with unique ids leaves exactly the rows with other ids. */
  lemma RemoveAt(tasks: seq<Task>, i: nat, t: Task)
    requires UniqueIds(tasks) && i < |tasks|
    ensures t in tasks[..i] + tasks[i + 1..] <==> t in tasks && t.id != tasks[i].id
  {
    var after := tasks[..i] + tasks[i + 1..];
    if t in after {
      var k :| 0 <= k < |after| && after[k] == t;
      if k < i { assert after[k] == tasks[k]; } else { assert after[k] == tasks[k + 1]; }
    }
    if t in tasks && t.id != tasks[i].id {
      var k :| 0 <= k < |tasks| && tasks[k] == t;
      if k < i { assert after[k] == t; } else { assert after[k - 1] == t; }
    }
  }

  // ---------------------------------------------------------------------
  // The store
  // ---------------------------------------------------------------------

  /** The task table, updated in place by the service's writes. */
  class TaskStore {
    var tasks: seq<Task>
    var nextId: int

    /** Ids are unique and below the next id the table will hand out. */
    ghost predicate Valid()
      reads this
    {
      UniqueIds(tasks) && forall i :: 0 <= i < |tasks| ==> tasks[i].id < nextId
    }

    constructor ()
      ensures Valid() && tasks == [] && nextId == 1
    {
      tasks := [];
      nextId := 1;
    }

    /** createTask: a new row with a fresh id, owned by the caller, appended to the table. */
    method CreateTask(userId: int, data: TaskInput, now: int) returns (t: Task)
      requires Valid()
      modifies this
      ensures Valid()
      ensures t == NewTask(old(nextId), userId, data, now)
      ensures tasks == old(tasks) + [t] && nextId == old(nextId) + 1
      ensures forall u :: u in old(tasks) ==> u.id != t.id
    {
      t := NewTask(nextId, userId, data, now);
      tasks := tasks + [t];
      nextId := nextId + 1;
    }

    /** updateTask: owner-checked; writes only the fields the update names. */
    method UpdateTask(userId: int, taskId: int, data: TaskUpdate) returns (r: Result<Task, TaskError>)
      requires Valid()
      modifies this
      ensures Valid() && nextId == old(nextId)
      ensures (r, tasks) == UpdateInTable(old(tasks), userId, taskId, data)
    {
      var found := FindOwned(tasks, taskId, userId);
      if found.None? {
        r := Err(TaskNotFound);
        return;
      }
      var i := found.value;
      var t := Patched(tasks[i], data);
      tasks := tasks[i := t];
      r := Ok(t);
    }

    /** deleteTask: owner-checked; removes the row. */
    method DeleteTask(userId: int, taskId: int) returns (r: Result<(), TaskError>)
      requires Valid()
      modifies this
      ensures Valid() && nextId == old(nextId)
      ensures (r, tasks) == DeleteInTable(old(tasks), userId, taskId)
    {
      var found := FindOwned(tasks, taskId, userId);
      if found.None? {
        r := Err(TaskNotFound);
        return;
      }
      var i := found.value;
      tasks := tasks[..i] + tasks[i + 1..];
      r := Ok(());
    }

    /** toggleTaskStatus: owner-checked; flips PENDING and COMPLETED. */
    method ToggleTaskStatus(userId: int, taskId: int) returns (r: Result<Task, TaskError>)
      requires Valid()
      modifies this
      ensures Valid() && nextId == old(nextId)
      ensures (r, tasks) == ToggleInTable(old(tasks), userId, taskId)
    {
      var found := FindOwned(tasks, taskId, userId);
      if found.None? {
        r := Err(TaskNotFound);
        return;
      }
      var i := found.value;
      var t := tasks[i].(status := Flipped(tasks[i].status));
      tasks := tasks[i := t];
      r := Ok(t);
    }
  }
}
