/**
 * The pure part of the route handlers of src/worker/index.ts: request
 * bodies as the zod schemas accept them, the lookups the handlers make,
 * the rows they build and the lists they return.
 */
module Queries {
  import opened Wrappers
  import opened Seqs
  import opened Schema

  // ------------------------------------------------------ request bodies

  /** `createTaskSchema` (index.ts:23-31); an absent field is None. */
  datatype NewTask = NewTask(
    title: string, description: Option<string>, status: Option<TaskStatus>,
    priority: Option<TaskPriority>, teamId: Option<Id>, assigneeId: Option<Id>,
    timeLimit: Option<int>)

  /** `updateTaskSchema` (index.ts:33-40); an absent field is None. */
  datatype TaskPatch = TaskPatch(
    title: Option<string>, description: Option<string>, status: Option<TaskStatus>,
    priority: Option<TaskPriority>, assigneeId: Option<Id>, timeLimit: Option<int>)

  /** `updateSubtaskSchema` (index.ts:57-61). */
  datatype SubtaskPatch = SubtaskPatch(title: Option<string>, completed: Option<bool>, order: Option<int>)

  /** `createAttachmentSchema` (index.ts:46-51). */
  datatype AttachmentInput = AttachmentInput(fileName: string, fileUrl: string, fileType: string, fileSize: Option<int>)

  /** The zod schemas refuse an empty title; every other field is optional. */
  predicate ValidNewTask(b: NewTask) { b.title != "" }
  predicate ValidTaskPatch(p: TaskPatch) { p.title != Some("") }
  predicate ValidSubtaskPatch(p: SubtaskPatch) { p.title != Some("") }

  /** JavaScript truthiness of an optional string: absent and "" are both false. */
  predicate Truthy(s: Option<string>) { s.Some? && s.value != "" }

  // ------------------------------------------------------------- lookups

  function IsMembershipOf(teamId: Id, userId: Id): Membership -> bool {
    (m: Membership) => m.teamId == teamId && m.userId == userId
  }

  /** The first membership row of a user in a team, as the lookup of index.ts:122 reads it. */
  function FindMembership(members: seq<Membership>, teamId: Id, userId: Id): (r: Option<Membership>)
    ensures r.Some? ==> r.value in members && r.value.teamId == teamId && r.value.userId == userId
    ensures r.None? <==> forall m :: m in members ==> !(m.teamId == teamId && m.userId == userId)
  {
    FindFirst(members, IsMembershipOf(teamId, userId))
  }

  function FindTask(tasks: seq<Task>, id: Id): (r: Option<Task>)
    ensures r.Some? ==> r.value in tasks && r.value.id == id
    ensures r.None? <==> !TaskExists(tasks, id)
  {
    FindFirst(tasks, IsTask(id))
  }

  function IsSubtask(id: Id): Subtask -> bool {
    (s: Subtask) => s.id == id
  }

  function FindSubtask(subtasks: seq<Subtask>, id: Id): (r: Option<Subtask>)
    ensures r.Some? ==> r.value in subtasks && r.value.id == id
    ensures r.None? <==> forall s :: s in subtasks ==> s.id != id
  {
    FindFirst(subtasks, IsSubtask(id))
  }

  function FindUser(users: seq<User>, id: Id): (r: Option<User>)
    ensures r.Some? ==> r.value in users && r.value.id == id
    ensures r.None? <==> !UserExists(users, id)
  {
    FindFirst(users, (u: User) => u.id == id)
  }

  function FindUserByEmail(users: seq<User>, email: string): (r: Option<User>)
    ensures r.Some? ==> r.value in users && r.value.email == email
    ensures r.None? <==> forall u :: u in users ==> u.email != email
  {
    FindFirst(users, (u: User) => u.email == email)
  }

  function FindTeam(teams: seq<Team>, id: Id): (r: Option<Team>)
    ensures r.Some? ==> r.value in teams && r.value.id == id
    ensures r.None? <==> !TeamExists(teams, id)
  {
    FindFirst(teams, (t: Team) => t.id == id)
  }

  /** Under unique team ids, the lookup finds the one team with that id. */
  lemma FindTeamUnique(teams: seq<Team>, t: Team)
    requires Pairwise(teams, TeamsApart) && t in teams
    ensures FindTeam(teams, t.id) == Some(t)
  {
    var f := FindTeam(teams, t.id).value;
    var i, j :| 0 <= i < |teams| && 0 <= j < |teams| && teams[i] == f && teams[j] == t;
    assert i == j || (i < j && TeamsApart(teams[i], teams[j])) || (j < i && TeamsApart(teams[j], teams[i]));
  }

  /** The join of index.ts:136: some member of the team has a user row with this email. */
  predicate TeamHasEmail(members: seq<Membership>, users: seq<User>, teamId: Id, email: string) {
    exists m, u :: m in members && u in users && m.teamId == teamId && m.userId == u.id && u.email == email
  }

  /** The gate of index.ts:134-135: the caller is an owner or admin of the team. */
  predicate CanInvite(members: seq<Membership>, teamId: Id, userId: Id) {
    match FindMembership(members, teamId, userId)
    case Some(m) => m.role != Member
    case None => false
  }

  /** Under one membership per (team, user), the lookup finds the one membership of that pair. */
  lemma FindMembershipUnique(members: seq<Membership>, m: Membership)
    requires Pairwise(members, MembershipsApart) && m in members
    ensures FindMembership(members, m.teamId, m.userId) == Some(m)
  {
    var f := FindMembership(members, m.teamId, m.userId).value;
    var i, j :| 0 <= i < |members| && 0 <= j < |members| && members[i] == f && members[j] == m;
    assert i == j || (i < j && MembershipsApart(members[i], members[j])) || (j < i && MembershipsApart(members[j], members[i]));
  }

  /** The gate admits a caller exactly when they hold an owner or admin membership of the team. */
  lemma CanInviteIff(members: seq<Membership>, teamId: Id, userId: Id)
    requires Pairwise(members, MembershipsApart)
    ensures CanInvite(members, teamId, userId) <==>
      exists m :: m in members && m.teamId == teamId && m.userId == userId && m.role != Member
  {
    if m :| m in members && m.teamId == teamId && m.userId == userId && m.role != Member {
      FindMembershipUnique(members, m);
    }
  }

  /**
   * With unique emails, the email is already in the team exactly when the
   * user the invite looks up by that email (index.ts:142) is a member.
   */
  lemma TeamHasEmailIff(members: seq<Membership>, users: seq<User>, teamId: Id, email: string)
    requires Pairwise(users, UsersApart)
    ensures TeamHasEmail(members, users, teamId, email) <==>
      && FindUserByEmail(users, email).Some?
      && exists m :: m in members && m.teamId == teamId && m.userId == FindUserByEmail(users, email).value.id
  {
    if TeamHasEmail(members, users, teamId, email) {
      var m, u :| m in members && u in users && m.teamId == teamId && m.userId == u.id && u.email == email;
      var f := FindUserByEmail(users, email).value;
      var i, j :| 0 <= i < |users| && 0 <= j < |users| && users[i] == f && users[j] == u;
      assert i == j || (i < j && UsersApart(users[i], users[j])) || (j < i && UsersApart(users[j], users[i]));
    }
  }

  /** When no member of the team has `email`, the user with that email has no membership in it. */
  lemma NotInTeamJoins(members: seq<Membership>, users: seq<User>, teamId: Id, email: string, u: User, joined: Membership)
    requires !TeamHasEmail(members, users, teamId, email)
    requires u in users && u.email == email
    requires joined.teamId == teamId && joined.userId == u.id
    requires forall m :: m in members ==> m.id != joined.id
    ensures forall m :: m in members ==> MembershipsApart(m, joined)
  {
    assert forall m :: m in members && m.teamId == teamId && m.userId == u.id ==> TeamHasEmail(members, users, teamId, email);
  }

  // ---------------------------------------------------------- task lists

  /** The tasks of a team (index.ts:170). */
  function TeamTasks(tasks: seq<Task>, teamId: Id): (r: seq<Task>)
    ensures forall t :: t in r <==> t in tasks && t.teamId == Some(teamId)
    ensures forall t :: multiset(r)[t] == if t.teamId == Some(teamId) then multiset(tasks)[t] else 0
  {
    FilterCount(tasks, (t: Task) => t.teamId == Some(teamId));
    Filter(tasks, (t: Task) => t.teamId == Some(teamId))
  }

  /** The caller's own tasks that belong to no team (index.ts:175). */
  function PersonalTasks(tasks: seq<Task>, userId: Id): (r: seq<Task>)
    ensures forall t :: t in r <==> t in tasks && t.userId == userId && t.teamId.None?
    ensures forall t :: multiset(r)[t] == if t.userId == userId && t.teamId.None? then multiset(tasks)[t] else 0
  {
    FilterCount(tasks, (t: Task) => t.userId == userId && t.teamId.None?);
    Filter(tasks, (t: Task) => t.userId == userId && t.teamId.None?)
  }

  /** A task as the GET routes return it: a missing priority reads as medium (index.ts:172, 177, 189). */
  function WithDefaultPriority(t: Task): (r: Task)
    ensures r.priority.Some?
    ensures t.priority.Some? ==> r == t
    ensures t.priority.None? ==> r.priority == Some(Medium)
    ensures r.(priority := t.priority) == t
  {
    t.(priority := Some(t.priority.GetOr(DefaultPriority)))
  }

  /**
   * The read-side priority default applied to a list (index.ts:172, 177):
   * the same rows in the same order, each with a priority, which is the
   * stored one when present and "medium" otherwise; only `priority` changes.
   */
  function WithDefaultPriorities(ts: seq<Task>): (r: seq<Task>)
    ensures |r| == |ts|
    ensures forall i :: 0 <= i < |ts| ==> r[i].priority.Some?
    ensures forall i :: 0 <= i < |ts| ==> r[i].(priority := ts[i].priority) == ts[i]
    ensures forall i :: 0 <= i < |ts| ==> ts[i].priority.Some? ==> r[i] == ts[i]
    ensures forall i :: 0 <= i < |ts| ==> ts[i].priority.None? ==> r[i].priority == Some(Medium)
    ensures forall t :: t in r <==> exists s :: s in ts && t == WithDefaultPriority(s)
    decreases |ts|
  {
    if ts == [] then []
    else
      var rest := WithDefaultPriorities(ts[1..]);
      var r := [WithDefaultPriority(ts[0])] + rest;
      assert forall s :: s in ts <==> s == ts[0] || s in ts[1..];
      assert forall t :: t in r <==> t == r[0] || t in rest;
      assert forall i :: 0 < i < |ts| ==> r[i] == rest[i - 1] && ts[i] == ts[1..][i - 1];
      r
  }

  // ------------------------------------------------------- rows written

  /**
   * The row `POST /api/tasks` inserts (index.ts:204-216): the caller owns
   * it, status and priority take the zod defaults ("todo", "medium"), an
   * absent description, team, assignee or time limit is stored as NULL,
   * and both timestamps are the current time.
   */
  function NewTaskRow(b: NewTask, id: Id, userId: Id, now: Time): (r: Task)
    ensures r.id == id && r.title == b.title && r.userId == userId
    ensures b.status.None? ==> r.status == Todo
    ensures b.status.Some? ==> r.status == b.status.value
    ensures r.priority.Some?
    ensures b.priority.None? ==> r.priority == Some(Medium)
    ensures b.priority.Some? ==> r.priority == b.priority
    ensures r.description == b.description && r.teamId == b.teamId
    ensures r.assigneeId == b.assigneeId && r.timeLimit == b.timeLimit && r.dueDate.None?
    ensures r.createdAt == now && r.updatedAt == now
  {
    Task(id, b.title, b.description, b.status.GetOr(DefaultStatus),
         Some(b.priority.GetOr(DefaultPriority)), userId, b.teamId,
         b.assigneeId, b.timeLimit, None, now, now)
  }

  /**
   * The ledger's view of the patched task, the row spread with the body
   * (index.ts:240): a field present in the body replaces the row's, an
   * absent one leaves it; the fields the body cannot carry (id, owner,
   * team, due date, timestamps) are the row's.
   */
  function MergePatch(t: Task, p: TaskPatch): (r: Task)
    ensures p.title.Some? ==> r.title == p.title.value
    ensures p.title.None? ==> r.title == t.title
    ensures p.description.Some? ==> r.description == p.description
    ensures p.description.None? ==> r.description == t.description
    ensures p.status.Some? ==> r.status == p.status.value
    ensures p.status.None? ==> r.status == t.status
    ensures p.priority.Some? ==> r.priority == p.priority
    ensures p.priority.None? ==> r.priority == t.priority
    ensures p.assigneeId.Some? ==> r.assigneeId == p.assigneeId
    ensures p.assigneeId.None? ==> r.assigneeId == t.assigneeId
    ensures p.timeLimit.Some? ==> r.timeLimit == p.timeLimit
    ensures p.timeLimit.None? ==> r.timeLimit == t.timeLimit
    ensures r.id == t.id && r.userId == t.userId && r.teamId == t.teamId && r.dueDate == t.dueDate
    ensures r.createdAt == t.createdAt && r.updatedAt == t.updatedAt
  {
    t.(title := p.title.GetOr(t.title),
       description := if p.description.Some? then p.description else t.description,
       status := p.status.GetOr(t.status),
       priority := if p.priority.Some? then p.priority else t.priority,
       assigneeId := if p.assigneeId.Some? then p.assigneeId else t.assigneeId,
       timeLimit := if p.timeLimit.Some? then p.timeLimit else t.timeLimit)
  }

  /** The task row after the update of index.ts:244-252: the body's fields, and the update time. */
  function PatchedTask(t: Task, p: TaskPatch, now: Time): (r: Task)
    ensures r.id == t.id && r.userId == t.userId && r.teamId == t.teamId
    ensures r.dueDate == t.dueDate && r.createdAt == t.createdAt && r.updatedAt == now
    ensures p == TaskPatch(None, None, None, None, None, None) ==> r == t.(updatedAt := now)
    ensures ValidTaskPatch(p) && t.title != "" ==> r.title != ""
  {
    MergePatch(t, p).(updatedAt := now)
  }

  function PatchWith(p: TaskPatch, now: Time): Task -> Task {
    (t: Task) => PatchedTask(t, p, now)
  }

  /** The update of the task with a given id: the other rows are untouched. */
  function PatchTasks(tasks: seq<Task>, id: Id, p: TaskPatch, now: Time): (r: seq<Task>)
    ensures |r| == |tasks|
    ensures forall i :: 0 <= i < |tasks| ==> r[i] == if tasks[i].id == id then PatchedTask(tasks[i], p, now) else tasks[i]
    ensures forall i :: 0 <= i < |tasks| ==> r[i].id == tasks[i].id
  {
    MapWhere(tasks, IsTask(id), PatchWith(p, now))
  }

  /** The update keeps every primary key where it was, so keys stay distinct. */
  lemma PatchTasksApart(tasks: seq<Task>, id: Id, p: TaskPatch, now: Time)
    requires Pairwise(tasks, TasksApart)
    ensures Pairwise(PatchTasks(tasks, id, p, now), TasksApart)
  {
    var r := PatchTasks(tasks, id, p, now);
    forall i, j | 0 <= i < j < |r| ensures TasksApart(r[i], r[j]) {
      assert TasksApart(tasks[i], tasks[j]);
    }
  }

  /**
   * The stored row differs from the ledger's `newData` only in `updatedAt`,
   * and it equals the ledger view of the prior row overridden by the body.
   */
  lemma PatchedIsMergedSnapshot(t: Task, p: TaskPatch, now: Time)
    ensures PatchedTask(t, p, now).(updatedAt := t.updatedAt) == MergePatch(t, p)
    ensures PatchedTask(t, p, now).updatedAt == now
  {
  }

  /** Applying the same body twice gives the same row as applying it once, apart from `updatedAt`. */
  lemma PatchIdempotent(t: Task, p: TaskPatch, first: Time, second: Time)
    ensures PatchedTask(PatchedTask(t, p, first), p, second) == PatchedTask(t, p, second)
    ensures PatchedTask(PatchedTask(t, p, first), p, second).(updatedAt := first) == PatchedTask(t, p, first)
  {
  }

  /** Reading the task back after the update (index.ts:253) finds the patched row. */
  lemma ReadBackPatched(tasks: seq<Task>, id: Id, p: TaskPatch, now: Time, t: Task)
    requires FindTask(tasks, id) == Some(t)
    ensures FindTask(PatchTasks(tasks, id, p, now), id) == Some(PatchedTask(t, p, now))
  {
    FindFirstMapWhere(tasks, IsTask(id), PatchWith(p, now));
  }

  // --------------------------------------------------------- invitations

  function IsInvitation(id: Id): Invitation -> bool {
    (v: Invitation) => v.id == id
  }

  function Accept(v: Invitation): Invitation {
    v.(status := Accepted)
  }

  /**
   * Marking the invitation with a given id as accepted (index.ts:145),
   * right after it was appended: only that row changes.
   */
  function AcceptInvitation(invitations: seq<Invitation>, id: Id): (r: seq<Invitation>)
    ensures |r| == |invitations|
    ensures forall i :: 0 <= i < |r| ==> r[i].id == invitations[i].id
    ensures forall i :: 0 <= i < |r| ==> r[i] == if invitations[i].id == id then invitations[i].(status := Accepted) else invitations[i]
  {
    MapWhere(invitations, IsInvitation(id), Accept)
  }

  /** Accepting the invitation just appended, under a fresh id, changes that row alone. */
  lemma AcceptLast(invitations: seq<Invitation>, v: Invitation)
    requires forall w :: w in invitations ==> w.id != v.id
    ensures AcceptInvitation(invitations + [v], v.id) == invitations + [v.(status := Accepted)]
  {
    var r := AcceptInvitation(invitations + [v], v.id);
    forall i | 0 <= i < |invitations| ensures r[i] == invitations[i] {
      assert (invitations + [v])[i] == invitations[i];
      assert invitations[i] in invitations;
    }
  }

  // ------------------------------------------------------------ subtasks

  /** The largest order among the subtasks of a task; None (SQL NULL) when it has none (index.ts:386). */
  function MaxOrder(subtasks: seq<Subtask>, taskId: Id): (r: Option<int>)
    ensures r.None? <==> forall s :: s in subtasks ==> s.taskId != taskId
    ensures r.Some? ==> exists s :: s in subtasks && s.taskId == taskId && s.order == r.value
    ensures r.Some? ==> forall s :: s in subtasks && s.taskId == taskId ==> s.order <= r.value
    decreases |subtasks|
  {
    if subtasks == [] then None
    else
      var rest := MaxOrder(subtasks[1..], taskId);
      var s := subtasks[0];
      assert forall x :: x in subtasks <==> x == s || x in subtasks[1..];
      if s.taskId != taskId then rest
      else match rest
        case None => Some(s.order)
        case Some(m) => Some(if s.order > m then s.order else m)
  }

  /**
   * The order a new subtask takes (index.ts:386-387): one more than the
   * largest order among the task's subtasks, or 0 when it has none.
   */
  function NextOrder(subtasks: seq<Subtask>, taskId: Id): (r: int)
    ensures forall s :: s in subtasks && s.taskId == taskId ==> s.order < r
    ensures (forall s :: s in subtasks ==> s.taskId != taskId) ==> r == 0
    ensures (exists s :: s in subtasks && s.taskId == taskId) ==>
      exists s :: s in subtasks && s.taskId == taskId && s.order == r - 1
  {
    MaxOrder(subtasks, taskId).GetOr(-1) + 1
  }

  /** The row `PATCH .../subtasks/:id` leaves (index.ts:404-409): only the present fields change. */
  function PatchedSubtask(s: Subtask, p: SubtaskPatch): (r: Subtask)
    ensures p.title.Some? ==> r.title == p.title.value
    ensures p.title.None? ==> r.title == s.title
    ensures p.completed.Some? ==> r.completed == p.completed.value
    ensures p.completed.None? ==> r.completed == s.completed
    ensures p.order.Some? ==> r.order == p.order.value
    ensures p.order.None? ==> r.order == s.order
    ensures r.id == s.id && r.taskId == s.taskId && r.createdAt == s.createdAt
    ensures ValidSubtaskPatch(p) && s.title != "" ==> r.title != ""
  {
    s.(title := p.title.GetOr(s.title), completed := p.completed.GetOr(s.completed), order := p.order.GetOr(s.order))
  }

  function SubtaskPatchWith(p: SubtaskPatch): Subtask -> Subtask {
    (s: Subtask) => PatchedSubtask(s, p)
  }

  function PatchSubtasks(subtasks: seq<Subtask>, id: Id, p: SubtaskPatch): (r: seq<Subtask>)
    ensures |r| == |subtasks|
    ensures forall i :: 0 <= i < |subtasks| ==> r[i] == if subtasks[i].id == id then PatchedSubtask(subtasks[i], p) else subtasks[i]
    ensures forall i :: 0 <= i < |subtasks| ==> r[i].id == subtasks[i].id
  {
    MapWhere(subtasks, IsSubtask(id), SubtaskPatchWith(p))
  }

  lemma ReadBackPatchedSubtask(subtasks: seq<Subtask>, id: Id, p: SubtaskPatch, s: Subtask)
    requires FindSubtask(subtasks, id) == Some(s)
    ensures FindSubtask(PatchSubtasks(subtasks, id, p), id) == Some(PatchedSubtask(s, p))
  {
    FindFirstMapWhere(subtasks, IsSubtask(id), SubtaskPatchWith(p));
  }

  lemma PatchSubtasksApart(subtasks: seq<Subtask>, id: Id, p: SubtaskPatch)
    requires Pairwise(subtasks, SubtasksApart)
    ensures Pairwise(PatchSubtasks(subtasks, id, p), SubtasksApart)
  {
    var r := PatchSubtasks(subtasks, id, p);
    forall i, j | 0 <= i < j < |r| ensures SubtasksApart(r[i], r[j]) {
      assert SubtasksApart(subtasks[i], subtasks[j]);
    }
  }

  /** The subtasks of one task (index.ts:374). */
  function SubtasksOf(subtasks: seq<Subtask>, taskId: Id): (r: seq<Subtask>)
    ensures forall s :: s in r <==> s in subtasks && s.taskId == taskId
  {
    Filter(subtasks, (s: Subtask) => s.taskId == taskId)
  }

  ghost predicate SortedByOrder(s: seq<Subtask>) {
    forall i, j :: 0 <= i < j < |s| ==> s[i].order <= s[j].order
  }

  function InsertByOrder(x: Subtask, s: seq<Subtask>): (r: seq<Subtask>)
    requires SortedByOrder(s)
    ensures SortedByOrder(r)
    ensures multiset(r) == multiset(s) + multiset{x}
    decreases |s|
  {
    if s == [] then [x]
    else if x.order <= s[0].order then [x] + s
    else
      var rest := InsertByOrder(x, s[1..]);
      assert s == [s[0]] + s[1..];
      SortedTail(s);
      assert forall y :: y in multiset(rest) ==> s[0].order <= y.order;
      SortedCons(s[0], rest);
      [s[0]] + rest
  }

  /** Every element of a sorted list is at least its head. */
  lemma SortedTail(s: seq<Subtask>)
    requires SortedByOrder(s) && s != []
    ensures forall y :: y in multiset(s[1..]) ==> s[0].order <= y.order
  {
    forall y | y in multiset(s[1..]) ensures s[0].order <= y.order {
      var k :| 0 <= k < |s[1..]| && s[1..][k] == y;
      assert s[k + 1] == y;
    }
  }

  /** A head no larger than every element of a sorted list keeps it sorted. */
  lemma SortedCons(x: Subtask, s: seq<Subtask>)
    requires SortedByOrder(s)
    requires forall y :: y in multiset(s) ==> x.order <= y.order
    ensures SortedByOrder([x] + s)
  {
    var r := [x] + s;
    forall i, j | 0 <= i < j < |r| ensures r[i].order <= r[j].order {
      assert r[j] == s[j - 1];
      if i == 0 {
        assert s[j - 1] in multiset(s);
      } else {
        assert r[i] == s[i - 1];
      }
    }
  }

  /** The same rows, ascending by order, as the list route sorts them (index.ts:374). */
  function SortByOrder(s: seq<Subtask>): (r: seq<Subtask>)
    ensures SortedByOrder(r)
    ensures multiset(r) == multiset(s)
    decreases |s|
  {
    if s == [] then []
    else
      assert s == [s[0]] + s[1..];
      InsertByOrder(s[0], SortByOrder(s[1..]))
  }

  // --------------------------------------------------- joined read views

  datatype TeamRole = TeamRole(id: Id, name: string, role: MemberRole)

  /** One row of the caller's team list: present when the membership is the caller's and its team exists. */
  function TeamRow(teams: seq<Team>, userId: Id, m: Membership): (r: Option<TeamRole>)
    ensures r.Some? <==> m.userId == userId && TeamExists(teams, m.teamId)
    ensures r.Some? ==> r.value.id == m.teamId && r.value.role == m.role
    ensures r.Some? ==> exists t :: t in teams && t.id == m.teamId && t.name == r.value.name
  {
    match FindTeam(teams, m.teamId)
    case Some(t) => if m.userId == userId then Some(TeamRole(t.id, t.name, m.role)) else None
    case None => None
  }

  /** Whether a membership yields a row of the teams join. */
  function HasTeamRow(teams: seq<Team>, userId: Id): Membership -> bool {
    (m: Membership) => TeamRow(teams, userId, m).Some?
  }

  /** `GET /api/teams` (index.ts:113): the caller's memberships joined with their teams. */
  function TeamsOf(members: seq<Membership>, teams: seq<Team>, userId: Id): (r: seq<TeamRole>)
    ensures forall x :: x in r <==> exists m :: m in members && TeamRow(teams, userId, m) == Some(x)
    ensures |r| == |Filter(members, HasTeamRow(teams, userId))|
    decreases |members|
  {
    if members == [] then []
    else
      var m := members[0];
      var rest := TeamsOf(members[1..], teams, userId);
      assert forall x :: x in members <==> x == m || x in members[1..];
      match TeamRow(teams, userId, m)
      case Some(x) => [x] + rest
      case None => rest
  }

  datatype MemberView = MemberView(id: Id, name: string, email: string, image: Option<string>, role: MemberRole, joinedAt: Time)

  /** One row of a team's member list: present when the membership is in the team and its user exists. */
  function MemberRow(users: seq<User>, teamId: Id, m: Membership): (r: Option<MemberView>)
    ensures r.Some? <==> m.teamId == teamId && UserExists(users, m.userId)
    ensures r.Some? ==> r.value.id == m.userId && r.value.role == m.role && r.value.joinedAt == m.joinedAt
    ensures r.Some? ==> exists u :: u in users && u.id == m.userId && u.name == r.value.name &&
                                    u.email == r.value.email && u.image == r.value.image
  {
    match FindUser(users, m.userId)
    case Some(u) => if m.teamId == teamId then Some(MemberView(u.id, u.name, u.email, u.image, m.role, m.joinedAt)) else None
    case None => None
  }

  /** Whether a membership yields a row of the members join. */
  function HasMemberRow(users: seq<User>, teamId: Id): Membership -> bool {
    (m: Membership) => MemberRow(users, teamId, m).Some?
  }

  /** `GET /api/teams/:teamId/members` (index.ts:124): the team's memberships joined with their users. */
  function MembersOf(members: seq<Membership>, users: seq<User>, teamId: Id): (r: seq<MemberView>)
    ensures forall x :: x in r <==> exists m :: m in members && MemberRow(users, teamId, m) == Some(x)
    ensures |r| == |Filter(members, HasMemberRow(users, teamId))|
    decreases |members|
  {
    if members == [] then []
    else
      var m := members[0];
      var rest := MembersOf(members[1..], users, teamId);
      assert forall x :: x in members <==> x == m || x in members[1..];
      match MemberRow(users, teamId, m)
      case Some(x) => [x] + rest
      case None => rest
  }

  datatype Author = Author(id: Id, name: string, image: Option<string>)
  datatype CommentView = CommentView(id: Id, content: string, createdAt: Time, user: Author)

  /**
   * One row of the comment feed: present when the comment belongs to the
   * task and its author has a user row (the inner join drops the others).
   */
  function CommentRow(users: seq<User>, taskId: Id, c: Comment): (r: Option<CommentView>)
    ensures r.Some? <==> c.taskId == taskId && UserExists(users, c.userId)
    ensures r.Some? ==> r.value.id == c.id && r.value.content == c.content && r.value.createdAt == c.createdAt
    ensures r.Some? ==> r.value.user.id == c.userId
    ensures r.Some? ==> exists u :: u in users && u.id == c.userId && r.value.user == Author(u.id, u.name, u.image)
  {
    match FindUser(users, c.userId)
    case Some(u) => if c.taskId == taskId then Some(CommentView(c.id, c.content, c.createdAt, Author(u.id, u.name, u.image))) else None
    case None => None
  }

  ghost predicate CommentsNewestFirst(r: seq<CommentView>) {
    forall i, j :: 0 <= i < j < |r| ==> r[i].createdAt >= r[j].createdAt
  }

  /** Whether a comment yields a row of the comment feed. */
  function HasCommentRow(users: seq<User>, taskId: Id): Comment -> bool {
    (c: Comment) => CommentRow(users, taskId, c).Some?
  }

  /**
   * `GET /api/tasks/:id/comments` (index.ts:272-277): the task's comments
   * joined with their authors, newest first (the table is chronological,
   * so reading it backwards is `orderBy(desc(comment.createdAt))`).
   */
  function CommentFeed(comments: seq<Comment>, users: seq<User>, taskId: Id): (r: seq<CommentView>)
    ensures forall x :: x in r <==> exists c :: c in comments && CommentRow(users, taskId, c) == Some(x)
    decreases |comments|
  {
    if comments == [] then []
    else
      var n := |comments| - 1;
      var rest := CommentFeed(comments[..n], users, taskId);
      assert comments == comments[..n] + [comments[n]];
      assert forall x :: x in comments <==> x == comments[n] || x in comments[..n];
      match CommentRow(users, taskId, comments[n])
      case Some(x) => [x] + rest
      case None => rest
  }

  /** The feed has one row for each comment that yields one. */
  lemma {:induction false} CommentFeedLength(comments: seq<Comment>, users: seq<User>, taskId: Id)
    ensures |CommentFeed(comments, users, taskId)| == |Filter(comments, HasCommentRow(users, taskId))|
    decreases |comments|
  {
    if comments != [] {
      var n := |comments| - 1;
      var p := HasCommentRow(users, taskId);
      CommentFeedLength(comments[..n], users, taskId);
      FilterLastLength(comments, p);
      assert |CommentFeed(comments, users, taskId)| == |CommentFeed(comments[..n], users, taskId)| + if p(comments[n]) then 1 else 0;
    }
  }

  lemma CommentFeedPrepend(x: CommentView, rest: seq<CommentView>)
    requires CommentsNewestFirst(rest)
    requires forall y :: y in rest ==> y.createdAt <= x.createdAt
    ensures CommentsNewestFirst([x] + rest)
  {
    forall i, j | 0 <= i < j < |[x] + rest| ensures ([x] + rest)[i].createdAt >= ([x] + rest)[j].createdAt {
      if i == 0 { assert ([x] + rest)[j] == rest[j - 1]; }
      else { assert ([x] + rest)[i] == rest[i - 1] && ([x] + rest)[j] == rest[j - 1]; }
    }
  }

  /** Reading a chronological table backwards lists the rows newest first. */
  lemma {:induction false} CommentFeedNewestFirst(comments: seq<Comment>, users: seq<User>, taskId: Id)
    requires Pairwise(comments, CommentsInOrder)
    ensures CommentsNewestFirst(CommentFeed(comments, users, taskId))
    decreases |comments|
  {
    if comments != [] {
      var n := |comments| - 1;
      var older := comments[..n];
      var rest := CommentFeed(older, users, taskId);
      assert Pairwise(older, CommentsInOrder);
      CommentFeedNewestFirst(older, users, taskId);
      forall x | x in rest ensures x.createdAt <= comments[n].createdAt {
        var o :| o in older && CommentRow(users, taskId, o) == Some(x);
        var k :| 0 <= k < n && older[k] == o;
        assert CommentsInOrder(comments[k], comments[n]);
      }
      match CommentRow(users, taskId, comments[n])
      case Some(x) =>
        CommentFeedPrepend(x, rest);
      case None =>
        assert CommentFeed(comments, users, taskId) == rest;
    }
  }

  datatype HistoryItem = HistoryItem(id: Id, changeType: string, changedByName: string, changedByImage: Option<string>, createdAt: Time)

  /** One row of the history listing: present when the entry is about the task and its author has a user row. */
  function HistoryRow(users: seq<User>, taskId: Id, v: TaskVersion): (r: Option<HistoryItem>)
    ensures r.Some? <==> v.taskId == taskId && UserExists(users, v.changedBy)
    ensures r.Some? ==> r.value.id == v.id && r.value.changeType == v.changeType && r.value.createdAt == v.createdAt
    ensures r.Some? ==> exists u :: u in users && u.id == v.changedBy &&
                                    r.value.changedByName == u.name && r.value.changedByImage == u.image
  {
    match FindUser(users, v.changedBy)
    case Some(u) => if v.taskId == taskId then Some(HistoryItem(v.id, v.changeType, u.name, u.image, v.createdAt)) else None
    case None => None
  }

  ghost predicate HistoryNewestFirst(r: seq<HistoryItem>) {
    forall i, j :: 0 <= i < j < |r| ==> r[i].createdAt >= r[j].createdAt
  }

  /** Whether a ledger entry yields a row of the history. */
  function HasHistoryRow(users: seq<User>, taskId: Id): TaskVersion -> bool {
    (v: TaskVersion) => HistoryRow(users, taskId, v).Some?
  }

  /**
   * `GET /api/tasks/:id/history` (index.ts:426-431): the task's ledger
   * entries joined with the user who made them, newest first.
   */
  function HistoryOf(versions: seq<TaskVersion>, users: seq<User>, taskId: Id): (r: seq<HistoryItem>)
    ensures forall x :: x in r <==> exists v :: v in versions && HistoryRow(users, taskId, v) == Some(x)
    decreases |versions|
  {
    if versions == [] then []
    else
      var n := |versions| - 1;
      var rest := HistoryOf(versions[..n], users, taskId);
      assert versions == versions[..n] + [versions[n]];
      assert forall x :: x in versions <==> x == versions[n] || x in versions[..n];
      match HistoryRow(users, taskId, versions[n])
      case Some(x) => [x] + rest
      case None => rest
  }

  /** The history has one row for each ledger entry that yields one. */
  lemma {:induction false} HistoryOfLength(versions: seq<TaskVersion>, users: seq<User>, taskId: Id)
    ensures |HistoryOf(versions, users, taskId)| == |Filter(versions, HasHistoryRow(users, taskId))|
    decreases |versions|
  {
    if versions != [] {
      var n := |versions| - 1;
      var p := HasHistoryRow(users, taskId);
      HistoryOfLength(versions[..n], users, taskId);
      FilterLastLength(versions, p);
      assert |HistoryOf(versions, users, taskId)| == |HistoryOf(versions[..n], users, taskId)| + if p(versions[n]) then 1 else 0;
    }
  }

  lemma HistoryOfPrepend(x: HistoryItem, rest: seq<HistoryItem>)
    requires HistoryNewestFirst(rest)
    requires forall y :: y in rest ==> y.createdAt <= x.createdAt
    ensures HistoryNewestFirst([x] + rest)
  {
    forall i, j | 0 <= i < j < |[x] + rest| ensures ([x] + rest)[i].createdAt >= ([x] + rest)[j].createdAt {
      if i == 0 { assert ([x] + rest)[j] == rest[j - 1]; }
      else { assert ([x] + rest)[i] == rest[i - 1] && ([x] + rest)[j] == rest[j - 1]; }
    }
  }

  /** Reading a chronological table backwards lists the rows newest first. */
  lemma {:induction false} HistoryOfNewestFirst(versions: seq<TaskVersion>, users: seq<User>, taskId: Id)
    requires Pairwise(versions, VersionsInOrder)
    ensures HistoryNewestFirst(HistoryOf(versions, users, taskId))
    decreases |versions|
  {
    if versions != [] {
      var n := |versions| - 1;
      var older := versions[..n];
      var rest := HistoryOf(older, users, taskId);
      assert Pairwise(older, VersionsInOrder);
      HistoryOfNewestFirst(older, users, taskId);
      forall x | x in rest ensures x.createdAt <= versions[n].createdAt {
        var o :| o in older && HistoryRow(users, taskId, o) == Some(x);
        var k :| 0 <= k < n && older[k] == o;
        assert VersionsInOrder(versions[k], versions[n]);
      }
      match HistoryRow(users, taskId, versions[n])
      case Some(x) =>
        HistoryOfPrepend(x, rest);
      case None =>
        assert HistoryOf(versions, users, taskId) == rest;
    }
  }

  /** `GET /api/tasks/:id/attachments` (index.ts:298). */
  function AttachmentsOf(attachments: seq<Attachment>, taskId: Id): (r: seq<Attachment>)
    ensures forall a :: a in r <==> a in attachments && a.taskId == taskId
    ensures forall a :: multiset(r)[a] == if a.taskId == taskId then multiset(attachments)[a] else 0
  {
    FilterCount(attachments, (a: Attachment) => a.taskId == taskId);
    Filter(attachments, (a: Attachment) => a.taskId == taskId)
  }
}
