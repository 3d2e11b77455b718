/**
 * The tables of the collaboration store (src/worker/db/schema.ts): the
 * enumerations, the column defaults, the uniqueness constraints and the
 * `onDelete` rules of the foreign keys.
 */
module Schema {
  import opened Wrappers
  import opened Seqs

  /** Primary keys are opaque strings (UUIDs produced by the worker). */
  type Id = string
  /** A clock reading (the worker's `new Date()`); only the order of readings matters to the model. */
  type Time = int

  // ---------------------------------------------------------------- enums

  /** `taskStatusEnum` */
  datatype TaskStatus = Todo | InProgress | Completed
  /** `taskPriorityEnum` */
  datatype TaskPriority = Low | Medium | High
  /** The `role` column of `member`. */
  datatype MemberRole = Owner | Admin | Member
  /** The `role` column of `invitation` admits only "admin" and "member". */
  type InviteRole = r: MemberRole | r != Owner witness Member
  /** The `status` column of `invitation`. */
  datatype InviteStatus = Pending | Accepted | Rejected

  // ------------------------------------------------------ column defaults

  const DefaultStatus: TaskStatus := Todo
  const DefaultPriority: TaskPriority := Medium
  const DefaultSubtaskCompleted: bool := false

  /** The text stored for a status. */
  function StatusName(s: TaskStatus): string {
    match s
    case Todo => "todo"
    case InProgress => "in_progress"
    case Completed => "completed"
  }

  /** Membership of a string in `taskStatusEnum` (what `z.enum` and the drop handler test). */
  function ParseStatus(s: string): (r: Option<TaskStatus>)
    ensures forall st :: r == Some(st) <==> s == StatusName(st)
  {
    if s == "todo" then Some(Todo)
    else if s == "in_progress" then Some(InProgress)
    else if s == "completed" then Some(Completed)
    else None
  }

  /** The text stored for a priority. */
  function PriorityName(p: TaskPriority): string {
    match p
    case Low => "low"
    case Medium => "medium"
    case High => "high"
  }

  /** Membership of a string in `taskPriorityEnum`. */
  function ParsePriority(s: string): (r: Option<TaskPriority>)
    ensures forall p :: r == Some(p) <==> s == PriorityName(p)
  {
    if s == "low" then Some(Low)
    else if s == "medium" then Some(Medium)
    else if s == "high" then Some(High)
    else None
  }

  // ----------------------------------------------------------------- rows

  datatype User = User(id: Id, name: string, email: string, image: Option<string>)

  datatype Team = Team(id: Id, name: string, createdAt: Time, updatedAt: Time)

  datatype Membership = Membership(id: Id, teamId: Id, userId: Id, role: MemberRole, joinedAt: Time)

  datatype Invitation = Invitation(
    id: Id, teamId: Id, email: string, role: InviteRole, status: InviteStatus,
    invitedBy: Id, createdAt: Time)

  /**
   * A task row. `priority` is declared NOT NULL, but rows written before the
   * column existed may lack it, which is why the read routes default it.
   */
  datatype Task = Task(
    id: Id, title: string, description: Option<string>, status: TaskStatus,
    priority: Option<TaskPriority>, userId: Id, teamId: Option<Id>,
    assigneeId: Option<Id>, timeLimit: Option<int>, dueDate: Option<Time>,
    createdAt: Time, updatedAt: Time)

  datatype Subtask = Subtask(id: Id, taskId: Id, title: string, completed: bool, order: int, createdAt: Time)

  datatype Comment = Comment(id: Id, taskId: Id, userId: Id, content: string, createdAt: Time)

  datatype Attachment = Attachment(
    id: Id, taskId: Id, userId: Id, fileName: string, fileUrl: string,
    fileType: string, fileSize: Option<int>, createdAt: Time)

  /** What the ledger serialises into `previousData`/`newData`. */
  datatype Snapshot = TaskState(task: Task) | CommentBody(content: string)

  datatype TaskVersion = TaskVersion(
    id: Id, taskId: Id, changedBy: Id, changeType: string,
    previousData: Option<Snapshot>, newData: Option<Snapshot>, createdAt: Time)

  /** All tables, each in insertion order. */
  datatype Db = Db(
    users: seq<User>, teams: seq<Team>, members: seq<Membership>,
    invitations: seq<Invitation>, tasks: seq<Task>, subtasks: seq<Subtask>,
    comments: seq<Comment>, attachments: seq<Attachment>, versions: seq<TaskVersion>)

  // ----------------------------------------------------------- constraints

  /** Primary key of `user`, and `email ... .unique()`. */
  predicate UsersApart(a: User, b: User) { a.id != b.id && a.email != b.email }
  predicate TeamsApart(a: Team, b: Team) { a.id != b.id }
  /** Primary key, and at most one membership of a user in a team. */
  predicate MembershipsApart(a: Membership, b: Membership) {
    a.id != b.id && (a.teamId != b.teamId || a.userId != b.userId)
  }
  predicate InvitationsApart(a: Invitation, b: Invitation) { a.id != b.id }
  predicate TasksApart(a: Task, b: Task) { a.id != b.id }
  predicate SubtasksApart(a: Subtask, b: Subtask) { a.id != b.id }
  /** Primary key; comments are written with the current time, so the table is chronological. */
  predicate CommentsInOrder(a: Comment, b: Comment) { a.id != b.id && a.createdAt <= b.createdAt }
  predicate AttachmentsApart(a: Attachment, b: Attachment) { a.id != b.id }
  /** Primary key; the ledger is append-only and chronological. */
  predicate VersionsInOrder(a: TaskVersion, b: TaskVersion) { a.id != b.id && a.createdAt <= b.createdAt }

  ghost predicate Consistent(db: Db) {
    && Pairwise(db.users, UsersApart)
    && Pairwise(db.teams, TeamsApart)
    && Pairwise(db.members, MembershipsApart)
    && Pairwise(db.invitations, InvitationsApart)
    && Pairwise(db.tasks, TasksApart)
    && Pairwise(db.subtasks, SubtasksApart)
    && Pairwise(db.comments, CommentsInOrder)
    && Pairwise(db.attachments, AttachmentsApart)
    && Pairwise(db.versions, VersionsInOrder)
  }

  /** No user shares an email with another. */
  lemma EmailsUnique(db: Db, a: User, b: User)
    requires Consistent(db)
    requires a in db.users && b in db.users && a.email == b.email
    ensures a == b
  {
    var i :| 0 <= i < |db.users| && db.users[i] == a;
    var j :| 0 <= j < |db.users| && db.users[j] == b;
    if i < j {
      assert false;
    } else if j < i {
      assert false;
    }
  }

  // -------------------------------------------------------------- deletes

  predicate TaskExists(tasks: seq<Task>, id: Id) { exists t :: t in tasks && t.id == id }
  predicate TeamExists(teams: seq<Team>, id: Id) { exists t :: t in teams && t.id == id }
  predicate UserExists(users: seq<User>, id: Id) { exists u :: u in users && u.id == id }

  /** The ids of the task rows that `doomed` selects. */
  function DoomedTaskIds(tasks: seq<Task>, doomed: Task -> bool): (r: set<Id>)
    ensures forall id :: id in r <==> exists t :: t in tasks && doomed(t) && t.id == id
  {
    set t | t in tasks && doomed(t) :: t.id
  }

  /**
   * Deleting the task rows that `doomed` selects, together with every row
   * whose `task_id` references one of them: subtasks (schema.ts:105),
   * comments (117), attachments (126) and ledger entries (138) all declare
   * `onDelete: "cascade"`. Nothing else changes.
   */
  function DeleteTasksWhere(db: Db, doomed: Task -> bool): (r: Db)
    ensures r.users == db.users && r.teams == db.teams
    ensures r.members == db.members && r.invitations == db.invitations
    ensures forall t :: t in r.tasks <==> t in db.tasks && !doomed(t)
    ensures forall s :: s in r.subtasks <==> s in db.subtasks && s.taskId !in DoomedTaskIds(db.tasks, doomed)
    ensures forall c :: c in r.comments <==> c in db.comments && c.taskId !in DoomedTaskIds(db.tasks, doomed)
    ensures forall a :: a in r.attachments <==> a in db.attachments && a.taskId !in DoomedTaskIds(db.tasks, doomed)
    ensures forall v :: v in r.versions <==> v in db.versions && v.taskId !in DoomedTaskIds(db.tasks, doomed)
    ensures DoomedTaskIds(db.tasks, doomed) == {} ==> r == db
    ensures Consistent(db) ==> Consistent(r)
  {
    var gone := DoomedTaskIds(db.tasks, doomed);
    var keepTask := (t: Task) => !doomed(t);
    var keepSubtask := (s: Subtask) => s.taskId !in gone;
    var keepComment := (c: Comment) => c.taskId !in gone;
    var keepAttachment := (a: Attachment) => a.taskId !in gone;
    var keepVersion := (v: TaskVersion) => v.taskId !in gone;
    var r := db.(
      tasks := Filter(db.tasks, keepTask),
      subtasks := Filter(db.subtasks, keepSubtask),
      comments := Filter(db.comments, keepComment),
      attachments := Filter(db.attachments, keepAttachment),
      versions := Filter(db.versions, keepVersion));
    assert gone == {} ==> r == db by {
      assert forall t :: t in db.tasks && doomed(t) ==> t.id in gone;
      if gone == {} {
        FilterKeepsAll(db.tasks, keepTask);
        FilterKeepsAll(db.subtasks, keepSubtask);
        FilterKeepsAll(db.comments, keepComment);
        FilterKeepsAll(db.attachments, keepAttachment);
        FilterKeepsAll(db.versions, keepVersion);
      }
    }
    assert Consistent(db) ==> Consistent(r) by {
      if Consistent(db) {
        FilterPairwise(db.tasks, keepTask, TasksApart);
        FilterPairwise(db.subtasks, keepSubtask, SubtasksApart);
        FilterPairwise(db.comments, keepComment, CommentsInOrder);
        FilterPairwise(db.attachments, keepAttachment, AttachmentsApart);
        FilterPairwise(db.versions, keepVersion, VersionsInOrder);
      }
    }
    r
  }

  /** Whether `t` is the task row with primary key `id`. */
  function IsTask(id: Id): Task -> bool {
    (t: Task) => t.id == id
  }

  /**
   * `DELETE FROM task WHERE id = ?`: when the task exists, exactly it and
   * its subtasks, comments, attachments and ledger entries disappear; when
   * it does not, nothing changes.
   */
  function DeleteTaskRows(db: Db, id: Id): (r: Db)
    ensures TaskExists(db.tasks, id) ==>
      && r.users == db.users && r.teams == db.teams
      && r.members == db.members && r.invitations == db.invitations
      && (forall t :: t in r.tasks <==> t in db.tasks && t.id != id)
      && (forall s :: s in r.subtasks <==> s in db.subtasks && s.taskId != id)
      && (forall c :: c in r.comments <==> c in db.comments && c.taskId != id)
      && (forall a :: a in r.attachments <==> a in db.attachments && a.taskId != id)
      && (forall v :: v in r.versions <==> v in db.versions && v.taskId != id)
    ensures !TaskExists(db.tasks, id) ==> r == db
    ensures Consistent(db) ==> Consistent(r)
  {
    var r := DeleteTasksWhere(db, IsTask(id));
    assert TaskExists(db.tasks, id) ==> DoomedTaskIds(db.tasks, IsTask(id)) == {id};
    assert !TaskExists(db.tasks, id) ==> DoomedTaskIds(db.tasks, IsTask(id)) == {};
    r
  }

  /**
   * `DELETE FROM team WHERE id = ?`: memberships (schema.ts:60), invitations
   * (68) and tasks (91) of the team cascade, and the tasks' own dependants
   * with them. Deleting a team that does not exist changes nothing.
   */
  function DeleteTeamRows(db: Db, teamId: Id): (r: Db)
    ensures TeamExists(db.teams, teamId) ==>
      && r.users == db.users
      && (forall t :: t in r.teams <==> t in db.teams && t.id != teamId)
      && (forall m :: m in r.members <==> m in db.members && m.teamId != teamId)
      && (forall i :: i in r.invitations <==> i in db.invitations && i.teamId != teamId)
      && (forall t :: t in r.tasks <==> t in db.tasks && t.teamId != Some(teamId))
      && (forall s :: s in r.subtasks <==> s in db.subtasks && s.taskId !in DoomedTaskIds(db.tasks, InTeam(teamId)))
      && (forall c :: c in r.comments <==> c in db.comments && c.taskId !in DoomedTaskIds(db.tasks, InTeam(teamId)))
      && (forall a :: a in r.attachments <==> a in db.attachments && a.taskId !in DoomedTaskIds(db.tasks, InTeam(teamId)))
      && (forall v :: v in r.versions <==> v in db.versions && v.taskId !in DoomedTaskIds(db.tasks, InTeam(teamId)))
    ensures !TeamExists(db.teams, teamId) ==> r == db
    ensures Consistent(db) ==> Consistent(r)
  {
    if !TeamExists(db.teams, teamId) then db
    else
      var d := DeleteTasksWhere(db, InTeam(teamId));
      var keepTeam := (t: Team) => t.id != teamId;
      var keepMember := (m: Membership) => m.teamId != teamId;
      var keepInvitation := (i: Invitation) => i.teamId != teamId;
      var r := d.(
        teams := Filter(db.teams, keepTeam),
        members := Filter(db.members, keepMember),
        invitations := Filter(db.invitations, keepInvitation));
      assert Consistent(db) ==> Consistent(r) by {
        if Consistent(db) {
          FilterPairwise(db.teams, keepTeam, TeamsApart);
          FilterPairwise(db.members, keepMember, MembershipsApart);
          FilterPairwise(db.invitations, keepInvitation, InvitationsApart);
        }
      }
      r
  }

  /** Whether a task belongs to the team (`onDelete: "cascade"` on `team_id`, schema.ts:91). */
  function InTeam(teamId: Id): Task -> bool {
    (t: Task) => t.teamId == Some(teamId)
  }

  /** A task assigned to the removed user loses its assignee (`onDelete: "set null"`, schema.ts:92). */
  function Unassigned(t: Task, userId: Id): Task {
    if t.assigneeId == Some(userId) then t.(assigneeId := None) else t
  }

  /** `Unassigned` on every task, in place: the list keeps its length, order and keys. */
  function Unassign(tasks: seq<Task>, userId: Id): (r: seq<Task>)
    ensures |r| == |tasks|
    ensures forall i :: 0 <= i < |tasks| ==> r[i] == Unassigned(tasks[i], userId)
    ensures forall t :: t in r <==> exists s :: s in tasks && t == Unassigned(s, userId)
  {
    var r := seq(|tasks|, i requires 0 <= i < |tasks| => Unassigned(tasks[i], userId));
    assert forall s :: s in tasks ==> Unassigned(s, userId) in r by {
      forall s | s in tasks ensures Unassigned(s, userId) in r {
        var i :| 0 <= i < |tasks| && tasks[i] == s;
        assert r[i] == Unassigned(s, userId);
      }
    }
    assert forall t :: t in r ==> exists s :: s in tasks && t == Unassigned(s, userId) by {
      forall t | t in r ensures exists s :: s in tasks && t == Unassigned(s, userId) {
        var i :| 0 <= i < |r| && r[i] == t;
        assert tasks[i] in tasks;
      }
    }
    r
  }

  /** Clearing assignees keeps every key where it was, so keys stay distinct. */
  lemma UnassignApart(tasks: seq<Task>, userId: Id)
    requires Pairwise(tasks, TasksApart)
    ensures Pairwise(Unassign(tasks, userId), TasksApart)
  {
    var r := Unassign(tasks, userId);
    forall i, j | 0 <= i < j < |r| ensures TasksApart(r[i], r[j]) {
      assert TasksApart(tasks[i], tasks[j]);
    }
  }

  /** Whether a task is owned by the removed user (`onDelete: "cascade"` on `user_id`, schema.ts:90). */
  function OwnedBy(userId: Id): Task -> bool {
    (t: Task) => t.userId == userId
  }

  /** The cascades of deleting a user row, before the restricting references are checked. */
  function ClearUser(db: Db, userId: Id): (r: Db)
    ensures r.teams == db.teams && r.invitations == db.invitations
    ensures forall u :: u in r.users <==> u in db.users && u.id != userId
    ensures forall m :: m in r.members <==> m in db.members && m.userId != userId
    ensures forall t :: t in r.tasks <==> exists s :: s in db.tasks && s.userId != userId && t == Unassigned(s, userId)
    ensures forall s :: s in r.subtasks <==> s in db.subtasks && s.taskId !in DoomedTaskIds(db.tasks, OwnedBy(userId))
    ensures forall c :: c in r.comments <==> c in db.comments && c.taskId !in DoomedTaskIds(db.tasks, OwnedBy(userId))
    ensures forall a :: a in r.attachments <==> a in db.attachments && a.taskId !in DoomedTaskIds(db.tasks, OwnedBy(userId))
    ensures forall v :: v in r.versions <==> v in db.versions && v.taskId !in DoomedTaskIds(db.tasks, OwnedBy(userId))
    ensures Consistent(db) ==> Consistent(r)
  {
    var d := DeleteTasksWhere(db, OwnedBy(userId));
    var keepUser := (u: User) => u.id != userId;
    var keepMember := (m: Membership) => m.userId != userId;
    var r := d.(users := Filter(db.users, keepUser), members := Filter(db.members, keepMember), tasks := Unassign(d.tasks, userId));
    assert Consistent(db) ==> Consistent(r) by {
      if Consistent(db) {
        FilterPairwise(db.users, keepUser, UsersApart);
        FilterPairwise(db.members, keepMember, MembershipsApart);
        UnassignApart(d.tasks, userId);
      }
    }
    r
  }

  /** Whether a row that references the user without an `onDelete` rule remains. */
  predicate StillReferenced(db: Db, userId: Id) {
    || (exists i :: i in db.invitations && i.invitedBy == userId)
    || (exists c :: c in db.comments && c.userId == userId)
    || (exists a :: a in db.attachments && a.userId == userId)
    || (exists v :: v in db.versions && v.changedBy == userId)
  }

  /**
   * Deleting a user row. Memberships (schema.ts:61) and owned tasks (90)
   * cascade, assignments are cleared (92). Invitations sent by the user (72),
   * their comments (118), attachments (127) and ledger entries (139) reference
   * the user without an `onDelete` rule, so if any of them survives the
   * cascade the database refuses the delete and the result is None. The
   * authentication tables `session` and `account` (schema.ts:22, 29) also
   * reference the user this way; they are not part of this model.
   */
  function DeleteUserRows(db: Db, userId: Id): (r: Option<Db>)
    ensures !UserExists(db.users, userId) ==> r == Some(db)
    ensures UserExists(db.users, userId) ==>
      && (r.None? <==> StillReferenced(ClearUser(db, userId), userId))
      && (r.Some? ==> r.value == ClearUser(db, userId))
    ensures UserExists(db.users, userId) && r.Some? ==>
      && r.value.teams == db.teams && r.value.invitations == db.invitations
      && (forall u :: u in r.value.users <==> u in db.users && u.id != userId)
      && (forall m :: m in r.value.members <==> m in db.members && m.userId != userId)
      && (forall t :: t in r.value.tasks <==> exists s :: s in db.tasks && s.userId != userId && t == Unassigned(s, userId))
      && (forall c :: c in r.value.comments ==> c in db.comments && c.userId != userId)
      && (forall a :: a in r.value.attachments ==> a in db.attachments && a.userId != userId)
      && (forall v :: v in r.value.versions ==> v in db.versions && v.changedBy != userId)
      && (forall i :: i in r.value.invitations ==> i.invitedBy != userId)
    ensures r.Some? && Consistent(db) ==> Consistent(r.value)
  {
    if !UserExists(db.users, userId) then Some(db)
    else
      var cleared := ClearUser(db, userId);
      if StillReferenced(cleared, userId) then None else Some(cleared)
  }

  /** The user that remains after a delete has no owned or assigned task left. */
  lemma DeletedUserHasNoTasks(db: Db, userId: Id, t: Task)
    requires UserExists(db.users, userId) && DeleteUserRows(db, userId).Some?
    requires t in DeleteUserRows(db, userId).value.tasks
    ensures t.userId != userId && t.assigneeId != Some(userId)
  {
  }
}
