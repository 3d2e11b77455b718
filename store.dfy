/**
 * The route handlers of src/worker/index.ts as methods of one store whose
 * fields are the database tables. A request becomes a method call: the
 * session lookup is the `caller` argument (None when there is no session),
 * `crypto.randomUUID()` results are fresh-id arguments, `new Date()` is
 * `now`, and the zod validators are checks on the body that run before
 * the handler does anything else.
 */
module Worker {
  import opened Wrappers
  import opened Seqs
  import opened Schema
  import opened Queries
  import opened Base64

  /** The HTTP outcome: 200 (`Ok`), 201 (`Created`), 401, 403, 404, 400 and 500. */
  datatype Reply<T> = Ok(value: T) | Created(value: T) | Unauthorized | Forbidden | NotFound | BadRequest | ServerError

  /** `{ teamId, name }` of `POST /api/teams`. */
  datatype TeamCreated = TeamCreated(teamId: Id, name: string)

  /** The two messages of a successful invite: "User added!" and "Invitation created". */
  datatype InviteOutcome = UserAdded | InvitationCreated

  /** An object in the R2 bucket: its bytes and its `httpMetadata.contentType`. */
  datatype StoredObject = StoredObject(bytes: seq<byte>, contentType: string)

  /** The `file` part of a multipart form: `file.name`, `file.type` and its bytes. */
  datatype FilePart = FilePart(name: string, fileType: string, bytes: seq<byte>)

  /** The parts of an upload request the handler looks at. */
  datatype UploadRequest = UploadRequest(contentType: Option<string>, file: Option<FilePart>)

  /** The stored file name; an empty name becomes "attachment" (index.ts:327). */
  function UploadName(f: FilePart): (r: string)
    ensures r != "" && (f.name != "" ==> r == f.name)
  {
    if f.name == "" then "attachment" else f.name
  }

  /** The stored media type; an empty type becomes "application/octet-stream" (index.ts:328). */
  function UploadType(f: FilePart): (r: string)
    ensures r != "" && (f.fileType != "" ==> r == f.fileType)
  {
    if f.fileType == "" then "application/octet-stream" else f.fileType
  }

  /** The bucket key of an upload: the task id, a fresh id and the encoded file name (index.ts:333). */
  function ObjectKey(taskId: Id, keyId: Id, encodeUri: string -> string, name: string): string {
    taskId + "/" + keyId + "_" + encodeUri(name)
  }

  /**
   * The fresh id of index.ts:333 keeps keys apart: two uploads under one
   * task whose ids (UUIDs, all of one length) differ get different keys,
   * whatever their file names.
   */
  lemma ObjectKeysApart(taskId: Id, k1: Id, k2: Id, encodeUri: string -> string, n1: string, n2: string)
    requires |k1| == |k2| && k1 != k2
    ensures ObjectKey(taskId, k1, encodeUri, n1) != ObjectKey(taskId, k2, encodeUri, n2)
  {
    var a := ObjectKey(taskId, k1, encodeUri, n1);
    var b := ObjectKey(taskId, k2, encodeUri, n2);
    var lo := |taskId| + 1;
    assert a[lo..lo + |k1|] == k1;
    assert b[lo..lo + |k2|] == k2;
  }

  /** The worker-served URL of an object: the encoded key under `/r2/` (index.ts:339). */
  function ObjectUrl(encodeUri: string -> string, key: string): string {
    "/r2/" + encodeUri(key)
  }

  /** The R2 binding `ATTACHMENTS_BUCKET`, an object store keyed by string. */
  class Bucket {
    var objects: map<string, StoredObject>

    constructor(objects: map<string, StoredObject>)
      ensures this.objects == objects
    {
      this.objects := objects;
    }

    /** Storing an object with its media type under a key (index.ts:336-338). */
    method Put(key: string, obj: StoredObject)
      modifies this
      ensures objects == old(objects)[key := obj]
      ensures key in objects && objects[key] == obj
    {
      objects := objects[key := obj];
    }
  }

  class TaskStore {
    var users: seq<User>
    var teams: seq<Team>
    var members: seq<Membership>
    var invitations: seq<Invitation>
    var tasks: seq<Task>
    var subtasks: seq<Subtask>
    var comments: seq<Comment>
    var attachments: seq<Attachment>
    var versions: seq<TaskVersion>
    /** Whether the worker has an R2 binding is fixed by its environment. */
    const bucket: Option<Bucket>

    function Rows(): Db
      reads this
    {
      Db(users, teams, members, invitations, tasks, subtasks, comments, attachments, versions)
    }

    ghost predicate Valid()
      reads this
    {
      Consistent(Rows())
    }

    constructor(db: Db, bucket: Option<Bucket>)
      requires Consistent(db)
      ensures Rows() == db && this.bucket == bucket
      ensures Valid()
    {
      users, teams, members, invitations := db.users, db.teams, db.members, db.invitations;
      tasks, subtasks, comments, attachments, versions := db.tasks, db.subtasks, db.comments, db.attachments, db.versions;
      this.bucket := bucket;
    }

    /** Replaces every table at once, for the deletes, whose cascades are computed on `Db`. */
    method Load(db: Db)
      modifies this
      ensures Rows() == db
    {
      users, teams, members, invitations := db.users, db.teams, db.members, db.invitations;
      tasks, subtasks, comments, attachments, versions := db.tasks, db.subtasks, db.comments, db.attachments, db.versions;
    }

    // ------------------------------------------------------------- teams

    /**
     * `POST /api/teams` (index.ts:97-107): one team and exactly one
     * membership, the creator's, with role "owner".
     */
    method CreateTeam(caller: Option<Id>, name: string, teamId: Id, memberId: Id, now: Time) returns (r: Reply<TeamCreated>)
      requires Valid()
      requires forall t :: t in teams ==> t.id != teamId
      requires forall m :: m in members ==> m.id != memberId && m.teamId != teamId
      modifies this
      ensures Valid()
      ensures name == "" ==> r == BadRequest && Rows() == old(Rows())
      ensures name != "" && caller.None? ==> r == Unauthorized && Rows() == old(Rows())
      ensures name != "" && caller.Some? ==>
        && r == Created(TeamCreated(teamId, name))
        && Rows() == old(Rows()).(teams := old(teams) + [Team(teamId, name, now, now)],
                                  members := old(members) + [Membership(memberId, teamId, caller.value, Owner, now)])
    {
      if name == "" { return BadRequest; }
      if caller.None? { return Unauthorized; }
      var team := Team(teamId, name, now, now);
      var owner := Membership(memberId, teamId, caller.value, Owner, now);
      PairwiseAppend(teams, team, TeamsApart);
      PairwiseAppend(members, owner, MembershipsApart);
      teams := teams + [team];
      members := members + [owner];
      return Created(TeamCreated(teamId, name));
    }

    /** `GET /api/teams` (index.ts:109-115): the caller's teams with the caller's role in each. */
    method ListTeams(caller: Option<Id>) returns (r: Reply<seq<TeamRole>>)
      requires Valid()
      ensures caller.None? <==> r == Unauthorized
      ensures caller.Some? ==> r == Ok(TeamsOf(members, teams, caller.value))
      ensures caller.Some? ==> r.Ok? && forall x :: x in r.value <==>
        exists m, t :: m in members && t in teams && m.userId == caller.value && m.teamId == t.id && x == TeamRole(t.id, t.name, m.role)
    {
      if caller.None? { return Unauthorized; }
      var found := TeamsOf(members, teams, caller.value);
      forall x | x in found
        ensures exists m, t :: m in members && t in teams && m.userId == caller.value && m.teamId == t.id && x == TeamRole(t.id, t.name, m.role)
      {
        var m :| m in members && TeamRow(teams, caller.value, m) == Some(x);
        var t := FindTeam(teams, m.teamId).value;
        assert x == TeamRole(t.id, t.name, m.role);
      }
      forall m, t | m in members && t in teams && m.userId == caller.value && m.teamId == t.id
        ensures TeamRole(t.id, t.name, m.role) in found
      {
        FindTeamUnique(teams, t);
        assert TeamRow(teams, caller.value, m) == Some(TeamRole(t.id, t.name, m.role));
      }
      return Ok(found);
    }

    /**
     * `GET /api/teams/:teamId/members` (index.ts:117-126): a caller who is
     * not a member of the team is refused; a member sees every membership
     * of the team joined with its user.
     */
    method ListMembers(caller: Option<Id>, teamId: Id) returns (r: Reply<seq<MemberView>>)
      ensures caller.None? <==> r == Unauthorized
      ensures caller.Some? ==> (r == Forbidden <==> FindMembership(members, teamId, caller.value).None?)
      ensures caller.Some? && FindMembership(members, teamId, caller.value).Some? ==> r == Ok(MembersOf(members, users, teamId))
      ensures r.Ok? ==> forall x :: x in r.value ==> exists m :: m in members && m.teamId == teamId && m.userId == x.id && m.role == x.role
    {
      if caller.None? { return Unauthorized; }
      var membership := FindMembership(members, teamId, caller.value);
      if membership.None? { return Forbidden; }
      var found := MembersOf(members, users, teamId);
      forall x | x in found ensures exists m :: m in members && m.teamId == teamId && m.userId == x.id && m.role == x.role {
        var m :| m in members && MemberRow(users, teamId, m) == Some(x);
      }
      return Ok(found);
    }

    /**
     * `POST /api/teams/:teamId/invite` (index.ts:128-149): only an owner or
     * admin of the team may invite; an email already in the team is
     * refused; otherwise a "pending" invitation with role "member" is
     * recorded, and when a user has that email they are added to the team
     * as "member" and the invitation becomes "accepted". The handler reads
     * the clock twice: `now` stamps the invitation, `joinedAt` the membership.
     */
    method Invite(caller: Option<Id>, teamId: Id, email: string, inviteId: Id, memberId: Id, now: Time, joinedAt: Time) returns (r: Reply<InviteOutcome>)
      requires Valid()
      requires forall v :: v in invitations ==> v.id != inviteId
      requires forall m :: m in members ==> m.id != memberId
      modifies this
      ensures Valid()
      ensures caller.None? ==> r == Unauthorized && Rows() == old(Rows())
      ensures caller.Some? && !CanInvite(old(members), teamId, caller.value) ==> r == Forbidden && Rows() == old(Rows())
      ensures caller.Some? && CanInvite(old(members), teamId, caller.value) && TeamHasEmail(old(members), users, teamId, email) ==>
        r == BadRequest && Rows() == old(Rows())
      ensures caller.Some? && CanInvite(old(members), teamId, caller.value) && !TeamHasEmail(old(members), users, teamId, email) ==>
        match FindUserByEmail(users, email)
        case Some(u) =>
          && r == Ok(UserAdded)
          && Rows() == old(Rows()).(
               invitations := old(invitations) + [Invitation(inviteId, teamId, email, Member, Accepted, caller.value, now)],
               members := old(members) + [Membership(memberId, teamId, u.id, Member, joinedAt)])
        case None =>
          && r == Ok(InvitationCreated)
          && Rows() == old(Rows()).(invitations := old(invitations) + [Invitation(inviteId, teamId, email, Member, Pending, caller.value, now)])
    {
      if caller.None? { return Unauthorized; }
      var gate := FindMembership(members, teamId, caller.value);
      if gate.None? || gate.value.role == Member {
        assert !CanInvite(members, teamId, caller.value);
        return Forbidden;
      }
      if TeamHasEmail(members, users, teamId, email) { return BadRequest; }
      var pending := Invitation(inviteId, teamId, email, Member, Pending, caller.value, now);
      InsertInvitation(pending);
      var target := FindUserByEmail(users, email);
      if target.Some? {
        var u := target.value;
        var joined := Membership(memberId, teamId, u.id, Member, joinedAt);
        NotInTeamJoins(members, users, teamId, email, u, joined);
        InsertMember(joined);
        MarkAccepted(pending);
        return Ok(UserAdded);
      }
      return Ok(InvitationCreated);
    }

    /** Inserting an invitation row under a fresh id. */
    method InsertInvitation(v: Invitation)
      requires Valid()
      requires forall w :: w in invitations ==> w.id != v.id
      modifies this
      ensures Valid()
      ensures Rows() == old(Rows()).(invitations := old(invitations) + [v])
    {
      PairwiseAppend(invitations, v, InvitationsApart);
      invitations := invitations + [v];
    }

    /** Inserting a membership row for a user not yet in the team. */
    method InsertMember(m: Membership)
      requires Valid()
      requires forall n :: n in members ==> MembershipsApart(n, m)
      modifies this
      ensures Valid()
      ensures Rows() == old(Rows()).(members := old(members) + [m])
    {
      PairwiseAppend(members, m, MembershipsApart);
      members := members + [m];
    }

    /** Marking the invitation just inserted as accepted (index.ts:145). */
    method MarkAccepted(v: Invitation)
      requires Valid()
      requires |invitations| > 0 && invitations[|invitations| - 1] == v
      modifies this
      ensures Valid()
      ensures Rows() == old(Rows()).(invitations := old(invitations)[..|old(invitations)| - 1] + [v.(status := Accepted)])
    {
      var before := invitations[..|invitations| - 1];
      assert invitations == before + [v];
      assert forall w :: w in before ==> w.id != v.id by {
        forall w | w in before ensures w.id != v.id {
          var k :| 0 <= k < |before| && before[k] == w;
          assert InvitationsApart(invitations[k], invitations[|invitations| - 1]);
        }
      }
      AcceptLast(before, v);
      PairwiseAppend(before, v.(status := Accepted), InvitationsApart);
      invitations := AcceptInvitation(invitations, v.id);
    }

    // ------------------------------------------------------------- tasks

    /**
     * `GET /api/tasks` (index.ts:161-179). With a non-empty `teamId` query
     * parameter a non-member is refused and a member gets the team's
     * tasks; with none (or an empty one) the caller gets their own tasks
     * that belong to no team. Every task returned has a priority.
     */
    method ListTasks(caller: Option<Id>, teamId: Option<string>) returns (r: Reply<seq<Task>>)
      ensures caller.None? <==> r == Unauthorized
      ensures caller.Some? && Truthy(teamId) ==>
        (r == Forbidden <==> FindMembership(members, teamId.value, caller.value).None?)
      ensures caller.Some? && Truthy(teamId) && r.Ok? ==> r == Ok(WithDefaultPriorities(TeamTasks(tasks, teamId.value)))
      ensures caller.Some? && Truthy(teamId) && r.Ok? ==>
        forall t :: t in r.value <==> exists s :: s in tasks && s.teamId == teamId && t == WithDefaultPriority(s)
      ensures caller.Some? && !Truthy(teamId) ==> r == Ok(WithDefaultPriorities(PersonalTasks(tasks, caller.value)))
      ensures caller.Some? && !Truthy(teamId) ==>
        r.Ok? && forall t :: t in r.value <==> exists s :: s in tasks && s.userId == caller.value && s.teamId.None? && t == WithDefaultPriority(s)
      ensures r.Ok? ==> forall t :: t in r.value ==> t.priority.Some?
      ensures r.Ok? || r.Unauthorized? || r.Forbidden?
    {
      if caller.None? { return Unauthorized; }
      if Truthy(teamId) {
        var isMember := FindMembership(members, teamId.value, caller.value);
        if isMember.None? { return Forbidden; }
        var found := TeamTasks(tasks, teamId.value);
        return Ok(WithDefaultPriorities(found));
      }
      var own := PersonalTasks(tasks, caller.value);
      return Ok(WithDefaultPriorities(own));
    }

    /**
     * `GET /api/tasks/:id` (index.ts:181-190): any signed-in caller gets the
     * task, whatever team it belongs to, with its priority defaulted.
     */
    method GetTask(caller: Option<Id>, taskId: Id) returns (r: Reply<Task>)
      ensures caller.None? <==> r == Unauthorized
      ensures caller.Some? ==> (r == NotFound <==> !TaskExists(tasks, taskId))
      ensures r.Ok? ==> r.value.id == taskId && r.value.priority.Some?
      ensures r.Ok? ==> exists s :: s in tasks && s.id == taskId && r.value == WithDefaultPriority(s)
      ensures r.Ok? || r.Unauthorized? || r.NotFound?
    {
      if caller.None? { return Unauthorized; }
      var found := FindTask(tasks, taskId);
      if found.None? { return NotFound; }
      return Ok(WithDefaultPriority(found.value));
    }

    /**
     * `POST /api/tasks` (index.ts:192-219): a caller naming a team they are
     * not in is refused; otherwise exactly one task is appended, owned by
     * the caller, with the defaults of `NewTaskRow`.
     */
    method CreateTask(caller: Option<Id>, body: NewTask, taskId: Id, now: Time) returns (r: Reply<Task>)
      requires Valid()
      requires forall t :: t in tasks ==> t.id != taskId
      modifies this
      ensures Valid()
      ensures !ValidNewTask(body) ==> r == BadRequest && Rows() == old(Rows())
      ensures ValidNewTask(body) && caller.None? ==> r == Unauthorized && Rows() == old(Rows())
      ensures ValidNewTask(body) && caller.Some? && Truthy(body.teamId) && FindMembership(old(members), body.teamId.value, caller.value).None? ==>
        r == Forbidden && Rows() == old(Rows())
      ensures ValidNewTask(body) && caller.Some? && (!Truthy(body.teamId) || FindMembership(old(members), body.teamId.value, caller.value).Some?) ==>
        r == Created(NewTaskRow(body, taskId, caller.value, now))
      ensures r.Created? ==>
        && ValidNewTask(body) && caller.Some?
        && (Truthy(body.teamId) ==> FindMembership(old(members), body.teamId.value, caller.value).Some?)
        && r.value == NewTaskRow(body, taskId, caller.value, now)
        && Rows() == old(Rows()).(tasks := old(tasks) + [r.value])
      ensures r.Created? || r.BadRequest? || r.Unauthorized? || r.Forbidden?
    {
      if !ValidNewTask(body) { return BadRequest; }
      if caller.None? { return Unauthorized; }
      if Truthy(body.teamId) {
        var isMember := FindMembership(members, body.teamId.value, caller.value);
        if isMember.None? { return Forbidden; }
      }
      var row := NewTaskRow(body, taskId, caller.value, now);
      PairwiseAppend(tasks, row, TasksApart);
      tasks := tasks + [row];
      return Created(row);
    }

    /**
     * `PATCH /api/tasks/:id` (index.ts:221-255), open to any signed-in
     * caller. A missing task is NotFound with no ledger entry. Otherwise
     * one "update" entry holding the prior row and the prior row merged
     * with the body is appended first, and then the row takes the body's
     * present fields and `updatedAt = now`. When that second write fails
     * (`updateFails`) the entry stays and the reply is a server error.
     */
    method UpdateTask(caller: Option<Id>, taskId: Id, patch: TaskPatch, versionId: Id, now: Time, updateFails: bool)
      returns (r: Reply<Task>)
      requires Valid()
      requires forall v :: v in versions ==> v.id != versionId && v.createdAt <= now
      modifies this
      ensures Valid()
      ensures !ValidTaskPatch(patch) ==> r == BadRequest && Rows() == old(Rows())
      ensures ValidTaskPatch(patch) && caller.None? ==> r == Unauthorized && Rows() == old(Rows())
      ensures ValidTaskPatch(patch) && caller.Some? && !TaskExists(old(tasks), taskId) ==> r == NotFound && Rows() == old(Rows())
      ensures ValidTaskPatch(patch) && caller.Some? && TaskExists(old(tasks), taskId) ==>
        var prior := FindTask(old(tasks), taskId).value;
        && versions == old(versions) + [TaskVersion(versionId, taskId, caller.value, "update",
                                           Some(TaskState(prior)), Some(TaskState(MergePatch(prior, patch))), now)]
        && (updateFails ==> r == ServerError && Rows() == old(Rows()).(versions := versions))
        && (!updateFails ==>
              && r == Ok(PatchedTask(prior, patch, now))
              && Rows() == old(Rows()).(versions := versions, tasks := PatchTasks(old(tasks), taskId, patch, now)))
    {
      if !ValidTaskPatch(patch) { return BadRequest; }
      if caller.None? { return Unauthorized; }
      var existing := FindTask(tasks, taskId);
      if existing.None? { return NotFound; }
      var prior := existing.value;
      var entry := TaskVersion(versionId, taskId, caller.value, "update", Some(TaskState(prior)), Some(TaskState(MergePatch(prior, patch))), now);
      InsertVersion(entry);
      if updateFails { return ServerError; }
      ReadBackPatched(tasks, taskId, patch, now, prior);
      SetTaskFields(taskId, patch, now);
      var updated := FindTask(tasks, taskId);
      return Ok(updated.value);
    }

    /** Inserting a ledger entry: the ledger is append-only and chronological. */
    method InsertVersion(v: TaskVersion)
      requires Valid()
      requires forall w :: w in versions ==> w.id != v.id && w.createdAt <= v.createdAt
      modifies this
      ensures Valid()
      ensures Rows() == old(Rows()).(versions := old(versions) + [v])
    {
      PairwiseAppend(versions, v, VersionsInOrder);
      versions := versions + [v];
    }

    /** Writing the patched row of one task (index.ts:252). */
    method SetTaskFields(taskId: Id, patch: TaskPatch, now: Time)
      requires Valid()
      modifies this
      ensures Valid()
      ensures Rows() == old(Rows()).(tasks := PatchTasks(old(tasks), taskId, patch, now))
    {
      PatchTasksApart(tasks, taskId, patch, now);
      tasks := PatchTasks(tasks, taskId, patch, now);
    }

    /**
     * `DELETE /api/tasks/:id` (index.ts:257-264), open to any signed-in
     * caller: the task goes with its subtasks, comments, attachments and
     * ledger entries; deleting a missing task succeeds and changes nothing.
     */
    method DeleteTask(caller: Option<Id>, taskId: Id) returns (r: Reply<()>)
      requires Valid()
      modifies this
      ensures Valid()
      ensures caller.None? ==> r == Unauthorized && Rows() == old(Rows())
      ensures caller.Some? ==> r == Ok(()) && Rows() == DeleteTaskRows(old(Rows()), taskId)
    {
      if caller.None? { return Unauthorized; }
      Load(DeleteTaskRows(Rows(), taskId));
      return Ok(());
    }

    // --------------------------------------------------------- comments

    /**
     * `GET /api/tasks/:id/comments` (index.ts:269-279), which needs no
     * session: the task's comments with their authors, newest first.
     */
    method ListComments(taskId: Id) returns (r: Reply<seq<CommentView>>)
      ensures r == Ok(CommentFeed(comments, users, taskId))
      ensures forall x :: x in r.value <==> exists c :: c in comments && CommentRow(users, taskId, c) == Some(x)
      ensures Valid() ==> CommentsNewestFirst(r.value)
    {
      var feed := CommentFeed(comments, users, taskId);
      if Valid() { CommentFeedNewestFirst(comments, users, taskId); }
      return Ok(feed);
    }

    /**
     * `POST /api/tasks/:id/comments` (index.ts:281-292): the comment and
     * one "comment" ledger entry with no previous data and the content as
     * new data.
     */
    method AddComment(caller: Option<Id>, taskId: Id, content: string, commentId: Id, versionId: Id, now: Time)
      returns (r: Reply<Comment>)
      requires Valid()
      requires forall c :: c in comments ==> c.id != commentId && c.createdAt <= now
      requires forall v :: v in versions ==> v.id != versionId && v.createdAt <= now
      modifies this
      ensures Valid()
      ensures content == "" ==> r == BadRequest && Rows() == old(Rows())
      ensures content != "" && caller.None? ==> r == Unauthorized && Rows() == old(Rows())
      ensures content != "" && caller.Some? ==>
        && r == Created(Comment(commentId, taskId, caller.value, content, now))
        && Rows() == old(Rows()).(
             comments := old(comments) + [r.value],
             versions := old(versions) + [TaskVersion(versionId, taskId, caller.value, "comment", None, Some(CommentBody(content)), now)])
    {
      if content == "" { return BadRequest; }
      if caller.None? { return Unauthorized; }
      var c := Comment(commentId, taskId, caller.value, content, now);
      var entry := TaskVersion(versionId, taskId, caller.value, "comment", None, Some(CommentBody(content)), now);
      PairwiseAppend(comments, c, CommentsInOrder);
      PairwiseAppend(versions, entry, VersionsInOrder);
      comments := comments + [c];
      versions := versions + [entry];
      return Created(c);
    }

    // ------------------------------------------------------ attachments

    /** `GET /api/tasks/:id/attachments` (index.ts:295-300), which needs no session. */
    method ListAttachments(taskId: Id) returns (r: Reply<seq<Attachment>>)
      ensures r == Ok(AttachmentsOf(attachments, taskId))
      ensures forall a :: a in r.value <==> a in attachments && a.taskId == taskId
    {
      return Ok(AttachmentsOf(attachments, taskId));
    }

    /**
     * `POST /api/tasks/:id/attachments` (index.ts:302-310): one attachment
     * row owned by the caller; unlike comments and updates it writes no
     * ledger entry.
     */
    method AddAttachment(caller: Option<Id>, taskId: Id, body: AttachmentInput, attachmentId: Id, now: Time)
      returns (r: Reply<()>)
      requires Valid()
      requires forall a :: a in attachments ==> a.id != attachmentId
      modifies this
      ensures Valid()
      ensures caller.None? ==> r == Unauthorized && Rows() == old(Rows())
      ensures caller.Some? ==>
        && r == Ok(())
        && Rows() == old(Rows()).(attachments := old(attachments) + [Attachment(attachmentId, taskId, caller.value,
             body.fileName, body.fileUrl, body.fileType, body.fileSize, now)])
      ensures versions == old(versions)
    {
      if caller.None? { return Unauthorized; }
      var a := Attachment(attachmentId, taskId, caller.value, body.fileName, body.fileUrl, body.fileType, body.fileSize, now);
      PairwiseAppend(attachments, a, AttachmentsApart);
      attachments := attachments + [a];
      return Ok(());
    }

    /**
     * `POST /api/tasks/:id/attachments/upload` (index.ts:313-356). The
     * session is checked first, then the multipart content type, then the
     * presence of a file. With a bucket the bytes are put under a fresh key
     * and the row points at the worker's `/r2/` URL; without one the row
     * holds the whole file as a base64 data URL. A failed put is a server
     * error that writes nothing. No ledger entry is written.
     */
    method UploadAttachment(caller: Option<Id>, taskId: Id, req: UploadRequest, keyId: Id, attachmentId: Id,
                            encodeUri: string -> string, now: Time, putFails: bool)
      returns (r: Reply<string>)
      requires Valid()
      requires forall a :: a in attachments ==> a.id != attachmentId
      modifies this, if bucket.Some? then {bucket.value} else {}
      ensures Valid()
      ensures !r.Ok? ==> Rows() == old(Rows())
      ensures !r.Ok? && bucket.Some? ==> bucket.value.objects == old(bucket.value.objects)
      ensures caller.None? ==> r == Unauthorized
      ensures caller.Some? && !Includes(req.contentType.GetOr(""), "multipart/form-data") ==> r == BadRequest
      ensures caller.Some? && Includes(req.contentType.GetOr(""), "multipart/form-data") && req.file.None? ==> r == BadRequest
      ensures caller.Some? && Includes(req.contentType.GetOr(""), "multipart/form-data") && req.file.Some? ==>
        var f := req.file.value;
        var key := ObjectKey(taskId, keyId, encodeUri, UploadName(f));
        var url := if bucket.Some? then ObjectUrl(encodeUri, key) else DataUrl(UploadType(f), f.bytes);
        && (bucket.Some? && putFails ==> r == ServerError)
        && (bucket.Some? && !putFails ==> bucket.value.objects == old(bucket.value.objects)[key := StoredObject(f.bytes, UploadType(f))])
        && (bucket.None? || !putFails ==>
              && r == Ok(url)
              && Rows() == old(Rows()).(attachments := old(attachments) + [Attachment(attachmentId, taskId, caller.value,
                   UploadName(f), url, UploadType(f), Some(|f.bytes|), now)]))
    {
      if caller.None? { return Unauthorized; }
      var contentType := req.contentType.GetOr("");
      if !Includes(contentType, "multipart/form-data") { return BadRequest; }
      if req.file.None? { return BadRequest; }
      var f := req.file.value;
      var fileName := UploadName(f);
      var fileType := UploadType(f);
      var key := ObjectKey(taskId, keyId, encodeUri, fileName);
      var fileUrl;
      match bucket {
        case Some(b) =>
          if putFails { return ServerError; }
          b.Put(key, StoredObject(f.bytes, fileType));
          fileUrl := ObjectUrl(encodeUri, key);
        case None =>
          var binary := BinaryString(f.bytes);
          var base64 := Btoa(binary);
          fileUrl := "data:" + fileType + ";base64," + base64.value;
      }
      var a := Attachment(attachmentId, taskId, caller.value, fileName, fileUrl, fileType, Some(|f.bytes|), now);
      PairwiseAppend(attachments, a, AttachmentsApart);
      attachments := attachments + [a];
      return Ok(fileUrl);
    }

    // --------------------------------------------------------- subtasks

    /**
     * `GET /api/tasks/:id/subtasks` (index.ts:371-376), which needs no
     * session: the task's subtasks in ascending order.
     */
    method ListSubtasks(taskId: Id) returns (r: Reply<seq<Subtask>>)
      ensures r.Ok?
      ensures forall s :: s in r.value <==> s in subtasks && s.taskId == taskId
      ensures multiset(r.value) == multiset(SubtasksOf(subtasks, taskId))
      ensures SortedByOrder(r.value)
    {
      var own := SubtasksOf(subtasks, taskId);
      var sorted := SortByOrder(own);
      assert forall s :: s in sorted <==> s in own by {
        forall s ensures s in sorted <==> s in own {
          assert s in sorted <==> s in multiset(sorted);
        }
      }
      return Ok(sorted);
    }

    /**
     * `POST /api/tasks/:id/subtasks` (index.ts:378-392): the new subtask is
     * not completed and goes after every existing subtask of the task.
     */
    method AddSubtask(caller: Option<Id>, taskId: Id, title: string, subtaskId: Id, now: Time) returns (r: Reply<Subtask>)
      requires Valid()
      requires forall s :: s in subtasks ==> s.id != subtaskId
      modifies this
      ensures Valid()
      ensures title == "" ==> r == BadRequest && Rows() == old(Rows())
      ensures title != "" && caller.None? ==> r == Unauthorized && Rows() == old(Rows())
      ensures title != "" && caller.Some? ==>
        && r == Created(Subtask(subtaskId, taskId, title, false, NextOrder(old(subtasks), taskId), now))
        && Rows() == old(Rows()).(subtasks := old(subtasks) + [r.value])
    {
      if title == "" { return BadRequest; }
      if caller.None? { return Unauthorized; }
      var nextOrder := NextOrder(subtasks, taskId);
      var s := Subtask(subtaskId, taskId, title, DefaultSubtaskCompleted, nextOrder, now);
      PairwiseAppend(subtasks, s, SubtasksApart);
      subtasks := subtasks + [s];
      return Created(s);
    }

    /**
     * `PATCH /api/tasks/:taskId/subtasks/:subtaskId` (index.ts:394-412):
     * the subtask is found by its own id alone; only the body's present
     * fields change. A body with no field leaves nothing to SET, and that
     * statement fails: a server error that changes nothing.
     */
    method UpdateSubtask(caller: Option<Id>, subtaskId: Id, patch: SubtaskPatch) returns (r: Reply<Subtask>)
      requires Valid()
      modifies this
      ensures Valid()
      ensures !ValidSubtaskPatch(patch) ==> r == BadRequest && Rows() == old(Rows())
      ensures ValidSubtaskPatch(patch) && caller.None? ==> r == Unauthorized && Rows() == old(Rows())
      ensures ValidSubtaskPatch(patch) && caller.Some? && FindSubtask(old(subtasks), subtaskId).None? ==>
        r == NotFound && Rows() == old(Rows())
      ensures ValidSubtaskPatch(patch) && caller.Some? && FindSubtask(old(subtasks), subtaskId).Some? ==>
        if patch == SubtaskPatch(None, None, None) then r == ServerError && Rows() == old(Rows())
        else
          && r == Ok(PatchedSubtask(FindSubtask(old(subtasks), subtaskId).value, patch))
          && Rows() == old(Rows()).(subtasks := PatchSubtasks(old(subtasks), subtaskId, patch))
    {
      if !ValidSubtaskPatch(patch) { return BadRequest; }
      if caller.None? { return Unauthorized; }
      var existing := FindSubtask(subtasks, subtaskId);
      if existing.None? { return NotFound; }
      if patch == SubtaskPatch(None, None, None) { return ServerError; }
      var patched := PatchSubtasks(subtasks, subtaskId, patch);
      PatchSubtasksApart(subtasks, subtaskId, patch);
      ReadBackPatchedSubtask(subtasks, subtaskId, patch, existing.value);
      subtasks := patched;
      assert Rows() == old(Rows()).(subtasks := patched);
      var updated := FindSubtask(subtasks, subtaskId);
      return Ok(updated.value);
    }

    /**
     * `DELETE /api/tasks/:taskId/subtasks/:subtaskId` (index.ts:414-421):
     * the subtask with that id goes; every other subtask stays as it was,
     * its order included (orders are not compacted).
     */
    method DeleteSubtask(caller: Option<Id>, subtaskId: Id) returns (r: Reply<()>)
      requires Valid()
      modifies this
      ensures Valid()
      ensures caller.None? ==> r == Unauthorized && Rows() == old(Rows())
      ensures caller.Some? ==> r == Ok(())
      ensures caller.Some? ==> Rows() == old(Rows()).(subtasks := Filter(old(subtasks), (s: Subtask) => s.id != subtaskId))
      ensures forall s :: s in subtasks <==> s in old(subtasks) && (caller.None? || s.id != subtaskId)
    {
      if caller.None? { return Unauthorized; }
      var keep := (s: Subtask) => s.id != subtaskId;
      FilterPairwise(subtasks, keep, SubtasksApart);
      subtasks := Filter(subtasks, keep);
      return Ok(());
    }

    // ---------------------------------------------------------- history

    /**
     * `GET /api/tasks/:id/history` (index.ts:423-433), which needs no
     * session: the task's ledger entries with their authors, newest first.
     */
    method History(taskId: Id) returns (r: Reply<seq<HistoryItem>>)
      ensures r == Ok(HistoryOf(versions, users, taskId))
      ensures forall x :: x in r.value <==> exists v :: v in versions && HistoryRow(users, taskId, v) == Some(x)
      ensures Valid() ==> HistoryNewestFirst(r.value)
    {
      var history := HistoryOf(versions, users, taskId);
      if Valid() { HistoryOfNewestFirst(versions, users, taskId); }
      return Ok(history);
    }
  }
}
