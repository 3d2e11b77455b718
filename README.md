# Task tracker collaboration core, in Dafny

This project models the core of a team task tracker. A Cloudflare worker
keeps teams, memberships, invitations, tasks, subtasks, comments,
attachments and an audit ledger of task versions in a SQL database. A React
client shows the tasks on a kanban board and lets team admins invite users.

The model has these files:

- `schema.dfy` (module `Schema`) covers the tables of
  `src/worker/db/schema.ts`:
  - the status, priority, role and invitation enums;
  - the column defaults for task status and priority and for subtask
    completion. The schema also declares defaults for the member role, the
    invitation role and status, and the subtask order. The model leaves
    them out, because every insert writes those columns explicitly
    (index.ts:140, 144, 387);
  - one datatype per row;
  - the predicate `Consistent`. It holds the primary-key and unique-email
    constraints the schema declares. It also holds three invariants that
    the schema does not declare but the routes keep: one membership per
    (team, user), kept by the invite route's guard; and comments and
    ledger entries in time order, kept because each is stamped with a
    clock reading no earlier than those already stored;
  - the `onDelete` rules as delete functions on the whole database.
- `queries.dfy` (module `Queries`) covers the pure part of the route
  handlers of `src/worker/index.ts`:
  - request bodies and the zod checks;
  - the lookups: membership, task, subtask, user and team;
  - the rows the handlers build: a new task, the ledger view
    `{ ...existing, ...body }`, a patched task or subtask;
  - the next subtask order;
  - the joined read views: teams, members, comments and history.
- `store.dfy` (module `Worker`) holds the route handlers as methods of the
  class `TaskStore`. Its fields are the tables, and each handler becomes a
  method that returns a `Reply`:
  - `Ok` or `Created` for success;
  - `Unauthorized` (401), `Forbidden` (403), `NotFound` (404),
    `BadRequest` (400) or `ServerError` (500) otherwise.

  The R2 bucket is the class `Bucket`.
- `base64.dfy` (module `Base64`) covers the upload fallback:
  - the byte-to-char loop;
  - `btoa`, with the alphabet and padding of section 4 of RFC 4648, with
    a decoder and the round trip proved;
  - the `data:` URL of RFC 2397, with a parser and its round trip.
- `kanban.dfy` (module `Kanban`) models the board of
  `src/react-app/components/kanban-board.tsx` as the class `Board`:
  - seeding the local list;
  - the optimistic status change and its one request;
  - the revert on failure;
  - the columns as a partition of the local list.
- `members_dialog.dfy` (module `MembersDialog`) models the invite dialog of
  `src/react-app/components/members-dialog.tsx`:
  - the available-users filter;
  - the class `InviteForm` for the selection and its guard.

How the model stands in for the environment:

- The session lookup becomes a `caller: Option<Id>` argument.
- `crypto.randomUUID()` results become fresh-id arguments. Their freshness
  is a precondition.
- `new Date()` becomes a `now` argument. It is no earlier than the
  comments and ledger entries already stored.
- `encodeURIComponent` becomes a function argument `encodeUri`.
- The zod validators become checks that run before the handler, so a bad
  body is `BadRequest` even without a session.
- A table is a `seq` in insertion order. SQL `ORDER BY` becomes an
  explicit order on the result.

Where the code differs from the intended design, the model follows the
code:

- Attachment rows are written without a ledger entry
  (`AddAttachment`, `UploadAttachment`).
- GET, PATCH and DELETE of a single task check for a session only, not
  for team membership.
- The comment, attachment, subtask and history list routes need no
  session.
- An empty `teamId` is falsy. On `POST /api/tasks` it skips the
  membership check. The model then stores it as given, because it does
  not model foreign-key checks on insert (see "## Left out"); SQLite would
  refuse a `team_id` of `""` and the route would answer 500. On
  `GET /api/tasks` an empty `teamId` lists the personal tasks.
- The `priority` column is `notNull().default("medium")`, but the two GET
  task routes (`GET /api/tasks` and `GET /api/tasks/:id`) still default a
  missing priority. The stored `priority` is therefore an `Option`. The
  PATCH read-back and the ledger snapshots return the row as stored,
  without that default.

## Model

| member | source | states |
|---|---|---|
| Schema.ParseStatus | src/worker/db/schema.ts:78-79 | a string is a status exactly when it is the stored name of one of todo, in_progress, completed |
| Schema.ParsePriority | src/worker/db/schema.ts:81-82 | a string is a priority exactly when it is the stored name of one of low, medium, high |
| Schema.EmailsUnique | src/worker/db/schema.ts:7 | in a consistent database two users with the same email are the same user |
| Schema.DeleteTasksWhere | src/worker/db/schema.ts:103-138 | deleting tasks removes exactly the subtasks, comments, attachments and ledger entries of the deleted tasks; other tables are unchanged; nothing changes when no task is selected; consistency is kept |
| Schema.DeleteTaskRows | src/worker/db/schema.ts:105-138 | deleting an existing task removes exactly it and the child rows with its task id and nothing else; a missing id changes nothing; consistency is kept |
| Schema.DeleteTeamRows | src/worker/db/schema.ts:58-138 | deleting an existing team removes exactly its memberships, invitations and tasks, and exactly the subtasks, comments, attachments and ledger entries of those tasks; users and every other row are kept; a missing team changes nothing; consistency is kept |
| Schema.Unassign | src/worker/db/schema.ts:92 | every task assigned to the removed user loses its assignee; the length, the order and every other task are unchanged |
| Schema.UnassignApart | src/worker/db/schema.ts:85 | clearing assignees keeps task ids distinct |
| Schema.ClearUser | src/worker/db/schema.ts:61-139 | the cascades of deleting a user: exactly the user, their memberships and their owned tasks go, with exactly the subtasks, comments, attachments and ledger entries of those tasks; the tasks assigned to them lose the assignee and every other row is kept; consistency is kept |
| Schema.DeleteUserRows | src/worker/db/schema.ts:61-139 | among the tables modelled, deleting an existing user is refused (None) exactly when, after the cascades, an invitation they sent, or a comment, attachment or ledger entry of theirs, still references them (the session and account rows are not modelled, see "## Left out"); otherwise the result is the cascaded database, in which no row references them; a missing user changes nothing |
| Schema.DeletedUserHasNoTasks | src/worker/db/schema.ts:90-92 | after a user is deleted no task is owned by or assigned to them |
| Seqs.Filter | src/react-app/components/members-dialog.tsx:50-52 | the kept elements are exactly those that satisfy the predicate, and there are no more of them than in the input |
| Seqs.FilterConcat | src/react-app/components/kanban-board.tsx:104 | filtering distributes over concatenation, so the kept elements keep their relative order |
| Seqs.FilterCount | src/react-app/components/members-dialog.tsx:50-52 | a filter keeps every selected element exactly as often as it occurs in the input and drops every other one |
| Seqs.FilterKeepsAll | src/react-app/components/members-dialog.tsx:50-52 | a filter whose predicate holds everywhere returns its input |
| Seqs.FilterPairwise | src/worker/index.ts:419 | deleting rows keeps a property that holds between every pair of rows, such as distinct keys or chronological order |
| Seqs.FindFirst | src/worker/index.ts:122 | a lookup finds nothing exactly when no row matches; otherwise it returns the first matching row |
| Seqs.MapWhere | src/worker/index.ts:252 | an UPDATE ... WHERE leaves the length and order alone and replaces exactly the matching rows |
| Seqs.FindFirstMapWhere | src/worker/index.ts:253 | reading back the first matching row after an update gives the updated first row |
| Seqs.Includes | src/worker/index.ts:319 | `includes` holds exactly when the substring occurs at some position |
| Queries.FindMembership | src/worker/index.ts:122 | the result is a membership of that user in that team, and None exactly when there is none |
| Queries.FindTask | src/worker/index.ts:227 | the result is a task with that id, and None exactly when no task has it |
| Queries.FindSubtask | src/worker/index.ts:401 | the result is a subtask with that id, and None exactly when no subtask has it |
| Queries.FindUserByEmail | src/worker/index.ts:142 | the result is a user with that email, and None exactly when there is none |
| Queries.FindTeamUnique | src/worker/index.ts:113 | with distinct team ids, the lookup by a team's id returns that team |
| Queries.FindMembershipUnique | src/worker/index.ts:122 | with one membership per (team, user), the lookup of a pair returns that pair's membership |
| Queries.CanInviteIff | src/worker/index.ts:134-135 | with one membership per (team, user), the invite gate admits a caller exactly when they hold an owner or admin membership of the team |
| Queries.TeamHasEmailIff | src/worker/index.ts:136-142 | with unique emails, the email is already in the team exactly when the user found by that email is a member of it |
| Queries.NotInTeamJoins | src/worker/index.ts:136-144 | when no member of the team has the email, the membership added for the user with that email clashes with no existing one |
| Queries.TeamTasks | src/worker/index.ts:170 | exactly the tasks of the team, each as often as it occurs in the table |
| Queries.PersonalTasks | src/worker/index.ts:175 | exactly the caller's own tasks that belong to no team, each as often as it occurs in the table |
| Queries.WithDefaultPriority | src/worker/index.ts:189 | the task has a priority: its own when it had one, in which case the task is unchanged, and "medium" otherwise; nothing but the priority changes |
| Queries.WithDefaultPriorities | src/worker/index.ts:172 | the same rows in the same order, each with a priority, which is the stored one or "medium" when missing; nothing but the priority changes |
| Queries.NewTaskRow | src/worker/index.ts:204-216 | the new task belongs to the caller, with status "todo" and priority "medium" when absent, absent optional fields stored as null, and both timestamps the current time |
| Queries.MergePatch | src/worker/index.ts:240 | each field present in the body replaces the row's, and every absent field and every field the body cannot carry is the row's |
| Queries.PatchedTask | src/worker/index.ts:244-252 | the patched row keeps its id, owner, team, due date and creation time, and its update time is now; an empty body changes only the update time; a body the schema accepts never empties a non-empty title |
| Queries.PatchTasks | src/worker/index.ts:244-252 | the update changes only the task with that id, to the patched row; every other task, the order and the ids are unchanged |
| Queries.PatchTasksApart | src/worker/index.ts:252 | a task update keeps task ids distinct |
| Queries.PatchedIsMergedSnapshot | src/worker/index.ts:240-252 | the stored row after an update is the ledger's new data with only `updatedAt` set to now |
| Queries.PatchIdempotent | src/worker/index.ts:244-252 | applying the same body twice gives the row of applying it once, apart from `updatedAt` |
| Queries.ReadBackPatched | src/worker/index.ts:252-253 | reading the task back after the update gives the patched row |
| Queries.AcceptInvitation | src/worker/index.ts:145 | only the invitation with that id changes, and it becomes "accepted" |
| Queries.AcceptLast | src/worker/index.ts:140-145 | accepting the invitation just appended under a fresh id changes that row alone |
| Queries.MaxOrder | src/worker/index.ts:386 | None exactly when the task has no subtask; otherwise an order some subtask of the task has, and no subtask of the task has a larger one |
| Queries.NextOrder | src/worker/index.ts:386-387 | larger than every existing order of the task's subtasks, one more than the largest one, and 0 when there is none |
| Queries.PatchedSubtask | src/worker/index.ts:404-409 | each field present in the body replaces the subtask's; the rest of the row is unchanged; a body the schema accepts never empties a non-empty title |
| Queries.PatchSubtasks | src/worker/index.ts:409 | only the subtask with that id changes; every other subtask, the order and the ids are unchanged |
| Queries.ReadBackPatchedSubtask | src/worker/index.ts:409-410 | reading the subtask back after the update gives the patched row |
| Queries.PatchSubtasksApart | src/worker/index.ts:409 | a subtask update keeps subtask ids distinct |
| Queries.SubtasksOf | src/worker/index.ts:374 | exactly the subtasks of the task |
| Queries.InsertByOrder | src/worker/index.ts:374 | inserting into a list sorted by order keeps it sorted and adds exactly that subtask |
| Queries.SortByOrder | src/worker/index.ts:374 | the result is sorted by ascending order and is a permutation of the input |
| Queries.TeamRow | src/worker/index.ts:113 | a membership yields a row exactly when it is the caller's and its team exists; the row carries the team's id and name and the membership's role |
| Queries.TeamsOf | src/worker/index.ts:113 | the rows are exactly those the caller's memberships yield, one row per yielding membership |
| Queries.MemberRow | src/worker/index.ts:124 | a membership yields a row exactly when it is in the team and its user exists; the row carries the user's fields and the membership's role and join time |
| Queries.MembersOf | src/worker/index.ts:124 | the rows are exactly those the team's memberships yield, one row per yielding membership |
| Queries.CommentRow | src/worker/index.ts:272-277 | a comment yields a row exactly when it is on the task and its author exists; the row carries the comment and its author |
| Queries.CommentFeed | src/worker/index.ts:272-277 | the rows are exactly those the task's comments yield |
| Queries.CommentFeedLength | src/worker/index.ts:272-277 | the feed has exactly one row per comment of the task whose author exists |
| Queries.CommentFeedNewestFirst | src/worker/index.ts:277 | over a chronological comment table, the feed is newest first |
| Queries.HistoryRow | src/worker/index.ts:426-431 | a ledger entry yields a row exactly when it is about the task and its author exists; the row carries the entry and its author's name and image |
| Queries.HistoryOf | src/worker/index.ts:426-431 | the rows are exactly those the task's ledger entries yield |
| Queries.HistoryOfLength | src/worker/index.ts:426-431 | the history has exactly one row per ledger entry of the task whose author exists |
| Queries.HistoryOfNewestFirst | src/worker/index.ts:431 | over a chronological ledger, the history is newest first |
| Queries.AttachmentsOf | src/worker/index.ts:298 | exactly the attachments of the task, each as often as it occurs in the table |
| Base64.EncodeSextet | src/worker/index.ts:347 | a base64 digit is never the padding char |
| Base64.DecodeChar | src/worker/index.ts:347 | decoding a char gives the digit that encodes to it |
| Base64.DecodeEncodeSextet | src/worker/index.ts:347 | every digit decodes back to its value |
| Base64.EncodeGroup | src/worker/index.ts:347 | three bytes give four digits without padding |
| Base64.Encode | src/worker/index.ts:347 | the output has four chars per started group of three bytes |
| Base64.DecodeEncode | src/worker/index.ts:347 | decoding the encoding gives back the bytes |
| Base64.EncodeKnownAnswers | src/worker/index.ts:347 | the encoder meets the test vectors of section 10 of RFC 4648 for "f", "fo", "foo" and "foob" |
| Base64.Btoa | src/worker/index.ts:347 | `btoa` succeeds exactly on binary strings, and its output decodes to the bytes the chars stand for |
| Base64.BinaryString | src/worker/index.ts:345-346 | the loop builds a binary string whose chars stand for exactly the file's bytes |
| Base64.IndexOf | src/worker/index.ts:348 | the position of the first occurrence of the char, and None exactly when it does not occur |
| Base64.ParseDataUrlRoundTrip | src/worker/index.ts:348 | the data URL of a file gives back its type and bytes, for a type without a comma |
| Worker.UploadName | src/worker/index.ts:327 | the file name is never empty and is the given one when that is not empty |
| Worker.UploadType | src/worker/index.ts:328 | the file type is never empty and is the given one when that is not empty |
| Worker.ObjectKeysApart | src/worker/index.ts:333 | two uploads to one task with different fresh ids of one length get different bucket keys, whatever the file names |
| Worker.Bucket.Put | src/worker/index.ts:336-338 | the bucket maps the key to the stored object and every other key as before |
| Worker.TaskStore.constructor | src/worker/db/schema.ts:4-146 | a store is built from a consistent database |
| Worker.TaskStore.CreateTeam | src/worker/index.ts:97-107 | a bad name is BadRequest and no session is Unauthorized, both with nothing changed; otherwise exactly one team and exactly one "owner" membership for the caller are appended |
| Worker.TaskStore.ListTeams | src/worker/index.ts:109-115 | no session is Unauthorized; otherwise the result is exactly `TeamsOf` over the tables: one row per membership of the caller whose team exists, with the team's id and name and the caller's role |
| Worker.TaskStore.ListMembers | src/worker/index.ts:117-126 | no session is Unauthorized; a caller not in the team is Forbidden; a member always gets Ok with exactly the team's memberships joined with their users |
| Worker.TaskStore.Invite | src/worker/index.ts:128-149 | no session is Unauthorized; a non-member or plain member is Forbidden; an email already in the team is BadRequest; all three change nothing. Otherwise one "member" invitation stamped with the first clock reading is appended: for a known user it is "accepted" and exactly one "member" membership of that user, stamped with the second reading, is appended, else it stays "pending" |
| Worker.TaskStore.InsertInvitation | src/worker/index.ts:140 | an invitation insert appends exactly that row |
| Worker.TaskStore.InsertMember | src/worker/index.ts:144 | a membership insert appends exactly that row, for a user not yet in the team |
| Worker.TaskStore.MarkAccepted | src/worker/index.ts:145 | only the invitation just inserted changes, and it becomes "accepted" |
| Worker.TaskStore.ListTasks | src/worker/index.ts:161-179 | no session is Unauthorized; with a team id a non-member is Forbidden and a member gets exactly `TeamTasks`, each task once per row; without one the caller gets exactly `PersonalTasks`, their own tasks that belong to no team; every task has a priority, "medium" when missing |
| Worker.TaskStore.GetTask | src/worker/index.ts:181-190 | no session is Unauthorized; NotFound exactly when no task has the id; otherwise the task with its priority defaulted, whatever its team |
| Worker.TaskStore.CreateTask | src/worker/index.ts:192-219 | a bad body is BadRequest, no session Unauthorized, a team the caller is not in Forbidden, with nothing changed; a valid body from a caller who names no team or a team they are in is always Created, and exactly the row of NewTaskRow is appended |
| Worker.TaskStore.UpdateTask | src/worker/index.ts:221-255 | bad body, no session and a missing task change nothing and write no ledger entry; otherwise one "update" entry with the prior row and the merged row is appended before the task changes; a failed task write keeps the entry and is a server error; a successful one changes only that task, to the patched row, and returns it |
| Worker.TaskStore.InsertVersion | src/worker/index.ts:234-242 | a ledger insert appends exactly that entry and keeps the ledger chronological |
| Worker.TaskStore.SetTaskFields | src/worker/index.ts:252 | the task update changes only the tasks table, to the patched rows |
| Worker.TaskStore.DeleteTask | src/worker/index.ts:257-264 | no session is Unauthorized with nothing changed; otherwise the task and its child rows are deleted as the schema's cascades say, whatever its team |
| Worker.TaskStore.ListComments | src/worker/index.ts:269-279 | without a session, the result is exactly `CommentFeed`: one row per comment of the task whose author exists, newest first |
| Worker.TaskStore.AddComment | src/worker/index.ts:281-292 | an empty comment is BadRequest and no session Unauthorized, with nothing changed; otherwise the comment and one "comment" ledger entry with no previous data are appended |
| Worker.TaskStore.ListAttachments | src/worker/index.ts:295-300 | without a session, the result is exactly `AttachmentsOf`: each attachment of the task once per row |
| Worker.TaskStore.AddAttachment | src/worker/index.ts:302-310 | no session is Unauthorized with nothing changed; otherwise exactly one attachment row owned by the caller is appended and the ledger is unchanged |
| Worker.TaskStore.UploadAttachment | src/worker/index.ts:313-356 | session, then multipart content type, then a file are required; with a bucket the bytes go under the new key and the row holds the `/r2/` URL; without one the row holds the file's data URL; a failed put is a server error; every failure changes nothing; no ledger entry is written |
| Worker.TaskStore.ListSubtasks | src/worker/index.ts:371-376 | without a session, exactly the task's subtasks, as a permutation of them, in ascending order |
| Worker.TaskStore.AddSubtask | src/worker/index.ts:378-392 | an empty title is BadRequest and no session Unauthorized, with nothing changed; otherwise one subtask, not completed, with the next order, is appended |
| Worker.TaskStore.UpdateSubtask | src/worker/index.ts:394-412 | bad body, no session and a missing subtask change nothing; an empty body is a server error with nothing changed; otherwise only the present fields of that subtask change and the patched row is returned |
| Worker.TaskStore.DeleteSubtask | src/worker/index.ts:414-421 | no session is Unauthorized with nothing changed; otherwise exactly the subtask with that id is removed and every other subtask keeps its order and fields |
| Worker.TaskStore.History | src/worker/index.ts:423-433 | without a session, the result is exactly `HistoryOf`: one row per ledger entry of the task whose author exists, newest first |
| Kanban.MoveCard | src/react-app/components/kanban-board.tsx:54-58 | the card with the dragged id takes the new status; the length, the order, the ids and every other card are unchanged |
| Kanban.MoveCardIdempotent | src/react-app/components/kanban-board.tsx:54-58 | moving a card twice to the same column is moving it once |
| Kanban.MovedCardHasStatus | src/react-app/components/kanban-board.tsx:54-58 | after the move, the dragged card has the target status |
| Kanban.Column | src/react-app/components/kanban-board.tsx:104 | a column holds exactly the cards of its status |
| Kanban.ExactlyOneColumn | src/react-app/components/kanban-board.tsx:91-104 | every card's status is a column, and the card is in that column and in no other |
| Kanban.ColumnsPartition | src/react-app/components/kanban-board.tsx:91-104 | the three columns together hold the local list, each card as often as in the list |
| Kanban.Board.constructor | src/react-app/components/kanban-board.tsx:28-30 | the board starts with an empty local list and no fetched data |
| Kanban.Board.Receive | src/react-app/components/kanban-board.tsx:28 | fetched data replaces the previous data and nothing else |
| Kanban.Board.Render | src/react-app/components/kanban-board.tsx:33-35 | the local list becomes the server list only when data is present and the list is empty; otherwise it is unchanged |
| Kanban.Board.Drop | src/react-app/components/kanban-board.tsx:45-65 | a drop over nothing or on an id that is not a status changes nothing and sends nothing; a valid drop moves the card and sends exactly one update with the task id and new status |
| Kanban.Board.Settle | src/react-app/components/kanban-board.tsx:66-71 | success only notifies; failure sets the local list to the last server list, or empty when none was fetched, and notifies |
| Kanban.Board.HandleDragEnd | src/react-app/components/kanban-board.tsx:45-73 | a whole drag end: nothing on an invalid drop; otherwise one update, and then the moved list on success or the server list on failure |
| MembersDialog.HasEmail | src/react-app/components/members-dialog.tsx:51 | true exactly when some member has that email |
| MembersDialog.AvailableUsers | src/react-app/components/members-dialog.tsx:50-52 | undefined exactly when the users are not fetched; otherwise exactly the users whose email matches no member's, and all of them while the members are not fetched |
| MembersDialog.AvailableSubset | src/react-app/components/members-dialog.tsx:50-52 | the available users are some of all users |
| MembersDialog.AvailableBeforeMembers | src/react-app/components/members-dialog.tsx:50-52 | before the members are fetched, every user is available, in order |
| MembersDialog.AvailableKeepsOrder | src/react-app/components/members-dialog.tsx:50-52 | the filter keeps the users' original order |
| MembersDialog.InviteForm.constructor | src/react-app/components/members-dialog.tsx:33 | the form starts with no selection |
| MembersDialog.InviteForm.Select | src/react-app/components/members-dialog.tsx:67 | choosing a user sets the selection and nothing else |
| MembersDialog.InviteForm.HandleInvite | src/react-app/components/members-dialog.tsx:35-47 | with no selection nothing happens; otherwise one invite for the selected email is sent, and the selection is cleared on success and kept on failure |

## Left out

- Authentication is not modelled: `getAuth`, `getAuthUser`, the `/api/auth/*` passthrough and `/api/me` belong to an external session service. The caller is an argument instead.
- The CORS middleware is HTTP header plumbing and is not modelled.
- `GET /api/users` is not modelled. It is a plain listing of other users that feeds the dialog's `allUsers`, which is an argument of `AvailableUsers`.
- The activity statistics route is not modelled: it is SQLite date arithmetic on epoch milliseconds.
- The `/r2/:key` serving route and `decodeURIComponent` are not modelled. The bucket's contents after a put are modelled.
- `encodeURIComponent` and `crypto.randomUUID` are arguments, not functions the model defines.
- The zod email and URL format checks are library regexes and are not modelled. Only the non-empty and enum checks the model can state are kept.
- Foreign-key checks on insert are not modelled. For example, the model lets a new task name an assignee who does not exist, where SQLite would refuse the row. The cascades on delete are modelled.
- JSON numbers in request bodies (`timeLimit`, subtask `order`, `fileSize`) are integers in the model. Fractional values are not modelled.
- Schema.DeleteUserRows: the authentication tables `session` and `account` (schema.ts:22, 29) also reference `user.id` without an `onDelete` rule. Every signed-up user has an account row, so SQLite refuses the delete in cases where the model returns the cascaded database. These tables belong to the external session service and are not modelled, so the refusal is stated only over the tables the model has.
- Schema.DeleteTeamRows and Schema.DeleteUserRows are not used by any route, because the worker has no route that deletes a team or a user. They state what the `onDelete` rules do.
- Worker.TaskStore.UploadAttachment: a multipart body that `formData()` cannot parse, and a `file` field that is a string rather than a file, both make the source throw and answer 500. The model's request already holds a parsed file part or none, so neither case is modelled.
- Database failures are not modelled, except in two places. `UpdateTask` models a failed task write after the ledger insert (`updateFails`), and `UploadAttachment` models a failed put (`putFails`). A failed insert after a successful put, which would leave an object with no row, is not modelled.
- Worker.TaskStore.UpdateSubtask: a body with no field leaves nothing to SET. The model treats that statement as a failure that changes nothing and replies with a server error. The exact error of the database layer is not modelled.
- The ledger's `previousData` and `newData` are structured values (`Snapshot`) rather than the JSON text `JSON.stringify` produces.
- The order among rows that tie under `ORDER BY` is fixed in the model and unspecified in SQLite: subtasks of equal `order` keep table order (`SortByOrder`), while comments and ledger entries of equal `createdAt` come out in reverse table order, because `CommentFeed` and `HistoryOf` read their table from the end.
- Concurrency is not modelled: two subtask inserts can race for the same order, and two drag requests can race. Operations run one after another.
- Kanban.Board.Settle reverts to the `data` of the call to `Settle`. In the component, `handleDragEnd` captures `data` from the render that created it; the model does not model that stale closure.
- The client's React Query hooks, axios wiring, routes and presentational components are not modelled, nor is the progress percentage of the subtask list, which is floating point.
- Toast messages and `console.error` are recorded as notices in the client classes; their text and styling are not modelled.
