/**
 * The team dialog of src/react-app/components/members-dialog.tsx: the
 * candidates offered for invitation are the users whose email no member
 * of the team has, and the invite form sends nothing while no user is
 * selected and clears its selection only when the invite succeeds.
 */
module MembersDialog {
  import opened Wrappers
  import opened Seqs
  import opened Schema
  import opened Queries

  /** Whether some member of a fetched member list has the email (members-dialog.tsx:51). */
  function HasEmail(members: seq<MemberView>, email: string): (r: bool)
    ensures r <==> exists m :: m in members && m.email == email
    decreases |members|
  {
    if members == [] then false
    else if members[0].email == email then true
    else
      assert forall m :: m in members <==> m == members[0] || m in members[1..];
      HasEmail(members[1..], email)
  }

  /**
   * The filter predicate of members-dialog.tsx:51; with the member list not
   * yet fetched, `!undefined` keeps every user.
   */
  function NotMember(members: Option<seq<MemberView>>): User -> bool {
    (u: User) => members.None? || !HasEmail(members.value, u.email)
  }

  /**
   * `availableUsers` (members-dialog.tsx:50-52): undefined while the user
   * list is not fetched; otherwise the users, in their order, whose email
   * matches no member's.
   */
  function AvailableUsers(allUsers: Option<seq<User>>, members: Option<seq<MemberView>>): (r: Option<seq<User>>)
    ensures r.None? <==> allUsers.None?
    ensures r.Some? ==> forall u :: u in r.value <==>
      u in allUsers.value && (members.None? || forall m :: m in members.value ==> m.email != u.email)
    ensures r.Some? ==> |r.value| <= |allUsers.value|
  {
    match allUsers
    case None => None
    case Some(us) => Some(Filter(us, NotMember(members)))
  }

  /** The available users are some of all users. */
  lemma AvailableSubset(allUsers: seq<User>, members: Option<seq<MemberView>>)
    ensures forall u :: u in AvailableUsers(Some(allUsers), members).value ==> u in allUsers
  {
  }

  /** Before the members are fetched, nobody is filtered out. */
  lemma AvailableBeforeMembers(allUsers: seq<User>)
    ensures AvailableUsers(Some(allUsers), None) == Some(allUsers)
  {
    FilterKeepsAll(allUsers, NotMember(None));
  }

  /** The filter keeps the users' order: it commutes with splitting the user list. */
  lemma AvailableKeepsOrder(a: seq<User>, b: seq<User>, members: Option<seq<MemberView>>)
    ensures AvailableUsers(Some(a + b), members).value ==
            AvailableUsers(Some(a), members).value + AvailableUsers(Some(b), members).value
  {
    FilterConcat(a, b, NotMember(members));
  }

  /** The invite request: the team and the selected email (members-dialog.tsx:40). */
  datatype InviteRequest = InviteRequest(teamId: Id, email: string)

  /** The success and failure toasts of an invite (members-dialog.tsx:42, 45). */
  datatype Notice = Added | AddFailed

  /** The form's state: the selected email and what it has sent and shown. */
  class InviteForm {
    const teamId: Id
    /** The selected email, a React state that starts as the empty string (members-dialog.tsx:33). */
    var selectedEmail: string
    var requests: seq<InviteRequest>
    var notices: seq<Notice>

    constructor(teamId: Id)
      ensures this.teamId == teamId && selectedEmail == "" && requests == [] && notices == []
    {
      this.teamId := teamId;
      selectedEmail, requests, notices := "", [], [];
    }

    /** Picking a user in the select box replaces the selection (members-dialog.tsx:67). */
    method Select(email: string)
      modifies this
      ensures selectedEmail == email && requests == old(requests) && notices == old(notices)
    {
      selectedEmail := email;
    }

    /**
     * `handleInvite` (members-dialog.tsx:35-47): with nothing selected it
     * does nothing; otherwise it sends one invite for the selected email,
     * and clears the selection only when the invite succeeds.
     */
    method HandleInvite(succeeded: bool)
      modifies this
      ensures old(selectedEmail) == "" ==>
        selectedEmail == old(selectedEmail) && requests == old(requests) && notices == old(notices)
      ensures old(selectedEmail) != "" ==> requests == old(requests) + [InviteRequest(teamId, old(selectedEmail))]
      ensures old(selectedEmail) != "" && succeeded ==> selectedEmail == "" && notices == old(notices) + [Added]
      ensures old(selectedEmail) != "" && !succeeded ==>
        selectedEmail == old(selectedEmail) && notices == old(notices) + [AddFailed]
    {
      if selectedEmail == "" { return; }
      requests := requests + [InviteRequest(teamId, selectedEmail)];
      if succeeded {
        selectedEmail := "";
        notices := notices + [Added];
      } else {
        notices := notices + [AddFailed];
      }
    }
  }
}
