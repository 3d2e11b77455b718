/**
 * The board of src/react-app/components/kanban-board.tsx: a local copy of
 * the task list seeded from the server's, an optimistic status change when
 * a card is dropped on a column, one update request, and a revert to the
 * server's list when that request fails. The columns partition the local
 * list by status.
 */
module Kanban {
  import opened Wrappers
  import opened Seqs
  import opened Schema

  /** The client's `Task` interface (kanban-board.tsx:18-25). */
  datatype Card = Card(id: string, title: string, description: Option<string>, status: TaskStatus,
                       priority: TaskPriority, createdAt: string)

  /** `{ active, over }` of a dnd-kit drag-end event; `over` is absent when the card was dropped outside every column. */
  datatype DragEnd = DragEnd(activeId: string, overId: Option<string>)

  /** The one update request a drop sends: the card's id and its new status (kanban-board.tsx:62-65). */
  datatype Request = UpdateStatus(id: string, status: TaskStatus)

  /** The success and failure toasts of a move (kanban-board.tsx:66, 70). */
  datatype Notice = Moved | MoveFailed

  function HasId(id: string): Card -> bool {
    (c: Card) => c.id == id
  }

  function SetStatus(status: TaskStatus): Card -> Card {
    (c: Card) => c.(status := status)
  }

  /**
   * The optimistic write (kanban-board.tsx:54-58): the card with the
   * dragged id takes the new status; the list keeps its length and order
   * and every other card is untouched.
   */
  function MoveCard(cards: seq<Card>, id: string, status: TaskStatus): (r: seq<Card>)
    ensures |r| == |cards|
    ensures forall i :: 0 <= i < |cards| ==> r[i].id == cards[i].id
    ensures forall i :: 0 <= i < |cards| ==> cards[i].id == id ==> r[i] == cards[i].(status := status)
    ensures forall i :: 0 <= i < |cards| ==> cards[i].id != id ==> r[i] == cards[i]
  {
    MapWhere(cards, HasId(id), SetStatus(status))
  }

  /** Moving twice to the same column is moving once. */
  lemma MoveCardIdempotent(cards: seq<Card>, id: string, status: TaskStatus)
    ensures MoveCard(MoveCard(cards, id, status), id, status) == MoveCard(cards, id, status)
  {
  }

  /** After the move, the dragged card (when present) is in the target column. */
  lemma MovedCardHasStatus(cards: seq<Card>, id: string, status: TaskStatus, c: Card)
    requires c in MoveCard(cards, id, status) && c.id == id
    ensures c.status == status
  {
  }

  /** The board shows one column per status, in the order todo, in progress, completed (kanban-board.tsx:91). */
  const Columns: seq<TaskStatus> := [Todo, InProgress, Completed]

  function InColumn(status: TaskStatus): Card -> bool {
    (c: Card) => c.status == status
  }

  /** The cards a column shows: those of the local list with its status, in list order (kanban-board.tsx:104). */
  function Column(cards: seq<Card>, status: TaskStatus): (r: seq<Card>)
    ensures forall c :: c in r <==> c in cards && c.status == status
    ensures |r| <= |cards|
  {
    Filter(cards, InColumn(status))
  }

  /** Every card is in exactly one column, the one of its status. */
  lemma ExactlyOneColumn(cards: seq<Card>, c: Card)
    requires c in cards
    ensures c.status in Columns
    ensures forall s :: s in Columns ==> (c in Column(cards, s) <==> s == c.status)
  {
    match c.status
    case Todo => assert Columns[0] == Todo;
    case InProgress => assert Columns[1] == InProgress;
    case Completed => assert Columns[2] == Completed;
  }

  /** The three columns together hold the local list, each card once. */
  lemma {:induction false} ColumnsPartition(cards: seq<Card>)
    ensures multiset(Column(cards, Todo)) + multiset(Column(cards, InProgress)) + multiset(Column(cards, Completed))
            == multiset(cards)
    decreases |cards|
  {
    if cards != [] {
      var c, rest := cards[0], cards[1..];
      ColumnsPartition(rest);
      ColumnCons(c, rest, Todo);
      ColumnCons(c, rest, InProgress);
      ColumnCons(c, rest, Completed);
      assert cards == [c] + rest;
      assert multiset(cards) == multiset{c} + multiset(rest);
      match c.status
      case Todo =>
      case InProgress =>
      case Completed =>
    }
  }

  /** The column of a list with a first card: that card when it has the column's status, then the rest's column. */
  lemma ColumnCons(c: Card, rest: seq<Card>, status: TaskStatus)
    ensures multiset(Column([c] + rest, status)) ==
            (if c.status == status then multiset{c} else multiset{}) + multiset(Column(rest, status))
  {
    FilterConcat([c], rest, InColumn(status));
    assert Filter([c], InColumn(status)) == if c.status == status then [c] else [];
  }

  /** The component state: the local list, the query's data, and what it has sent and shown. */
  class Board {
    /** The local task list, a React state that starts empty (kanban-board.tsx:30). */
    var tasks: seq<Card>
    /** `data?.tasks` of `useTasksQuery()`: None until the list has been fetched. */
    var data: Option<seq<Card>>
    var requests: seq<Request>
    var notices: seq<Notice>

    constructor()
      ensures tasks == [] && data == None && requests == [] && notices == []
    {
      tasks, data, requests, notices := [], None, [], [];
    }

    /** The query delivers a server list. */
    method Receive(server: seq<Card>)
      modifies this
      ensures data == Some(server)
      ensures tasks == old(tasks) && requests == old(requests) && notices == old(notices)
    {
      data := Some(server);
    }

    /**
     * The render-time seeding (kanban-board.tsx:33-35): the local list is
     * replaced by the server's only while it is empty.
     */
    method Render()
      modifies this
      ensures data.Some? && old(tasks) == [] ==> tasks == data.value
      ensures !(data.Some? && old(tasks) == []) ==> tasks == old(tasks)
      ensures data == old(data) && requests == old(requests) && notices == old(notices)
    {
      if data.Some? && |tasks| == 0 {
        tasks := data.value;
      }
    }

    /**
     * The synchronous part of `handleDragEnd` (kanban-board.tsx:46-65): a
     * drop outside every column, or on an id that is not a status, changes
     * nothing and sends nothing; a drop on a column moves the card and
     * sends exactly one update, which is returned.
     */
    method Drop(e: DragEnd) returns (sent: Option<Request>)
      modifies this
      ensures e.overId.None? || ParseStatus(e.overId.value).None? ==>
        sent.None? && tasks == old(tasks) && requests == old(requests)
      ensures e.overId.Some? && ParseStatus(e.overId.value).Some? ==>
        var status := ParseStatus(e.overId.value).value;
        && sent == Some(UpdateStatus(e.activeId, status))
        && tasks == MoveCard(old(tasks), e.activeId, status)
        && requests == old(requests) + [sent.value]
      ensures data == old(data) && notices == old(notices)
    {
      if e.overId.None? { return None; }
      var newStatus := ParseStatus(e.overId.value);
      if newStatus.None? { return None; }
      tasks := MoveCard(tasks, e.activeId, newStatus.value);
      var req := UpdateStatus(e.activeId, newStatus.value);
      requests := requests + [req];
      return Some(req);
    }

    /**
     * The request settles (kanban-board.tsx:66-71): success only notifies;
     * failure puts back the last server list, or the empty list when none
     * was fetched, and notifies.
     */
    method Settle(succeeded: bool)
      modifies this
      ensures succeeded ==> tasks == old(tasks) && notices == old(notices) + [Moved]
      ensures !succeeded ==> tasks == old(data).GetOr([]) && notices == old(notices) + [MoveFailed]
      ensures data == old(data) && requests == old(requests)
    {
      if succeeded {
        notices := notices + [Moved];
      } else {
        tasks := data.GetOr([]);
        notices := notices + [MoveFailed];
      }
    }

    /** A whole drag end: the drop, then, when a request went out, its outcome. */
    method HandleDragEnd(e: DragEnd, succeeded: bool)
      modifies this
      ensures e.overId.None? || ParseStatus(e.overId.value).None? ==>
        tasks == old(tasks) && requests == old(requests) && notices == old(notices)
      ensures e.overId.Some? && ParseStatus(e.overId.value).Some? ==>
        var status := ParseStatus(e.overId.value).value;
        && requests == old(requests) + [UpdateStatus(e.activeId, status)]
        && (succeeded ==> tasks == MoveCard(old(tasks), e.activeId, status) && notices == old(notices) + [Moved])
        && (!succeeded ==> tasks == old(data).GetOr([]) && notices == old(notices) + [MoveFailed])
      ensures data == old(data)
    {
      var sent := Drop(e);
      if sent.Some? {
        Settle(succeeded);
      }
    }
  }
}
