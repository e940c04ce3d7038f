/**
 * The `LibrarySystem` page component as an object: the state fields it keeps
 * and the event handlers that update them in place. Each handler is specified
 * by the transition function of module Visits that it carries out.
 */
module Tracker {
  import opened Text
  import opened Seqs
  import opened Visits
  import opened VisitProperties

  class LibrarySystem {
    var activeUsers: seq<User>
    var history: seq<HistoryEntry>
    var userName: string
    var searchQuery: string

    /** The component's state as a value. */
    function Snapshot(): State
      reads this
    {
      State(activeUsers, history, userName, searchQuery)
    }

    /** On page load every field is empty. */
    constructor ()
      ensures Snapshot() == Initial
    {
      activeUsers, history, userName, searchQuery := [], [], "", "";
    }

    /** The name box's change handler: stores the typed text and nothing else. */
    method TypeName(value: string)
      modifies this
      ensures Snapshot() == old(Snapshot()).(userName := value)
    {
      userName := value;
    }

    /** The search box's change handler: stores the typed text and nothing else. */
    method TypeQuery(value: string)
      modifies this
      ensures Snapshot() == old(Snapshot()).(searchQuery := value)
    {
      searchQuery := value;
    }

    /** `handleCheckIn`, given the id to use and the current time. */
    method CheckIn(freshId: string, now: int)
      modifies this
      ensures Snapshot() == AfterCheckIn(old(Snapshot()), freshId, now)
      ensures UniqueIds(old(activeUsers)) && !HasId(old(activeUsers), freshId) ==> UniqueIds(activeUsers)
    {
      ghost var before := Snapshot();
      var name := Trim(userName);
      if name == [] {
        return;
      }
      activeUsers := activeUsers + [User(freshId, name, now)];
      userName := "";
      if UniqueIds(before.activeUsers) && !HasId(before.activeUsers, freshId) {
        CheckInKeepsIdsUnique(before, freshId, now);
      }
    }

    /** `handleCheckOut`, given the id of the user to check out, the id to give
        the history entry and the current time. */
    method CheckOut(userId: string, freshId: string, now: int)
      modifies this
      ensures Snapshot() == AfterCheckOut(old(Snapshot()), userId, freshId, now)
      ensures UniqueIds(old(activeUsers)) ==> UniqueIds(activeUsers)
    {
      ghost var before := Snapshot();
      var user := Find(activeUsers, userId);
      if user.None? {
        return;
      }
      history := [HistoryEntry(freshId, user.value.name, user.value.checkInTime, now)] + history;
      activeUsers := Filter(activeUsers, OtherThan(userId));
      if UniqueIds(before.activeUsers) {
        CheckOutKeepsIdsUnique(before, userId, freshId, now);
      }
    }

    /** `filteredHistory`, recomputed from the current fields: the history
        entries that match the search box, in history order. */
    function FilteredHistory(): (r: seq<HistoryEntry>)
      reads this
      ensures forall i :: 0 <= i < |r| ==> r[i] in history && Matches(r[i], searchQuery)
      ensures forall i :: 0 <= i < |history| && Matches(history[i], searchQuery) ==>
                multiset(r)[history[i]] == multiset(history)[history[i]]
      ensures IsSubsequence(r, history)
      ensures searchQuery == "" ==> r == history
    {
      SearchExact(history, searchQuery);
      SearchEmptyQuery(history);
      Search(history, searchQuery)
    }
  }
}
