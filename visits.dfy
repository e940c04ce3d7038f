/**
 * The visit tracker of the library system as values: the two records, the
 * state the page component holds, and the check-in, check-out and search
 * operations as functions from the old state to the new one. Identifiers and
 * the clock are parameters; timestamps are integers.
 */
module Visits {
  import opened Text
  import opened Seqs

  /** A visit in progress. */
  datatype User = User(id: string, name: string, checkInTime: int)

  /** A completed visit; the name is a copy, not a reference to the user. */
  datatype HistoryEntry = HistoryEntry(id: string, userName: string, checkInTime: int, checkOutTime: int)

  /** The component's state: active users in check-in order, history most
      recent first, the pending text of the name box and of the search box. */
  datatype State = State(activeUsers: seq<User>, history: seq<HistoryEntry>, userName: string, searchQuery: string)

  /** The state on page load: everything empty. */
  const Initial: State := State([], [], "", "")

  predicate HasId(users: seq<User>, userId: string) {
    exists i :: 0 <= i < |users| && users[i].id == userId
  }

  /** `k` is the position of the first user whose id is `userId`. */
  predicate IsFirstWithId(users: seq<User>, userId: string, k: int) {
    0 <= k < |users| && users[k].id == userId
    && forall j :: 0 <= j < k ==> users[j].id != userId
  }

  /** No two active users share an id. */
  predicate UniqueIds(users: seq<User>) {
    forall i, j :: 0 <= i < j < |users| ==> users[i].id != users[j].id
  }

  /** `users.find(u => u.id === userId)`: nothing when no user has the id,
      otherwise the first user that has it. */
  function Find(users: seq<User>, userId: string): (r: Option<User>)
    ensures r.None? <==> !HasId(users, userId)
    ensures r.Some? ==> exists k :: IsFirstWithId(users, userId, k) && users[k] == r.value
  {
    if users == [] then None
    else if users[0].id == userId then
      assert IsFirstWithId(users, userId, 0);
      Some(users[0])
    else
      var r := Find(users[1..], userId);
      assert HasId(users, userId) ==> HasId(users[1..], userId) by {
        if HasId(users, userId) {
          var i :| 0 <= i < |users| && users[i].id == userId;
          assert users[1..][i - 1].id == userId;
        }
      }
      assert HasId(users[1..], userId) ==> HasId(users, userId) by {
        if HasId(users[1..], userId) {
          var i :| 0 <= i < |users| - 1 && users[1..][i].id == userId;
          assert users[i + 1].id == userId;
        }
      }
      assert forall k :: IsFirstWithId(users[1..], userId, k) ==> IsFirstWithId(users, userId, k + 1);
      r
  }

  /** The predicate `u => u.id !== userId` that check-out filters the active users by. */
  function OtherThan(userId: string): User -> bool {
    (u: User) => u.id != userId
  }

  /** `handleCheckIn` as a transition: a name that trims to nothing leaves the
      state as it is; otherwise the trimmed name is appended as a new active
      user stamped `now`, and the name box is cleared. */
  function AfterCheckIn(s: State, freshId: string, now: int): (r: State)
    ensures |s.activeUsers| <= |r.activeUsers| <= |s.activeUsers| + 1
    ensures r.activeUsers[..|s.activeUsers|] == s.activeUsers
    ensures r.history == s.history && r.searchQuery == s.searchQuery
    ensures r.userName == s.userName || r.userName == ""
  {
    var name := Trim(s.userName);
    if name == [] then s
    else
      var users := s.activeUsers + [User(freshId, name, now)];
      assert users[..|s.activeUsers|] == s.activeUsers;
      s.(activeUsers := users, userName := "")
  }

  /** `handleCheckOut` as a transition: an unknown id leaves the state as it
      is; otherwise a history entry for the first user with that id is put in
      front of the history, and every user with that id leaves the active list. */
  function AfterCheckOut(s: State, userId: string, freshId: string, now: int): (r: State)
    ensures r.history == s.history || (|r.history| == |s.history| + 1 && r.history[1..] == s.history)
    ensures |r.activeUsers| <= |s.activeUsers| && !HasId(r.activeUsers, userId)
    ensures r.userName == s.userName && r.searchQuery == s.searchQuery
  {
    match Find(s.activeUsers, userId)
    case None => s
    case Some(user) =>
      var entry := HistoryEntry(freshId, user.name, user.checkInTime, now);
      assert ([entry] + s.history)[1..] == s.history;
      s.(history := [entry] + s.history,
         activeUsers := Filter(s.activeUsers, OtherThan(userId)))
  }

  /** The search predicate: the lower-cased name contains the lower-cased
      query, that is, the query occurs in the name up to the case of letters. */
  predicate Matches(e: HistoryEntry, query: string)
    ensures Matches(e, query) <==> exists i :: OccursIgnoringCase(query, e.userName, i)
  {
    IncludesIgnoringCase(e.userName, query);
    Includes(Lower(e.userName), Lower(query))
  }

  /** `filteredHistory`: the history entries that match the query, in history
      order. */
  function Search(history: seq<HistoryEntry>, query: string): (r: seq<HistoryEntry>)
    ensures forall i :: 0 <= i < |r| ==> r[i] in history && Matches(r[i], query)
    ensures IsSubsequence(r, history)
  {
    FilterIsSubsequence(history, (e: HistoryEntry) => Matches(e, query));
    Filter(history, (e: HistoryEntry) => Matches(e, query))
  }
}
