/**
 * What check-in, check-out and search promise, stated over the transition
 * functions of module Visits.
 */
module VisitProperties {
  import opened Text
  import opened Seqs
  import opened Visits

  // ---- finding a user -------------------------------------------------------

  /** There is only one first position with a given id. */
  lemma FirstWithIdIsUnique(users: seq<User>, userId: string, k: int, k': int)
    requires IsFirstWithId(users, userId, k) && IsFirstWithId(users, userId, k')
    ensures k == k'
  {
  }

  /** `Find` returns the user at the first position that has the id. */
  lemma FindFirst(users: seq<User>, userId: string, k: int)
    requires IsFirstWithId(users, userId, k)
    ensures Find(users, userId) == Some(users[k])
  {
    var r := Find(users, userId);
    assert HasId(users, userId);
    var k' :| IsFirstWithId(users, userId, k') && users[k'] == r.value;
    FirstWithIdIsUnique(users, userId, k, k');
  }

  /** Removing the users with one id does not change which user is found first
      for another id. */
  lemma {:induction false} FindAfterRemoval(users: seq<User>, gone: string, userId: string)
    requires gone != userId
    ensures Find(Filter(users, OtherThan(gone)), userId) == Find(users, userId)
  {
    if users != [] {
      FindAfterRemoval(users[1..], gone, userId);
      if OtherThan(gone)(users[0]) {
        assert Filter(users, OtherThan(gone))[1..] == Filter(users[1..], OtherThan(gone));
      }
    }
  }

  // ---- check-in -------------------------------------------------------------

  /** Check-in changes nothing (the name box is not even cleared) exactly when
      the typed name is empty or only whitespace. */
  lemma CheckInBlankIsNoop(s: State, freshId: string, now: int)
    ensures AfterCheckIn(s, freshId, now) == s <==> AllWhitespace(s.userName)
  {
    if !AllWhitespace(s.userName) {
      assert |AfterCheckIn(s, freshId, now).activeUsers| == |s.activeUsers| + 1;
    }
  }

  /** A check-in with a non-blank name appends exactly one user at the end,
      carrying the new id, the trimmed name and the time `now`; the earlier
      users keep their place, the history is untouched, the name box is
      cleared and the search box is left alone. */
  lemma CheckInAppends(s: State, freshId: string, now: int)
    requires !AllWhitespace(s.userName)
    ensures var t := AfterCheckIn(s, freshId, now);
            && |t.activeUsers| == |s.activeUsers| + 1
            && t.activeUsers[..|s.activeUsers|] == s.activeUsers
            && t.activeUsers[|s.activeUsers|] == User(freshId, Trim(s.userName), now)
            && t.history == s.history
            && t.userName == ""
            && t.searchQuery == s.searchQuery
    ensures var name := AfterCheckIn(s, freshId, now).activeUsers[|s.activeUsers|].name;
            name != [] && !IsWhitespace(name[0]) && !IsWhitespace(name[|name| - 1])
  {
    var name := Trim(s.userName);
    var users := s.activeUsers + [User(freshId, name, now)];
    assert AfterCheckIn(s, freshId, now) == s.(activeUsers := users, userName := "");
    assert users[..|s.activeUsers|] == s.activeUsers;
  }

  /** Check-in keeps active ids unique when the new id is not already active. */
  lemma CheckInKeepsIdsUnique(s: State, freshId: string, now: int)
    requires UniqueIds(s.activeUsers) && !HasId(s.activeUsers, freshId)
    ensures UniqueIds(AfterCheckIn(s, freshId, now).activeUsers)
  {
    var users := AfterCheckIn(s, freshId, now).activeUsers;
    forall i, j | 0 <= i < j < |users| ensures users[i].id != users[j].id {
      if j == |s.activeUsers| {
        assert users[i] == s.activeUsers[i];
      }
    }
  }

  // ---- check-out ------------------------------------------------------------

  /** Check-out changes nothing exactly when no active user has the id. */
  lemma CheckOutUnknownIsNoop(s: State, userId: string, freshId: string, now: int)
    ensures AfterCheckOut(s, userId, freshId, now) == s <==> !HasId(s.activeUsers, userId)
  {
    if HasId(s.activeUsers, userId) {
      assert |AfterCheckOut(s, userId, freshId, now).history| == |s.history| + 1;
    }
  }

  /** What check-out does once `Find` has located the user. */
  lemma CheckOutFound(s: State, userId: string, freshId: string, now: int, user: User)
    requires Find(s.activeUsers, userId) == Some(user)
    ensures AfterCheckOut(s, userId, freshId, now)
            == s.(history := [HistoryEntry(freshId, user.name, user.checkInTime, now)] + s.history,
                  activeUsers := Filter(s.activeUsers, OtherThan(userId)))
  {
  }

  /** Checking out a present id puts one entry in front of the history, copied
      from the first user with that id and stamped `now`, with the old history
      as its tail; afterwards no active user has the id, the remaining active
      users are the others in their old order, and the two text boxes are left
      alone. With `now` no earlier than the check-in, the entry's check-out
      time is no earlier than its check-in time. */
  lemma CheckOutRecords(s: State, userId: string, freshId: string, now: int, k: int)
    requires IsFirstWithId(s.activeUsers, userId, k)
    ensures var t := AfterCheckOut(s, userId, freshId, now);
            var user := s.activeUsers[k];
            && |t.history| == |s.history| + 1
            && t.history[0] == HistoryEntry(freshId, user.name, user.checkInTime, now)
            && t.history[1..] == s.history
            && (now >= user.checkInTime ==> t.history[0].checkOutTime >= t.history[0].checkInTime)
            && t.userName == s.userName && t.searchQuery == s.searchQuery
    ensures var rest := AfterCheckOut(s, userId, freshId, now).activeUsers;
            && !HasId(rest, userId)
            && IsSubsequence(rest, s.activeUsers)
            && (forall i :: 0 <= i < |s.activeUsers| && s.activeUsers[i].id != userId ==>
                  multiset(rest)[s.activeUsers[i]] == multiset(s.activeUsers)[s.activeUsers[i]])
  {
    FindFirst(s.activeUsers, userId, k);
    var t := AfterCheckOut(s, userId, freshId, now);
    var rest := Filter(s.activeUsers, OtherThan(userId));
    assert t.activeUsers == rest;
    assert t.history[1..] == s.history;
    FilterIsSubsequence(s.activeUsers, OtherThan(userId));
    forall i | 0 <= i < |s.activeUsers| && s.activeUsers[i].id != userId
      ensures multiset(rest)[s.activeUsers[i]] == multiset(s.activeUsers)[s.activeUsers[i]]
    {
      FilterKeepsCount(s.activeUsers, OtherThan(userId), s.activeUsers[i]);
    }
  }

  /** With unique active ids, checking out a present id removes exactly one
      active user. */
  lemma CheckOutRemovesOne(s: State, userId: string, freshId: string, now: int)
    requires UniqueIds(s.activeUsers) && HasId(s.activeUsers, userId)
    ensures |AfterCheckOut(s, userId, freshId, now).activeUsers| == |s.activeUsers| - 1
  {
    var k :| 0 <= k < |s.activeUsers| && s.activeUsers[k].id == userId;
    FilterDropsOne(s.activeUsers, OtherThan(userId), k);
  }

  /** Check-out keeps active ids unique. */
  lemma CheckOutKeepsIdsUnique(s: State, userId: string, freshId: string, now: int)
    requires UniqueIds(s.activeUsers)
    ensures UniqueIds(AfterCheckOut(s, userId, freshId, now).activeUsers)
  {
    if HasId(s.activeUsers, userId) {
      FilterIsSubsequence(s.activeUsers, OtherThan(userId));
      SubsequenceKeepsIdsUnique(Filter(s.activeUsers, OtherThan(userId)), s.activeUsers);
    }
  }

  /** A subsequence of users with unique ids has unique ids. */
  lemma {:induction false} SubsequenceKeepsIdsUnique(r: seq<User>, users: seq<User>)
    requires IsSubsequence(r, users) && UniqueIds(users)
    ensures UniqueIds(r)
    decreases |users|
  {
    if r != [] {
      if r[0] == users[0] && IsSubsequence(r[1..], users[1..]) {
        SubsequenceKeepsIdsUnique(r[1..], users[1..]);
        SubsequenceElements(r[1..], users[1..]);
        forall j | 0 < j < |r| ensures r[0].id != r[j].id {
          assert r[1..][j - 1] == r[j];
          var m :| 0 <= m < |users[1..]| && users[1..][m] == r[j];
          assert users[m + 1] == r[j];
        }
      } else {
        SubsequenceKeepsIdsUnique(r, users[1..]);
      }
    }
  }

  /** Every element of a subsequence is an element of the sequence. */
  lemma {:induction false} SubsequenceElements<T>(r: seq<T>, s: seq<T>)
    requires IsSubsequence(r, s)
    ensures forall i :: 0 <= i < |r| ==> exists m :: 0 <= m < |s| && s[m] == r[i]
    decreases |s|
  {
    if r != [] {
      if r[0] == s[0] && IsSubsequence(r[1..], s[1..]) {
        SubsequenceElements(r[1..], s[1..]);
        forall i | 0 < i < |r| ensures exists m :: 0 <= m < |s| && s[m] == r[i] {
          assert r[1..][i - 1] == r[i];
          var m :| 0 <= m < |s[1..]| && s[1..][m] == r[i];
          assert s[m + 1] == r[i];
        }
        assert s[0] == r[0];
      } else {
        SubsequenceElements(r, s[1..]);
        forall i | 0 <= i < |r| ensures exists m :: 0 <= m < |s| && s[m] == r[i] {
          var m :| 0 <= m < |s[1..]| && s[1..][m] == r[i];
          assert s[m + 1] == r[i];
        }
      }
    }
  }

  /** History is most recent first: checking out A and then B puts B's entry
      in front of A's, with the older history behind them. */
  lemma CheckOutOrder(s: State, a: string, b: string, userA: User, userB: User,
                      idA: string, idB: string, timeA: int, timeB: int)
    requires a != b
    requires Find(s.activeUsers, a) == Some(userA) && Find(s.activeUsers, b) == Some(userB)
    ensures AfterCheckOut(AfterCheckOut(s, a, idA, timeA), b, idB, timeB).history
            == [HistoryEntry(idB, userB.name, userB.checkInTime, timeB),
                HistoryEntry(idA, userA.name, userA.checkInTime, timeA)] + s.history
  {
    CheckOutKeepsOthersFound(s, a, b, userA, userB, idA, timeA);
    var s1 := AfterCheckOut(s, a, idA, timeA);
    CheckOutFound(s, a, idA, timeA, userA);
    CheckOutFound(s1, b, idB, timeB, userB);
  }

  /** Checking out one id does not change which user is found for another id. */
  lemma CheckOutKeepsOthersFound(s: State, a: string, b: string, userA: User, userB: User,
                                 idA: string, timeA: int)
    requires a != b
    requires Find(s.activeUsers, a) == Some(userA) && Find(s.activeUsers, b) == Some(userB)
    ensures Find(AfterCheckOut(s, a, idA, timeA).activeUsers, b) == Some(userB)
  {
    CheckOutFound(s, a, idA, timeA, userA);
    FindAfterRemoval(s.activeUsers, a, b);
  }

  /** Times are consistent with a clock that reads `now`: no active user
      checked in later, and every history entry was closed no earlier than it
      was opened and no later than `now`. */
  predicate Chronological(s: State, now: int) {
    CheckedInBy(s.activeUsers, now) && ClosedBy(s.history, now)
  }

  /** No user checked in later than `now`. */
  predicate CheckedInBy(users: seq<User>, now: int) {
    forall i :: 0 <= i < |users| ==> users[i].checkInTime <= now
  }

  /** Every entry was closed no earlier than it was opened and no later than `now`. */
  predicate ClosedBy(history: seq<HistoryEntry>, now: int) {
    forall i :: 0 <= i < |history| ==> history[i].checkInTime <= history[i].checkOutTime <= now
  }

  /** On page load the invariants hold at any time: active ids are unique, the
      times are consistent, and no search finds anything. */
  lemma InitialInvariants(now: int, query: string)
    ensures UniqueIds(Initial.activeUsers) && Chronological(Initial, now)
    ensures Search(Initial.history, query) == []
  {
  }

  /** If the clock never runs backwards, check-in keeps the times consistent. */
  lemma CheckInChronological(s: State, freshId: string, before: int, now: int)
    requires Chronological(s, before) && before <= now
    ensures Chronological(AfterCheckIn(s, freshId, now), now)
  {
    assert ClosedBy(s.history, now);
    assert CheckedInBy(s.activeUsers, now);
    var name := Trim(s.userName);
    if name != [] {
      ActiveAppendedCheckedInBy(s.activeUsers, User(freshId, name, now), now);
    }
  }

  /** Appending a user who checked in by `now` keeps every check-in by `now`. */
  lemma ActiveAppendedCheckedInBy(users: seq<User>, user: User, now: int)
    requires CheckedInBy(users, now) && user.checkInTime <= now
    ensures CheckedInBy(users + [user], now)
  {
    var r := users + [user];
    forall i | 0 <= i < |users| ensures r[i].checkInTime <= now {
      assert r[i] == users[i];
    }
  }

  /** If the clock never runs backwards, check-out keeps the times consistent;
      in particular the new entry's check-out time is not before its check-in. */
  lemma CheckOutChronological(s: State, userId: string, freshId: string, before: int, now: int)
    requires Chronological(s, before) && before <= now
    ensures Chronological(AfterCheckOut(s, userId, freshId, now), now)
  {
    assert ClosedBy(s.history, now);
    assert CheckedInBy(s.activeUsers, now);
    var found := Find(s.activeUsers, userId);
    if found.Some? {
      var user := found.value;
      CheckOutFound(s, userId, freshId, now, user);
      var entry := HistoryEntry(freshId, user.name, user.checkInTime, now);
      var rest := Filter(s.activeUsers, OtherThan(userId));
      assert entry.checkInTime <= now;
      HistoryClosedBy(entry, s.history, now);
      ActiveCheckedInBy(rest, s.activeUsers, now);
    }
  }

  /** Prepending an entry closed by `now` keeps every entry closed by `now`. */
  lemma HistoryClosedBy(entry: HistoryEntry, history: seq<HistoryEntry>, now: int)
    requires ClosedBy(history, now) && entry.checkInTime <= entry.checkOutTime <= now
    ensures ClosedBy([entry] + history, now)
  {
    var h := [entry] + history;
    forall i | 0 < i < |h| ensures h[i].checkInTime <= h[i].checkOutTime <= now {
      assert h[i] == history[i - 1];
    }
  }

  /** Users drawn from a list checked in by `now` checked in by `now`. */
  lemma ActiveCheckedInBy(rest: seq<User>, users: seq<User>, now: int)
    requires CheckedInBy(users, now)
    requires forall i :: 0 <= i < |rest| ==> rest[i] in users
    ensures CheckedInBy(rest, now)
  {
    forall i | 0 <= i < |rest| ensures rest[i].checkInTime <= now {
      var m :| 0 <= m < |users| && users[m] == rest[i];
    }
  }

  // ---- search ---------------------------------------------------------------

  /** Search returns, in history order, exactly the entries whose lower-cased
      name contains the lower-cased query, each as often as in the history. */
  lemma SearchExact(history: seq<HistoryEntry>, query: string)
    ensures var r := Search(history, query);
            && (forall i :: 0 <= i < |r| ==> r[i] in history && Matches(r[i], query))
            && (forall i :: 0 <= i < |history| && Matches(history[i], query) ==>
                  multiset(r)[history[i]] == multiset(history)[history[i]])
            && IsSubsequence(r, history)
  {
    var p := (e: HistoryEntry) => Matches(e, query);
    FilterIsSubsequence(history, p);
    forall i | 0 <= i < |history| && Matches(history[i], query)
      ensures multiset(Search(history, query))[history[i]] == multiset(history)[history[i]]
    {
      FilterKeepsCount(history, p, history[i]);
    }
  }

  /** An empty query matches every entry. */
  lemma SearchEmptyQuery(history: seq<HistoryEntry>)
    ensures Search(history, "") == history
  {
    forall i | 0 <= i < |history| ensures Matches(history[i], "") {
      IncludesEmpty(Lower(history[i].userName));
    }
    FilterKeepsAll(history, (e: HistoryEntry) => Matches(e, ""));
  }

  /** Queries that differ only in the case of ASCII letters give the same result. */
  lemma SearchIgnoresCase(history: seq<HistoryEntry>, q1: string, q2: string)
    requires SameUpToCase(q1, q2)
    ensures Search(history, q1) == Search(history, q2)
  {
    LowerIgnoresCase(q1, q2);
    FilterAgrees(history, (e: HistoryEntry) => Matches(e, q1), (e: HistoryEntry) => Matches(e, q2));
  }

  // ---- a whole session --------------------------------------------------------

  /** Typing "Alice" and checking in makes one active user; checking that user
      out empties the active list and leaves one history entry named "Alice",
      which a search for "zzz" does not find and a search for "ALICE" does. */
  lemma AliceSession(userId: string, entryId: string, inTime: int, outTime: int)
    ensures var s1 := AfterCheckIn(Initial.(userName := "Alice"), userId, inTime);
            var s2 := AfterCheckOut(s1, userId, entryId, outTime);
            && |s1.activeUsers| == 1
            && |s2.activeUsers| == 0
            && |s2.history| == 1 && s2.history[0].userName == "Alice"
            && Search(s2.history, "zzz") == []
            && Search(s2.history, "ALICE") == s2.history
  {
    FirstCheckIn("Alice", userId, inTime);
    AliceChecksOut(userId, entryId, inTime, outTime);
    AliceSearch(HistoryEntry(entryId, "Alice", inTime, outTime));
  }

  /** From the initial state, checking in an already trimmed name makes it
      the only active user and clears the name box. */
  lemma FirstCheckIn(name: string, userId: string, inTime: int)
    requires name != [] && !IsWhitespace(name[0]) && !IsWhitespace(name[|name| - 1])
    ensures AfterCheckIn(Initial.(userName := name), userId, inTime)
            == Initial.(activeUsers := [User(userId, name, inTime)])
  {
    TrimKeepsTrimmed(name);
  }

  /** Checking out the only active user moves her to the history. */
  lemma AliceChecksOut(userId: string, entryId: string, inTime: int, outTime: int)
    ensures AfterCheckOut(Initial.(activeUsers := [User(userId, "Alice", inTime)]), userId, entryId, outTime)
            == Initial.(history := [HistoryEntry(entryId, "Alice", inTime, outTime)])
  {
    var users := [User(userId, "Alice", inTime)];
    assert IsFirstWithId(users, userId, 0);
    FindFirst(users, userId, 0);
    assert Filter(users, OtherThan(userId)) == [] by {
      assert users[1..] == [];
    }
  }

  /** A history holding only Alice's visit: "zzz" finds nothing, "ALICE" finds it. */
  lemma AliceSearch(entry: HistoryEntry)
    requires entry.userName == "Alice"
    ensures Search([entry], "zzz") == [] && Search([entry], "ALICE") == [entry]
  {
    AliceMatches(entry);
    assert [entry][1..] == [];
  }

  /** The entry named "Alice" is not found by "zzz" and is found by "ALICE". */
  lemma AliceMatches(entry: HistoryEntry)
    requires entry.userName == "Alice"
    ensures !Matches(entry, "zzz") && Matches(entry, "ALICE")
  {
    AliceLowerCase();
    AliceNotMatchedByZzz(entry);
    AliceMatchedByCapitals(entry);
  }

  /** "zzz" does not match a name that lower-cases to "alice". */
  lemma AliceNotMatchedByZzz(entry: HistoryEntry)
    requires Lower(entry.userName) == "alice" && Lower("zzz") == "zzz"
    ensures !Matches(entry, "zzz")
  {
    NoZInAlice();
  }

  /** "ALICE" matches a name that lower-cases to "alice". */
  lemma AliceMatchedByCapitals(entry: HistoryEntry)
    requires Lower(entry.userName) == "alice" && Lower("ALICE") == "alice"
    ensures Matches(entry, "ALICE")
  {
    assert OccursAt("alice", "alice", 0);
  }

  /** The lower-cased forms of the names and queries of the session. */
  lemma AliceLowerCase()
    ensures Lower("Alice") == "alice" && Lower("ALICE") == "alice" && Lower("zzz") == "zzz"
  {
    LowerOfAlice();
    LowerOfAliceCapitals();
  }

  lemma LowerOfAlice()
    ensures Lower("Alice") == "alice"
  {
    assert Lower("Alice")[0] == 'a';
  }

  lemma LowerOfAliceCapitals()
    ensures Lower("ALICE") == "alice"
  {
    var r := Lower("ALICE");
    assert r[0] == 'a' && r[1] == 'l' && r[2] == 'i' && r[3] == 'c' && r[4] == 'e';
  }

  /** "zzz" does not occur in "alice". */
  lemma NoZInAlice()
    ensures !Includes("alice", "zzz")
  {
    assert forall i :: 0 <= i < 5 ==> "alice"[i] != 'z';
    assert forall i :: OccursAt("zzz", "alice", i) ==> "alice"[i] == 'z';
  }
}
