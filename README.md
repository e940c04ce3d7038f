# Library visit tracker — a verified Dafny model

The library system's page component keeps three pieces of state: the users
currently checked in, the history of completed visits (most recent first) and
the text typed in the name box. A fourth field holds the text of the history
search box. Three operations act on this state:

- **check-in** trims the typed name. A name that trims to nothing is ignored,
  and even the name box keeps its text. Otherwise a new user with a fresh id,
  the trimmed name and the current time is appended to the active users, and
  the name box is cleared.
- **check-out** looks up the first active user with the given id. An unknown
  id is ignored. Otherwise a history entry is put in front of the history. The
  entry has a fresh id, copies the user's name and check-in time, and is
  stamped with the current time. Then every active user with that id is
  removed.
- **search** keeps, in history order, the entries whose lower-cased name
  contains the lower-cased query.

The model has five modules, one file each:

- `Text` (`text.dfy`) covers the string primitives. `Trim` removes exactly the
  code points JavaScript's `trim` removes: the ECMAScript WhiteSpace and
  LineTerminator sets. `Lower` is lower-casing. `Includes` is substring search.
- `Seqs` (`seqs.dfy`) holds `Filter`, which models `Array.prototype.filter`,
  and the subsequence relation that states its order preservation.
- `Visits` (`visits.dfy`) defines the `User` and `HistoryEntry` records, the
  component's `State`, `Find`, and the operations as functions from the old
  state to the new one: `AfterCheckIn`, `AfterCheckOut` and `Search`.
- `VisitProperties` (`properties.dfy`) proves what the operations promise.
- `Tracker` (`tracker.dfy`) has the class `LibrarySystem`. It keeps the four
  state fields and its handlers update them in place. Each handler's
  postcondition equates the new state with the matching transition function
  applied to the old state.

Ids and the clock are parameters of the operations (`freshId`, `now`).
Timestamps are integers.

## Model

| member | source | states |
|---|---|---|
| `Text.Trim` | app/page.tsx:16 | the result is the slice of the name between leading and trailing whitespace; it starts and ends with non-whitespace and is empty exactly when the name is all whitespace (the `!userName.trim()` guard) |
| `Text.TrimStart` | app/page.tsx:20 | the leading-whitespace half of `trim`: a suffix of the input, everything dropped is whitespace, and it does not start with whitespace |
| `Text.TrimEnd` | app/page.tsx:20 | the trailing-whitespace half of `trim`: a prefix of the input, everything dropped is whitespace, and it does not end with whitespace |
| `Text.TrimIsSlice` | app/page.tsx:20 | the stored name is a contiguous slice of the typed text with only whitespace on either side |
| `Text.TrimKeepsTrimmed` | app/page.tsx:20 | a name that neither starts nor ends with whitespace is stored unchanged |
| `Text.LowerChar` | app/page.tsx:43 | lower-casing one character leaves no upper-case ASCII letter, turns a capital into a small letter and changes nothing but A–Z |
| `Text.LowerCharIgnoresCase` | app/page.tsx:43 | two characters lower-case to the same character exactly when they are equal or the same letter of the alphabet in opposite cases |
| `Text.Lower` | app/page.tsx:43 | `toLowerCase` keeps the length, lower-cases position by position, and leaves no upper-case ASCII letter |
| `Text.LowerIgnoresCase` | app/page.tsx:43 | two strings lower-case to the same string exactly when they differ at most in the case of their letters |
| `Text.LowerSlice` | app/page.tsx:43 | lower-casing a slice of a name gives the same slice of the lower-cased name |
| `Text.LowerIdempotent` | app/page.tsx:43 | lower-casing an already lower-cased string changes nothing |
| `Text.Includes` | app/page.tsx:43 | `includes` holds exactly when the query occurs at some position of the name |
| `Text.IncludesIgnoringCase` | app/page.tsx:43 | the lower-cased name includes the lower-cased query exactly when the query occurs in the name at some position up to the case of letters |
| `Text.IncludesEmpty` | app/page.tsx:43 | the empty query is contained in every name |
| `Seqs.Filter` | app/page.tsx:40 | `filter` keeps only elements that satisfy the predicate, is no longer than its input, and is a sub-multiset of it |
| `Seqs.FilterKeepsCount` | app/page.tsx:40 | every element that satisfies the predicate is kept as many times as it occurs |
| `Seqs.FilterConcat` | app/page.tsx:43 | filtering a concatenation filters each part: relative order is kept |
| `Seqs.FilterIsSubsequence` | app/page.tsx:43 | the result of a filter is a subsequence of its input |
| `Seqs.FilterKeepsAll` | app/page.tsx:43 | filtering by a predicate every element satisfies returns the input |
| `Seqs.FilterAgrees` | app/page.tsx:43 | predicates that agree on the elements give the same filter result |
| `Seqs.FilterDropsOne` | app/page.tsx:40 | when exactly one element fails the predicate, the filter removes exactly that element |
| `Visits.Find` | app/page.tsx:29 | `find` returns nothing exactly when no user has the id, and otherwise the user at the first position with that id |
| `Visits.AfterCheckIn` | app/page.tsx:15-26 | check-in never drops or reorders active users and adds at most one at the end; it leaves history and search box alone; the name box keeps its text or is cleared (exact behaviour: `CheckInBlankIsNoop`, `CheckInAppends`) |
| `Visits.AfterCheckOut` | app/page.tsx:28-41 | check-out either leaves the history alone or puts one entry in front of it; afterwards no active user has the id and the active list is no longer; the text boxes are left alone (exact behaviour: `CheckOutUnknownIsNoop`, `CheckOutRecords`) |
| `Visits.Matches` | app/page.tsx:43 | an entry matches exactly when the query occurs in its name at some position up to the case of letters |
| `Visits.Search` | app/page.tsx:43 | search returns only history entries that match the query, as a subsequence of the history (completeness: `SearchExact`) |
| `VisitProperties.InitialInvariants` | app/page.tsx:10-13 | the initial state has unique active ids and consistent times, and every search of its history finds nothing |
| `VisitProperties.FindFirst` | app/page.tsx:29 | the user check-out records is the first active user with the id |
| `VisitProperties.FindAfterRemoval` | app/page.tsx:29-40 | removing the users with one id does not change which user is found for another id |
| `VisitProperties.CheckInBlankIsNoop` | app/page.tsx:16 | check-in leaves the whole state unchanged, name box included, exactly when the typed name is empty or whitespace |
| `VisitProperties.CheckInAppends` | app/page.tsx:18-25 | a non-blank check-in appends one user with the given id, the trimmed non-empty name and time `now`; earlier users, history and search box are unchanged; the name box is cleared |
| `VisitProperties.CheckInKeepsIdsUnique` | app/page.tsx:18-24 | with a fresh id, check-in keeps active ids unique |
| `VisitProperties.FirstCheckIn` | app/page.tsx:10-25 | from the initial state, checking in a trimmed name makes it the only active user and clears the name box |
| `VisitProperties.CheckOutUnknownIsNoop` | app/page.tsx:29-30 | check-out leaves the state unchanged exactly when no active user has the id |
| `VisitProperties.CheckOutRecords` | app/page.tsx:29-40 | check-out of a present id adds one history entry in front that copies the first matching user's name and check-in time, with the old history as its tail; no active user keeps the id; the rest stay in order with their multiplicities; if `now` is not before the check-in time, the entry's check-out time is not before its check-in time |
| `VisitProperties.CheckOutRemovesOne` | app/page.tsx:40 | with unique active ids, check-out of a present id shortens the active list by exactly one |
| `VisitProperties.CheckOutKeepsIdsUnique` | app/page.tsx:40 | check-out keeps active ids unique |
| `VisitProperties.CheckOutKeepsOthersFound` | app/page.tsx:29-40 | checking out one id does not change which user is found for another id |
| `VisitProperties.CheckOutOrder` | app/page.tsx:39 | checking out A and then B leaves B's entry first, A's second and the older history after them |
| `VisitProperties.CheckInChronological` | app/page.tsx:21-24 | with a clock that does not run backwards, check-in keeps every timestamp consistent with the clock |
| `VisitProperties.CheckOutChronological` | app/page.tsx:32-40 | with a clock that does not run backwards, every history entry closes no earlier than it opened, the new one included |
| `VisitProperties.SearchExact` | app/page.tsx:43 | search returns only matching history entries, keeps every matching entry as often as it occurs, and keeps history order |
| `VisitProperties.SearchEmptyQuery` | app/page.tsx:43 | an empty query returns the whole history |
| `VisitProperties.SearchIgnoresCase` | app/page.tsx:43 | queries that differ only in the case of their letters (character by character, `SameUpToCase`) give the same result |
| `VisitProperties.AliceSession` | app/page.tsx:10-43 | checking in "Alice" gives one active user; checking her out leaves no active user and one history entry named "Alice"; "zzz" finds nothing and "ALICE" finds that entry |
| `Tracker.LibrarySystem.constructor` | app/page.tsx:10-13 | all four state fields start empty |
| `Tracker.LibrarySystem.TypeName` | app/page.tsx:75 | typing in the name box changes only the name field |
| `Tracker.LibrarySystem.TypeQuery` | app/page.tsx:96 | typing in the search box changes only the search field |
| `Tracker.LibrarySystem.CheckIn` | app/page.tsx:15-26 | the new state is `AfterCheckIn` of the old one; active ids stay unique when the new id is fresh |
| `Tracker.LibrarySystem.CheckOut` | app/page.tsx:28-41 | the new state is `AfterCheckOut` of the old one; active ids stay unique |
| `Tracker.LibrarySystem.FilteredHistory` | app/page.tsx:43 | the displayed history holds only entries that match the search box, holds every matching entry as often as the history does, keeps history order, and is the whole history when the search box is empty |

## Left out

- Rendering, styling, icons and the `Input`/`Button` components (app/page.tsx:45-148): these are user interface only.
- Locale-aware date and time formatting (`toLocaleString`, `toLocaleTimeString`): a foreign library call that only affects display.
- Id generation with `Math.random().toString(36)`: ids are parameters. Nothing in the source makes them unique, so uniqueness of active ids is proved only under the hypothesis that each new id is fresh.
- The wall clock `new Date()`: the time is the parameter `now`. A history entry's check-out time is no earlier than its check-in time only when the clock does not run backwards. The lemmas state this hypothesis. The code itself does not guarantee it.
- Text.LowerChar: folds only the ASCII letters A–Z. JavaScript's `toLowerCase` applies full Unicode case mapping, which is not modelled.
- Strings are sequences of Unicode scalar values, not UTF-16 code units, so lone surrogates cannot be represented.
- React state batching and stale closures: `find` reads the rendered `activeUsers` and the filter reads the pending one. The model runs each handler as one sequential update of a single state, so both read the same list.
- The link between a user and their history entry: the entry gets an id of its own, so "an active user has no history entry yet" cannot be stated.
- Duplicate active ids are handled as the code does: `find` takes the first match and the filter removes every match. Check-out shortens the active list by exactly one only when active ids are unique.
