# Friend list filter — a Dafny model

A React page shows a table of friends. Each friend has a name and a race
("race" is the page's word for a category such as ねこ or うさぎ). Above the
table are a name box and one checkbox per race. This project models the
page's only real logic, all in `src/App.tsx`:

- `calcCondRaces` lists each race once, in order of first appearance. It is
  `Array.from(new Set(races))`, and a JavaScript `Set` keeps insertion order.
- `filterFunc` decides whether one friend is shown. It ANDs two conditions.
  The name condition is a case-sensitive substring test, skipped when the
  name box is empty. The race condition is a membership test in the checked
  list, and an empty checked list means "no restriction".
- The table shows `friendList.filter(filterFunc)`.
- `handleChangeMultiCb` copies the checked list. It then either pushes the
  checkbox value or removes one element with
  `splice(indexOf(value), 1)`.
- `handleChangeText` replaces the name query.

Every operation is a pure function over immutable values. `Friend` is a
datatype of two strings, and `AppState` holds the four `useState` values.
The JavaScript built-ins the page relies on are modelled in their own
modules: `JsArray` covers `indexOf`, `push`, `splice`, `map` and `filter`;
`JsString` covers `indexOf`; `JsSet` covers an insertion-ordered `Set` with
`Array.from`. `SeqSpec` holds reference definitions that are independent of
any built-in: no duplicates, subsequence, and delete-first-occurrence.
`Scenarios` proves what the filter returns on the page's own sample list
and on a three-friend list.

Because values are immutable, the spread copy `[...cond_checkedRaces]` holds
automatically: a handler returns a new state, and the old list is never
changed.

The model keeps one JavaScript quirk. When the unchecked value is absent,
`indexOf` gives -1, and `splice(-1, 1)` deletes the last element of a
non-empty list. An empty list is left unchanged. `CheckboxClickToggles`
shows that a click on a rendered checkbox never reaches this case. A box is
drawn checked exactly when its race is in the list (`calcIsChecked` in
`src/components/Conditions.tsx`), so an uncheck event always names a race
that is present.

Read as a set, the checked races could never repeat. The code keeps an array,
which could hold a race twice if a "checked" event arrived for a race that
is already checked. The model follows the code. `CheckboxClickToggles`
proves that clicks on rendered checkboxes keep the list duplicate-free and
keep it inside the race list.

## Model

| member | source | states |
|---|---|---|
| `JsArray.IndexOf` | src/App.tsx:133 | `indexOf` gives -1 exactly when the value is absent; otherwise it gives a position that holds the value, with no earlier occurrence |
| `JsArray.Push` | src/App.tsx:154 | pushing onto the copy adds the value as the new last element and keeps every earlier element |
| `JsArray.SpliceStart` | src/App.tsx:156 | `splice` normalises its start: a negative start counts back from the end and is clamped at 0, and a start past the end is clamped to the length |
| `JsArray.SpliceOne` | src/App.tsx:156 | `splice(start, 1)` deletes at most one element, at the clamped start; elements before it stay in place and later ones shift down by one |
| `JsArray.SpliceIndexOfRemovesFirst` | src/App.tsx:156 | for a present value, `splice(indexOf(v), 1)` equals the reference delete-first-occurrence |
| `JsArray.SpliceIndexOfAbsent` | src/App.tsx:156 | for an absent value, `splice(indexOf(v), 1)` deletes the last element of a non-empty list and leaves an empty list unchanged |
| `JsArray.SpliceIndexOf` | src/App.tsx:156 | `splice(indexOf(v), 1)` deletes the first occurrence of a present value; for an absent value it deletes the last element of a non-empty list and leaves an empty list unchanged |
| `JsArray.Map` | src/App.tsx:97-99 | `map` keeps the length and applies the function at every position |
| `JsArray.Filter` | src/App.tsx:187-189 | `filter` returns exactly the passing elements and is never longer than its input |
| `JsArray.FilterCounts` | src/App.tsx:187-189 | `filter` keeps each passing element as often as it occurs and drops failing ones entirely |
| `JsArray.FilterIsSubsequence` | src/App.tsx:187-189 | `filter` keeps the original order: its result is a subsequence of its input |
| `JsArray.FilterAll` | src/App.tsx:187-189 | when every element passes, `filter` returns the input unchanged |
| `JsArray.FilterNone` | src/App.tsx:187-189 | when no element passes, `filter` returns the empty list |
| `JsString.IndexOf` | src/App.tsx:121 | string `indexOf` gives -1 exactly when the pattern is not a contiguous substring; otherwise it gives the first position where the pattern occurs, counted in characters rather than UTF-16 units |
| `JsString.ContainsFirstChar` | src/App.tsx:121 | a pattern can only occur in a string that holds its first character |
| `JsSet.Add` | src/App.tsx:108 | `Set.add` keeps insertion order: a value already present leaves the listing unchanged, and a new value goes last behind the old values in their old order; the set stays duplicate-free |
| `JsSet.FromArray` | src/App.tsx:108 | `Array.from(new Set(xs))` has no duplicates, has exactly the values of `xs`, lists them in first-occurrence order, and is no longer than `xs` |
| `JsSet.FirstOccurrenceListingUnique` | src/App.tsx:108 | those three properties determine the listing: two duplicate-free listings of the same values in first-occurrence order are equal |
| `JsSet.FromArrayOfDistinct` | src/App.tsx:108 | a duplicate-free array comes back unchanged |
| `JsSet.FromArrayIdempotent` | src/App.tsx:108 | deduplicating twice gives the same result as deduplicating once |
| `App.Races` | src/App.tsx:97-99 | the race column has one entry per friend, holding that friend's race |
| `App.RacesMembership` | src/App.tsx:97-99 | a race is in the column exactly when some friend has it |
| `App.CalcCondRaces` | src/App.tsx:94-110 | the race list has no duplicates, holds exactly the races some friend has, follows first-appearance order, and so is empty for an empty friend list |
| `App.CalcCondRacesCharacterised` | src/App.tsx:94-110 | any duplicate-free, first-appearance listing of exactly the present races equals `calcCondRaces` |
| `App.CalcCondRacesIdempotent` | src/App.tsx:94-110 | deriving races again from friends whose races are an earlier result gives that result back |
| `App.NameMatches` | src/App.tsx:119-126 | the name condition holds exactly when the query is empty or occurs as a case-sensitive contiguous substring of the name |
| `App.RaceMatches` | src/App.tsx:129-134 | the race condition holds exactly when nothing is checked or the friend's race is checked |
| `App.FilterFunc` | src/App.tsx:117-136 | a friend is shown exactly when both the name condition and the race condition hold |
| `App.FilteredList` | src/App.tsx:187-189 | the table keeps the list's order, holds exactly the matching friends, and is no longer than the list |
| `App.FilteredListCounts` | src/App.tsx:187-189 | each matching friend is shown as often as it occurs in the list; a non-matching friend is never shown |
| `App.FilteredListUnrestricted` | src/App.tsx:187-189 | with an empty name query and nothing checked, the table is the whole list |
| `App.UnmatchedNameEmptiesView` | src/App.tsx:117-136 | a query whose first character occurs in no name empties the table, whatever is checked |
| `App.ClearedNameShowsRaceMatches` | src/App.tsx:119-126 | after the name box is cleared, only the race condition decides what is shown |
| `App.HandleChangeMultiCb` | src/App.tsx:148-159 | checking appends the value; unchecking a present value deletes its first occurrence only; unchecking an absent value deletes the last element of a non-empty list; no other state changes |
| `App.HandleChangeText` | src/App.tsx:165-168 | the name query becomes the typed text verbatim, including the empty string, and nothing else changes |
| `App.CheckThenUncheck` | src/App.tsx:152-158 | checking a race that was not checked and then unchecking it restores the state exactly |
| `App.CheckThenUncheckSameRaces` | src/App.tsx:152-158 | checking any race and then unchecking it leaves the same races checked with the same counts, and nothing else changes |
| `App.CheckboxClickToggles` | src/App.tsx:148-159 | a click on a rendered checkbox toggles exactly that race, changes the list length by one, and keeps the list duplicate-free and inside the race list |
| `App.HandlersCommute` | src/App.tsx:148-168 | the two handlers touch disjoint state, so they can be applied in either order |
| `Conditions.CalcIsChecked` | src/components/Conditions.tsx:24-30 | a checkbox is drawn checked exactly when its race is in the checked list |
| `Scenarios.SampleRabbitZ` | src/App.tsx:63-85 | on the sample list, with うさぎ checked and "z" typed, no friend is shown |
| `Scenarios.TrioRaces` | src/App.tsx:94-110 | the races of Mimi/rabbit, Dante/dragon and Sky/dragon are rabbit, then dragon |
| `Scenarios.TrioDragons` | src/App.tsx:117-136 | with dragon checked and no name, Dante and Sky are shown in that order |
| `Scenarios.TrioNameMi` | src/App.tsx:119-126 | with "mi" typed and nothing checked, only Mimi is shown |
| `Scenarios.TrioNamesWithMi` | src/App.tsx:119-121 | "mi" occurs in the name Mimi but not in Dante or Sky, so only Mimi passes the name test |
| `Scenarios.TrioLowerCaseDante` | src/App.tsx:119-126 | with "dante" typed, nobody is shown: the name match is case-sensitive, so "Dante" does not match |
| `Scenarios.TrioRabbitZ` | src/App.tsx:117-136 | with rabbit checked and "z" typed, nobody is shown |

## Left out

- React wiring is left out: `useState`, `useEffect`, JSX rendering, `console.log` and the `EventProps` type. It is framework plumbing; the state it holds is `AppState`, and each handler is a function from state to state.
- The mount-time load (`useEffect` calling `getFriendList` and `calcCondRaces`) is not modelled as an operation. `Scenarios.Loaded` only builds the state it produces for the sample list.
- `getFriendList` stands in for a server call, so the sample data appears only as the `Scenarios.SampleFriends` fixture.
- The twelve-race list of the 21-friend sample is not proved. Evaluating the Set construction over 21 entries costs more proof effort than the solver is allowed. `Scenarios.TrioRaces` checks the same derivation on a three-friend list.
- The rendering of the checkboxes, the text box and the result table is left out, including the even/odd row colouring. It is presentation only.
- The `Friend` type's own file (`components/Types`) is not part of this model. `Friend` is written directly as a name/race datatype.
- JavaScript strings are sequences of UTF-16 code units. Here a string is a `seq<char>`, and a Dafny `char` is a Unicode scalar value. So `JsString.IndexOf` counts positions in characters, not UTF-16 units: a character outside the Basic Multilingual Plane counts as one position here but two in JavaScript. Lone surrogates cannot be represented at all. The page is unaffected. It only compares the string `indexOf` result with -1, and it compares races with `===`. On well-formed strings, both of these give the same answer under either representation.
- `JsArray.SpliceOne` models only a delete count of one, the only count the page uses.
