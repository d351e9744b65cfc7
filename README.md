# Windowed selection list

A model of `List<T>` from the fuzzy finder's `src/list.rs`: the piece of the picker
that shows at most `capacity` rows of a ranked result set, keeps a cursor on one of
them, moves the cursor up and down, and rebuilds the rows whenever the matcher
re-ranks the results.

The list holds three parts: the rows `above` the cursor, the `selected` row (empty
only when nothing is shown) and the rows `below` it. Display order is
`above ++ [selected] ++ below`, with the last element of `above` and the first of
`below` nearest the cursor.

The project has five modules:

- `Wrappers` (wrappers.dfy): the `Option` type used for the cursor.
- `Sequences` (sequences.dfy): `Take`, `Nth` and `Reverse`, standing for the
  iterator adapters `take`, `nth` and `rev`, with lemmas about reversal.
- `SelectionWindow` (window.dfy): the list's state as a value `Window` with the
  queries, the effect of `up`, `down` and `update` as functions, and the lemmas
  about them: the invariant, the capacity bound, the order and length after an
  update, where the cursor goes, idempotence, and cursor movement.
- `Lists` (list.dfy): `class List<T>` with the three parts as
  mutable fields and `capacity` as a constant. Its `Up`, `Down` and `Update`
  methods change the fields step by step as the Rust code does (pop, push, clear,
  extend, promote). Each is proved to keep `Valid()` and to leave the object in
  exactly the state the matching `SelectionWindow` function gives.
- `ListScenarios` (scenarios.dfy): the six unit tests of `src/list.rs`, written as
  client methods that drive a `List` only through its contracts and return what
  the tests observe. Two members are additions that match no test:
  `Populated` is the setup the tests share, and `RerankKeepsPosition` is a
  re-ranking with eight matches while three rows are below the cursor.

Notes on the code:

- `update` computes `above_len = capacity - selected_len - below_len` only to feed
  an `assert_eq!`. Placement depends only on whether the list was empty and on the
  old length of `below`. The model keeps the computation as a `nat`. The class
  invariant (`len() <= capacity`) proves that it never underflows. When the list
  was not full, the value is larger than the old number of rows above the cursor.
- The shown order after `update` is the reverse of the taken prefix of `matches`,
  so the best match is the bottom row.

## Model

| member | source | states |
|---|---|---|
| Wrappers.ToSeq | src/list.rs:49 | the cursor contributes at most one row, and exactly one when it holds an item |
| Sequences.Take | src/list.rs:120 | the taken matches are the prefix of length min(capacity, number of matches) |
| Sequences.Nth | src/list.rs:128 | `nth(b)` is the element at index b when there is one, and nothing otherwise |
| Sequences.Reverse | src/list.rs:124-129 | `rev()` keeps the length |
| Sequences.ReverseAt | src/list.rs:124-129 | element k of the reversal is element n-1-k |
| SelectionWindow.Empty | src/list.rs:35-42 | the state `new` builds shows nothing and satisfies the invariant |
| SelectionWindow.Items | src/list.rs:47-50 | display order is `above`, then the cursor item if any, then `below`: its length is the sum of the three, and the cursor item sits at the index equal to the number of rows above |
| SelectionWindow.ItemsLayout | src/list.rs:47-50 | the visible items start with `above` and end with `below` |
| SelectionWindow.Coherent | src/list.rs:20 | the invariant: the list may lack a cursor item only when it shows nothing |
| SelectionWindow.Valid | src/list.rs:20 | the invariant together with the capacity bound: at most `capacity` visible items, and none without a cursor item |
| SelectionWindow.Len | src/list.rs:68-70 | the length is the number of visible items |
| SelectionWindow.LenAbove | src/list.rs:72-74 | when there is a cursor item, the number of rows above it is its index in the visible items |
| SelectionWindow.IsEmpty | src/list.rs:76-80 | under the invariant, "no cursor item" holds exactly when the length is 0 |
| SelectionWindow.Selected | src/list.rs:139-141 | on a non-empty window the selected item is the visible item at index `len_above` |
| SelectionWindow.MarkIndex | src/list.rs:58-60 | enumerate-then-map tags element i with whether its index is the marked one, and keeps the element |
| SelectionWindow.Tagged | src/list.rs:55-62 | the tagged items are the visible items, tagged true at exactly index `len_above`; none when empty; the true tag carries the selected item |
| SelectionWindow.Up | src/list.rs:82-91 | moving up keeps the invariant and the visible items; with rows above, `len_above` drops by one; at the top nothing changes |
| SelectionWindow.Down | src/list.rs:93-102 | moving down keeps the invariant and the visible items; with rows below, `len_above` grows by one; at the bottom nothing changes |
| SelectionWindow.Update | src/list.rs:107-137 | after an update the window satisfies the invariant and the capacity bound, and its length is min(capacity, number of matches); empty matches give an empty list |
| SelectionWindow.UpPreservesValid | src/list.rs:82-91 | moving up keeps the invariant, the capacity bound and the length |
| SelectionWindow.DownPreservesValid | src/list.rs:93-102 | moving down keeps the invariant, the capacity bound and the length |
| SelectionWindow.DownUndoesUp | src/list.rs:82-102 | when there are rows above, moving down after moving up restores the window |
| SelectionWindow.UpUndoesDown | src/list.rs:82-102 | when there are rows below, moving up after moving down restores the window |
| SelectionWindow.UpTimesStopsAtTop | src/list.rs:226-256 | k moves up leave the visible items unchanged and leave `len_above` at max(0, `len_above` - k) |
| SelectionWindow.DownTimesStopsAtBottom | src/list.rs:258-270 | on a non-empty window, k moves down leave the visible items unchanged and leave `len_above` at min(`len_above` + k, len - 1) |
| SelectionWindow.UpdateItems | src/list.rs:119-130 | the visible items after an update are the first min(capacity, number of matches) matches in reverse order |
| SelectionWindow.UpdateRow | src/list.rs:119-130 | row i from the top after an update holds the match ranked len-1-i |
| SelectionWindow.UpdateFirstPopulation | src/list.rs:122-136 | on an empty list with some match taken, the best match is selected, nothing is below it, and `len_above` is len-1 |
| SelectionWindow.UpdateLaterPopulation | src/list.rs:125-136 | on a non-empty list with b rows below: with more than b taken matches, b rows stay below and match b is selected; with n between 1 and b taken, nothing is above, match n-1 is selected and n-1 rows are below |
| SelectionWindow.UpdateIdempotent | src/list.rs:107-137 | updating twice with the same matches gives the same state as updating once |
| Lists.List.constructor | src/list.rs:35-42 | a new list is empty, satisfies the invariant and has the given capacity |
| Lists.List.Items | src/list.rs:44-53 | the visible items never number more than the capacity |
| Lists.List.TaggedIter | src/list.rs:55-62 | the tagged items are the visible items, tagged true at exactly the number of rows above; none when empty |
| Lists.List.Capacity | src/list.rs:64-66 | the length never exceeds the capacity |
| Lists.List.Len | src/list.rs:68-70 | the length is the number of visible items |
| Lists.List.LenAbove | src/list.rs:72-74 | the number of rows above is the index of the selected item among the visible items |
| Lists.List.IsEmpty | src/list.rs:76-80 | under the invariant, "no cursor item" holds exactly when the length is 0 |
| Lists.List.GetSelected | src/list.rs:139-141 | on a non-empty list the selected item is the visible item at index `len_above`; calling it on an empty list is ruled out |
| Lists.List.Up | src/list.rs:82-91 | the new state is `SelectionWindow.Up` of the old one; the invariant and visible items are kept; `len_above` drops by one or nothing changes |
| Lists.List.Down | src/list.rs:93-102 | the new state is `SelectionWindow.Down` of the old one; the invariant and visible items are kept; `len_above` grows by one or nothing changes |
| Lists.List.Update | src/list.rs:107-137 | the new state is `SelectionWindow.Update` of the old one; the invariant holds; the visible items are the taken matches reversed; the length is min(capacity, number of matches) |
| ListScenarios.Populated | src/list.rs:199-202 | thirteen matches into an empty 8-row list give 8 rows, 7 above the cursor, none below, "A" selected |
| ListScenarios.UpdateOnFreshList | src/list.rs:196-208 | the list reports length 8, `len_above` 7 and selected "A" |
| ListScenarios.UpThreeTimes | src/list.rs:210-224 | three moves up leave length 8 and `len_above` 4 |
| ListScenarios.UpPastTheTop | src/list.rs:226-256 | thirteen moves up leave length 8 and `len_above` 0 |
| ListScenarios.DownAtBottom | src/list.rs:258-270 | a move down at the bottom leaves length 8 and `len_above` 7 |
| ListScenarios.UpThenDown | src/list.rs:272-287 | three moves up and one down leave length 8 and `len_above` 5 |
| ListScenarios.FewMatches | src/list.rs:289-304 | three matches in an 8-row list give length 3; four moves up leave `len_above` 0 |
| ListScenarios.RerankKeepsPosition | src/list.rs:109-136 | after the cursor moved to three rows from the bottom, a re-ranking with eight matches keeps three rows below, selects match 3 and shows the matches reversed; a second identical update leaves the state unchanged |

## Left out

- `log::info!` in `update` (src/list.rs:108): a logging side effect with no effect on state.
- Laziness and cloning in `items` and `tagged_iter` (`Box<dyn Iterator>`, `.cloned()`): both are modelled as functions returning sequences.
- The `Item` wrapper and fuzzy scoring used by the tests: `T` is a type parameter, and the ranking of `matches` is taken as given. The tests' items are modelled as strings.
- examples/lotr.rs: CSV reading, logger setup, the interactive terminal loop and output. This is I/O around the core.
- Lists.List.Update: `usize` arithmetic is not modelled. The subtraction at src/list.rs:112 is a `nat` subtraction that the invariant proves safe, so neither wrap-around nor the debug-mode panic can happen.
- Lists.List.GetSelected: the `unwrap` panic at src/list.rs:140 on an empty list becomes a precondition. `SelectionWindow.Selected` has the same precondition.
- SelectionWindow.Up, SelectionWindow.Down: the `unreachable!` panics at src/list.rs:88 and :99 are excluded by the invariant, which these functions require. The class methods keep the branch and prove it dead.
