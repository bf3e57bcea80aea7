# Chat message list: a verified model

This project models the message state of a small chat application (a React
Native screen backed by a GraphQL API). The screen keeps one list of
messages. That list:

- starts as a single placeholder record;
- is replaced by the result of the initial `listMessages` fetch;
- receives every message pushed by the `onMutateMessage` subscription.

Both the fetch and the push pass the list through the same normalisation,
`uniqBy(sortBy(xs, 'createdAt'), 'id')`. This sorts stably by `createdAt`,
then keeps the first entry for each `id`. Separately, the submit handler
sends a create-message request only when the text field and the device's
push token are both non-empty.

The modules:

- `Wrappers`, `KeyOrder` (`key_order.dfy`): the optional-field type and the
  order used to sort on `createdAt`. That order is lexicographic on strings,
  with a missing key placed after every present one. It is proved reflexive,
  total, antisymmetric and transitive.
- `Messages` (`message.dfy`): the `Message` record with the model fields of
  `src/models/index.d.ts`, the placeholder record, and the predicates
  `Sorted`, `NoDupIds` and `IsNormal`.
- `StableSort` (`stable_sort.dfy`): `sortBy(…, 'createdAt')`, a stable
  insertion sort. The sort is built from the end of the input:
  `SortByCreatedAt(s + [m]) == Insert(SortByCreatedAt(s), m)`, and `Insert`
  puts `m` after every entry whose key is not greater than its own.
- `UniqueById` (`unique_by_id.dfy`): `uniqBy(…, 'id')`, which keeps the
  first entry for each id.
- `Normalization` (`normalize.dfy`): the composition `Normalize`, a merge of
  one pushed message (`Merged`), and what they guarantee. It states exactly
  how one more message changes the result (`NormalizeSnoc`) and derives the
  following from it:
  - history: merging one at a time equals normalising everything at once;
  - the three merge cases: new id, existing entry kept, existing entry
    replaced;
  - idempotence of repeated delivery;
  - commutation when the keys differ;
  - which record wins for each id.
- `ChatStore` (`store.dfy`): the `messages` state as a class. It has a
  constructor (the placeholder) and the methods `Snapshot` (fetch result)
  and `Merge` (subscription event). Both keep the list normal.
- `Submission` (`submit.dfy`): the submit guard and the request it builds.
- `Scenarios` (`scenarios.dfy`): concrete runs of the message state.

Behaviour of the code that one might expect to be different:

- One might expect the later-arriving of two records with the same id to
  win. The code keeps the one with the smaller `createdAt`, and on equal
  keys the one that came first, so an entry already in the list beats a
  pushed one with the same id and key (`MergeKeepsExisting`,
  `NormalizeKeepsWinner`).
- One might expect merging two messages with distinct ids to give the same
  list in either order. That is guaranteed only when their `createdAt` keys
  differ (`MergeCommutes`). With equal keys the stable sort keeps arrival
  order, so two such messages merged into an empty list give different
  lists in the two orders (`EqualKeysKeepArrivalOrder`).
- Kept entries with equal `createdAt` appear in the order in which their
  winning records arrived (`NormalizeArrivalOrder`).
- A record without `createdAt` (such as the placeholder) is placed after
  every record that has one, and two such records tie. This is a
  convention of the model.

## Model

| member | source | states |
|---|---|---|
| KeyOrder.StrLeTotal | App.tsx:106 | any two `createdAt` strings are comparable |
| KeyOrder.StrLeTransitive | App.tsx:106 | the string order used by the sort is transitive |
| KeyOrder.StrLeAntisymmetric | App.tsx:106 | two strings each not greater than the other are equal |
| KeyOrder.KeyLeTotal | App.tsx:106 | any two optional `createdAt` keys are comparable |
| KeyOrder.KeyLeTransitive | App.tsx:106 | the key order is transitive, with a missing key after every present one |
| KeyOrder.KeyLeAntisymmetric | App.tsx:106 | keys that sort equal are the same key |
| StableSort.InsertKeepsSorted | App.tsx:106 | inserting at the stable position keeps a sorted list sorted |
| StableSort.InsertAddsOne | App.tsx:106 | insertion adds exactly the new entry, as a multiset |
| StableSort.SortByCreatedAtSpec | App.tsx:106 | `sortBy(xs, 'createdAt')` is non-decreasing in `createdAt` and a permutation of its input |
| StableSort.SortSnocSplit | App.tsx:128 | sorting with one more entry at the end places it after exactly the entries with a key not greater than its own and leaves the rest in order |
| StableSort.SortIsStable | App.tsx:106 | the entries sharing any one key keep their relative input order |
| StableSort.SortedFixpoint | App.tsx:106 | an already sorted list is returned unchanged |
| StableSort.SortSwapLast | App.tsx:128 | two last entries with different keys can be swapped without changing the sorted result |
| UniqueById.UniqFromSpec | App.tsx:106 | the dedup result has no repeated id, only input entries, and every input id not already seen |
| UniqueById.UniqByIdSpec | App.tsx:106 | `uniqBy(xs, 'id')` returns exactly one input entry per input id |
| UniqueById.UniqKeepsFirst | App.tsx:106 | every kept entry is the first input entry with its id |
| UniqueById.UniqAppend | App.tsx:106 | dedup of a concatenation is the dedup of the first part followed by the second part deduped after the first part's ids |
| UniqueById.UniqSeenOneMore | App.tsx:106 | having seen one more id removes exactly the entries with that id |
| UniqueById.UniqKeepsSorted | App.tsx:106 | dedup keeps a sorted list sorted |
| UniqueById.UniqFixpoint | App.tsx:106 | a list with distinct, unseen ids is returned unchanged |
| Normalization.NormalizeSpec | App.tsx:106 | the normalised list is sorted, has unique ids, takes every entry from the input and has every input id exactly once |
| Normalization.NormalFixpoint | App.tsx:106 | a sorted list with unique ids is left as it is |
| Normalization.NormalizeIdempotent | App.tsx:106 | normalising twice equals normalising once |
| Normalization.NormalizeSnoc | App.tsx:128 | one more message either changes nothing (its id is already ahead of its position) or goes in at its stable position with any later entry with its id dropped |
| Normalization.MergedSpec | App.tsx:128 | after a merge the list is normal and its ids are the old ids plus the pushed one |
| Normalization.NormalizeHistory | App.tsx:128 | merging into a normalised list equals normalising the whole input with the message appended |
| Normalization.MergeAllIsNormalize | App.tsx:104-129 | a fetch followed by any run of pushes equals normalising the fetched items followed by the pushes |
| Normalization.MergeNewId | App.tsx:128 | a message with a new id is inserted at its sorted position; the length grows by one and the multiset grows by that message |
| Normalization.MergeAppendsLatest | App.tsx:128 | a new message whose key is not less than any key in the list is appended at the end |
| Normalization.MergeKeepsExisting | App.tsx:128 | a message whose id is held by an entry with a key not greater than its own leaves the list unchanged |
| Normalization.MergeReplaces | App.tsx:128 | a message with a strictly smaller key than the entry holding its id replaces that entry at its own sorted position; the length is unchanged |
| Normalization.MergeTwice | App.tsx:128 | a message delivered twice in a row changes the list only once |
| Normalization.MergeCommutes | App.tsx:128 | for any current list, two messages with different `createdAt` give the same list in either merge order |
| Normalization.WinnerIndex | App.tsx:106 | for an id, the input position of the first entry with the least `createdAt`, or none when the id is absent |
| Normalization.NormalizeKeepsWinner | App.tsx:106 | every kept entry is the winner for its id as defined by `WinnerIndex` |
| Normalization.NormalizeArrivalOrder | App.tsx:106 | kept entries with equal `createdAt` appear in the order in which their winning input records occur |
| Normalization.NormalizeTieBreak | App.tsx:106 | a kept entry has the least key among the input entries with its id, and every earlier entry with that id has a strictly greater key |
| ChatStore.MessageStore.constructor | App.tsx:42-52 | the state starts as the single placeholder record, which is a normal list |
| ChatStore.MessageStore.Snapshot | App.tsx:104-107 | the fetch result replaces the state with its normalisation, whatever the state held before; the new state has exactly the fetched ids |
| ChatStore.MessageStore.Merge | App.tsx:126-129 | the state becomes the normalisation of the old list with the message appended; it stays normal and gains the message's id; a new id grows the list by one at the sorted position; an existing entry with a key not greater than the message's keeps the list unchanged; one with a greater key is replaced |
| Submission.SubmitRequest | App.tsx:136-153 | a request is built if and only if both the text and the push token are non-empty; it carries the text as body, the token as sender and room "1" |
| Scenarios.FetchThenPush | App.tsx:104-129 | a fetch of messages at "1" and "3" followed by a push at "2" puts the pushed message between them |
| Scenarios.EarlierKeyWins | App.tsx:106 | of two records with id "1" at "t2" and "t1", the one at "t1" is kept in either input order |
| Scenarios.ArrivalOrder | App.tsx:128 | two new messages with distinct ids and equal keys stay in arrival order |
| Scenarios.EqualKeysKeepArrivalOrder | App.tsx:128 | two messages with distinct ids and equal keys give different lists in the two merge orders |

## Left out

- Network I/O is not modelled. This covers the GraphQL query, the
  subscription and the mutation call, which become plain parameters (the
  fetched items, the pushed message) or a returned request value.
  - A failed fetch (App.tsx:108-110) and a subscription error (App.tsx:130)
    only log and leave the state unchanged. The model has no operation for
    them.
  - A failed mutation (App.tsx:149-151) only logs.
- Push notifications, analytics, `Amplify.configure`, rendering and styling
  are not modelled. They are I/O or UI.
- The text field's submit callback at App.tsx:170 wraps `handleSubmit`
  without calling it. The wiring of the UI to the guard is not modelled;
  only the guard itself is.
- A fetch result whose `items` is null or undefined is not modelled. The
  fetched items are always a list here.
- The placeholder's backend-only fields `_version`, `_lastChangedAt` and
  `__typename` are not modelled. They are not fields of the `Message` model
  type and play no part in sorting or dedup.
- JavaScript compares strings by UTF-16 code units. The model compares
  `seq<char>` character by character, which agrees for text without
  surrogate pairs.
- A null and an undefined `createdAt` are not told apart. Both are
  `None`, and by the model's convention `None` is placed after every
  present key and ties with itself.
- ChatStore.MessageStore.Merge: requires `Valid()`, i.e. a normal list.
  Every state the constructor, `Snapshot` and `Merge` produce is normal, so
  this excludes no reachable state.
