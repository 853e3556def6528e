# Bookmark list reconciler

This project models the bookmark list of the smart-bookmark app: the
client component `BookmarkList` that keeps the signed-in user's bookmarks in
one ordered list. Five things change that list:

- the realtime INSERT, DELETE and UPDATE events from the store;
- the optimistic add, which shows a provisional `temp-` entry until the
  store answers;
- the optimistic edit, which writes the new title and url at once and rolls
  back to a snapshot when the store refuses;
- the delete, which removes an entry only after the store confirms it;
- the derived view, which filters the list by a search query and sorts it by
  one of five modes.

The modules follow the component's structure:

- `Text`: the JavaScript string built-ins the component relies on (`trim`,
  `toLowerCase`, `includes`, the decimal rendering of a number, and an
  ordinal stand-in for `localeCompare`).
- `Types`: the `Bookmark` record and the provisional ids.
- `Urls`: the scheme normalisation applied to a submitted or edited url.
- `Updaters`: each `setBookmarks(current => …)` updater as a pure function
  on the list, plus the list invariant and the lemmas that preserve it.
  The invariant says no two entries share an id, no entry holds a
  provisional id not yet handed out, and no two provisional entries share a
  url.
- `View`: the filter-and-sort pipeline behind `filteredAndSortedBookmarks`.
- `Component`: the `BookmarkList` class, whose fields are the component's
  state.
  - Each asynchronous handler is split at its `await` into a `Begin…`
    method and a `Complete…` method that takes the store's reply as a
    parameter.
  - Remote events and other handlers can be called between the two halves,
    so the model admits every interleaving of them.
  - Every handler keeps `Valid()`, the list invariant plus "the entry being
    edited is durable", as long as the store behaves as the component
    trusts it to: durable ids never start with `temp-`, an update returns
    the row it was asked to change, and the row an add returns is not
    already listed beside its provisional entry (see `CompleteSubmit` under
    "Left out"). The two optimistic writes the handlers call keep it under
    conditions on their argument instead: `PutProvisional` needs a fresh
    provisional id and a url no entry has, and `PutEdit` a durable id.

The store's replies, the realtime channel, URL parsing and the clock are
parameters of the model:

- a reply is a `Reply` or `DeleteReply` value;
- a remote event is a call of `OnRemoteInsert`, `OnRemoteDelete` or
  `OnRemoteUpdate`;
- `new URL(u).hostname` is a function parameter `hostname`;
- a url that `new URL` refuses is the reply `Failed(UrlRejected)`;
- `Date.now()` in a provisional id is the counter `nextTemp`;
- `created_at` is an integer timestamp.

The record carries `description` and `tags`, but the search never looks
at them: it matches title, url and hostname only, and there is no tag
filter.

## Model

| member | source | states |
|---|---|---|
| Types.IsTemp | src/components/BookmarkList.tsx:64 | an id is provisional exactly when it starts with `temp-` |
| Types.TempId | src/components/BookmarkList.tsx:127 | a provisional id always starts with `temp-` |
| Types.TempIdInjective | src/components/BookmarkList.tsx:127 | different counter values give different provisional ids |
| Text.Trim | src/components/BookmarkList.tsx:114 | the result has no whitespace at either end; it is empty exactly when the input is all whitespace; an already trimmed string is unchanged |
| Text.TrimCut | src/components/BookmarkList.tsx:114 | the result is the input with a run of whitespace cut off in front and one cut off behind, the characters between unchanged |
| Text.TrimStart | src/components/BookmarkList.tsx:114 | the result is a suffix of the input; only whitespace was dropped, and the result does not start with whitespace |
| Text.TrimEnd | src/components/BookmarkList.tsx:114 | the result is a prefix of the input; only whitespace was dropped, and the result does not end with whitespace |
| Text.ToLower | src/components/BookmarkList.tsx:278-281 | same length, each character lower-cased |
| Text.IncludesAt | src/components/BookmarkList.tsx:279-281 | an occurrence of the needle at any offset makes `includes` true |
| Text.IncludesWitness | src/components/BookmarkList.tsx:279-281 | when `includes` is true the needle occurs at some offset |
| Text.Includes | src/components/BookmarkList.tsx:279-281 | `includes`: the needle is a prefix of the string or of one of its suffixes |
| Text.NatToString | src/components/BookmarkList.tsx:127 | the decimal rendering is non-empty, all digits, and one digit exactly below ten |
| Text.NatToStringInjective | src/components/BookmarkList.tsx:127 | different numbers render differently |
| Text.CompareStrings | src/components/BookmarkList.tsx:291-295 | the three-way comparison answers -1, 0 or 1 |
| Text.CompareStringsAntisymmetric | src/components/BookmarkList.tsx:291-295 | swapping the arguments negates the comparison |
| Text.CompareStringsZeroIffEqual | src/components/BookmarkList.tsx:291-295 | two strings compare as 0 exactly when they are equal |
| Text.CompareStringsTransitive | src/components/BookmarkList.tsx:291-295 | the comparison is transitive |
| Urls.HasScheme | src/components/BookmarkList.tsx:115 | the test `/^https?:\/\//i`: `http://` or `https://` at the front in any letter case |
| Urls.NormalizeUrl | src/components/BookmarkList.tsx:113-117 | the trimmed url, behind `https://` unless it has a scheme; its properties are stated by `NormalizeUrlSpec` |
| Urls.NormalizeUrlSpec | src/components/BookmarkList.tsx:113-117 | the normalised url always starts with `http://` or `https://` in some letter case and has no surrounding whitespace; it is the trimmed input exactly when that already has such a prefix, and otherwise the trimmed input behind `https://` |
| Urls.NormalizeUrlIdempotent | src/components/BookmarkList.tsx:201-205 | normalising twice equals normalising once |
| Urls.NormalizeBareHost | src/components/BookmarkList.tsx:113-117 | a trimmed, non-empty host whose first letter is not `h` or `H` gets `https://` in front |
| Updaters.HasId | src/components/BookmarkList.tsx:57 | some entry has the id |
| Updaters.HasUrl | src/components/BookmarkList.tsx:120 | some entry has the url: the duplicate test of an add |
| Updaters.IsEchoOf | src/components/BookmarkList.tsx:63-67 | a provisional entry with the row's url and title |
| Updaters.FindEcho | src/components/BookmarkList.tsx:63-67 | the index of the first provisional entry with the row's url and title, or none when no entry matches |
| Updaters.FindById | src/components/BookmarkList.tsx:198 | the first entry with the id, or none exactly when no entry has it |
| Updaters.RemoveById | src/components/BookmarkList.tsx:82-84 | no survivor has the id, every survivor was listed, and an absent id changes nothing |
| Updaters.RemoveByIdCounts | src/components/BookmarkList.tsx:82-84 | every entry without the id survives as often as it was listed |
| Updaters.RemoveByIdConcat | src/components/BookmarkList.tsx:82-84 | removal distributes over concatenation, so the survivors keep their order |
| Updaters.ReplaceById | src/components/BookmarkList.tsx:88-90 | same length; the row exactly where the id matches, every other entry unchanged; an absent id changes nothing |
| Updaters.RemoteInsert | src/components/BookmarkList.tsx:53-78 | a listed id leaves the list unchanged; otherwise the first provisional echo is replaced in place; failing both, the row goes to the front |
| Updaters.RemoteUpdate | src/components/BookmarkList.tsx:85-90 | same ids in the same order; the row where the id matches, every other entry unchanged |
| Updaters.RemoteInsertConsistent | src/components/BookmarkList.tsx:56-77 | a remote INSERT keeps ids distinct whatever the row, and keeps the whole invariant for a durable row |
| Updaters.RemoveByIdConsistent | src/components/BookmarkList.tsx:82-84 | removal by id keeps the invariant |
| Updaters.ReplaceByIdConsistent | src/components/BookmarkList.tsx:88-90 | replacement by a durable row that keeps the id or brings a new one keeps the invariant |
| Updaters.PrependProvisionalConsistent | src/components/BookmarkList.tsx:119-137 | a provisional entry with the next counter value and a url no entry has keeps the invariant, with the counter moved on |
| Updaters.EchoCommutesWithReply | src/components/BookmarkList.tsx:158-163 | the echo of a provisional entry and the store's reply to the add give the same list in either order: the durable row in the provisional entry's place, once |
| Updaters.OptimisticAddThenEcho | src/components/BookmarkList.tsx:62-73 | the echo of the provisional entry just put in front replaces it at the front |
| Updaters.OptimisticEditTouchesOneEntry | src/components/BookmarkList.tsx:207-216 | with distinct ids, the optimistic edit changes only the title and url of the edited entry |
| Updaters.OptimisticAddRollback | src/components/BookmarkList.tsx:168-171 | removing a fresh provisional entry put in front gives back the list before the add |
| Updaters.AddRollbackRestores | src/components/BookmarkList.tsx:127-171 | on a consistent list the provisional id is fresh, so the rollback of a failed add restores the list |
| Updaters.EditRollback | src/components/BookmarkList.tsx:244-254 | where every entry with the id is the snapshot, edit then rollback gives back the list |
| Updaters.EditRollbackRestores | src/components/BookmarkList.tsx:198-254 | with distinct ids, the edit of the entry `find` returns followed by the rollback to it restores the list |
| View.Compare | src/components/BookmarkList.tsx:284-299 | the five comparators: timestamp difference either way, title comparison either way, hostname comparison |
| View.CompareFlip | src/components/BookmarkList.tsx:284-299 | every comparator is antisymmetric in sign |
| View.CompareTransitive | src/components/BookmarkList.tsx:284-299 | every comparator is transitive |
| View.OppositeComparators | src/components/BookmarkList.tsx:286-293 | `date-asc` negates `date-desc` and `title-desc` negates `title-asc` |
| View.Insert | src/components/BookmarkList.tsx:284-299 | inserting into a sorted list keeps it sorted and adds exactly the new entry |
| View.Sort | src/components/BookmarkList.tsx:284-299 | the result is sorted by the comparator and is a permutation of the input |
| View.KeepMatching | src/components/BookmarkList.tsx:276-283 | each entry whose lower-cased title, url or hostname contains the needle is kept as often as listed; no other entry is |
| View.MatchesQuery | src/components/BookmarkList.tsx:278-282 | the lower-cased title, url or hostname contains the needle |
| View.FilterByQuery | src/components/BookmarkList.tsx:276-277 | a blank query keeps every entry; any other keeps the entries matching the lower-cased query |
| View.FilteredAndSorted | src/components/BookmarkList.tsx:275-299 | the view is sorted; a blank query keeps a permutation of every entry; any other query keeps a permutation of exactly the matching entries |
| View.SortedUnique | src/components/BookmarkList.tsx:284-299 | without ties, two sorted permutations of the same entries are equal |
| View.ReverseSortsOpposite | src/components/BookmarkList.tsx:286-293 | a list sorted by one mode, reversed, is sorted by the opposite mode |
| View.FilterByQuerySubset | src/components/BookmarkList.tsx:276-283 | the filter only drops entries |
| View.SortOpposite | src/components/BookmarkList.tsx:286-293 | without ties, sorting by the opposite mode gives the reversed list |
| View.OppositeModesReverse | src/components/BookmarkList.tsx:275-299 | without ties, the `date-asc` view is the `date-desc` view reversed and the `title-desc` view is the `title-asc` view reversed, for any query |
| Component.NoticeText | src/components/BookmarkList.tsx:122 | each notice has a non-empty text: the duplicate-url, invalid-url and save-failed messages |
| Component.NoticeTextInjective | src/components/BookmarkList.tsx:174 | different notices show different texts |
| Component.ReplaceProvisionalConsistent | src/components/BookmarkList.tsx:158-163 | the returned row replacing the provisional entry keeps the invariant when it is durable and not listed beside it |
| Component.DivergentReplyListedTwice | src/components/BookmarkList.tsx:62-73 | a durable row with the provisional entry's url but another title is put in front by the INSERT event, and the reply then turns the provisional entry into a second copy of it |
| Component.BookmarkList.constructor | src/components/BookmarkList.tsx:13-30 | the state starts with the fetched rows, an empty form, no error, no edit, blank query and `date-desc`; distinct durable rows make it valid |
| Component.BookmarkList.SetTitle | src/components/BookmarkList.tsx:319 | the add form's title is the typed value |
| Component.BookmarkList.SetUrl | src/components/BookmarkList.tsx:331 | the add form's url is the typed value |
| Component.BookmarkList.SetEditTitle | src/components/BookmarkList.tsx:477 | the edit form's title is the typed value |
| Component.BookmarkList.SetEditUrl | src/components/BookmarkList.tsx:488 | the edit form's url is the typed value |
| Component.BookmarkList.SetSearchQuery | src/components/BookmarkList.tsx:402 | the search query is the typed value |
| Component.BookmarkList.SetSortBy | src/components/BookmarkList.tsx:421 | the sort mode is the selected value |
| Component.BookmarkList.OnRemoteInsert | src/components/BookmarkList.tsx:53-78 | the list becomes the remote INSERT of the row; ids stay distinct, and a durable row keeps the state valid |
| Component.BookmarkList.OnRemoteDelete | src/components/BookmarkList.tsx:79-84 | the list loses every entry with the id and stays valid |
| Component.BookmarkList.OnRemoteUpdate | src/components/BookmarkList.tsx:85-90 | the list takes the row where ids match; a durable row keeps the state valid |
| Component.BookmarkList.BeginSubmit | src/components/BookmarkList.tsx:108-141 | a normalised url already listed sets the duplicate notice and changes nothing else; otherwise a provisional entry with a fresh id, the trimmed title and the normalised url goes in front, the form is cleared, the counter moves on, and the typed title and normalised url are kept for the reply; the duplicate notice reads "This URL is already in your library!"; the state stays valid |
| Component.BookmarkList.PutProvisional | src/components/BookmarkList.tsx:127-141 | the provisional entry goes in front, the form is cleared, the counter moves on; a fresh id and a new url keep the state valid |
| Component.BookmarkList.CompleteSubmit | src/components/BookmarkList.tsx:143-174 | a failure removes the provisional entry, restores the form and sets the url or connection notice; returned rows replace the provisional entry by the first row; no rows keep it; a trusted reply keeps the state valid |
| Component.BookmarkList.DropProvisional | src/components/BookmarkList.tsx:168-174 | the provisional entry is removed, the form gets the typed title and normalised url back, and the notice depends on whether the url was refused, reading "Please enter a valid URL" or "Failed to save bookmark. Check your connection." |
| Component.BookmarkList.BeginEdit | src/components/BookmarkList.tsx:180-185 | a provisional entry cannot be edited; any other entry opens the form with its title and url |
| Component.BookmarkList.CancelEdit | src/components/BookmarkList.tsx:187-191 | the edit form is closed and emptied |
| Component.BookmarkList.BeginUpdate | src/components/BookmarkList.tsx:193-218 | with no entry being edited nothing changes; otherwise the notice is cleared, and if the entry is listed it takes the trimmed title and normalised url, the form closes and the snapshot is returned; the state stays valid |
| Component.BookmarkList.PutEdit | src/components/BookmarkList.tsx:213-218 | every entry with the edited record's id becomes that record and the edit form closes |
| Component.BookmarkList.CompleteUpdate | src/components/BookmarkList.tsx:220-256 | returned rows overwrite the entry by the first row; no rows or a failure put the snapshot back; a row that keeps the id keeps the state valid |
| Component.BookmarkList.FinishDelete | src/components/BookmarkList.tsx:259-272 | a failed delete leaves the list untouched; a confirmed one removes every entry with the id |
| Component.BookmarkList.Displayed | src/components/BookmarkList.tsx:275-299 | the rendered list is sorted by the chosen mode and drawn from the state's list; a blank query shows every entry, any other exactly the matching ones |

## Left out

- The store client and the realtime channel (subscription set-up, clean-up,
  the `await`ed calls) are replaced by reply values and by calls of the
  `OnRemote…` methods, because they are a foreign network client.
- WHATWG URL parsing is not modelled. `new URL(u)` appears as the reply
  `Failed(UrlRejected)` in the handlers, and `new URL(u).hostname` in the
  view as a function parameter. A url the view cannot parse would throw
  while rendering; the model does not capture that.
- `localeCompare` is replaced by ordinal comparison of code points, because
  locale collation comes from the host's libraries.
- `Date` parsing of `created_at` is replaced by integer timestamps, and
  `Date.now()` in provisional ids by the counter `nextTemp`, which makes
  every provisional id fresh. Two adds in the same millisecond would share
  an id in the app; the model does not capture that.
- `toLowerCase` folds only the ASCII letters. The characters are code points,
  not UTF-16 units.
- `isSubmitting`, `alert`, `confirm`, `console` output and the whole JSX
  rendering are UI and are not modelled. A declined `confirm` in
  `handleDelete` never calls the store, so only the completion
  `FinishDelete` is modelled.
- The "Updated Today" counter is not modelled, because it depends on the wall
  clock and on floating-point hours.
- The render-time snapshot of `bookmarks` read by `handleSubmit`'s duplicate
  check and `handleUpdate`'s `find` is taken to be the current list, because
  the model runs handlers one at a time.
- View.Sort: states sorted and permutation only; that entries comparing
  equal keep their order (the stable sort JavaScript engines use) is not
  proved.
- Component.BookmarkList.OnRemoteInsert: validity is promised only for a durable row, because the component does not check that ids from the store never start with `temp-`.
- Component.BookmarkList.OnRemoteUpdate: validity is promised only for a durable row, for the same reason.
- Component.BookmarkList.CompleteSubmit: validity is promised only when the returned row is durable and not already listed beside its provisional entry. The model does not link a remote INSERT to the add it echoes. The condition holds when the store returns, and echoes, the title and url it was sent, because the echo then takes the provisional entry's place (lines 62-73). A returned row whose title or url differs from what was sent would be listed twice, as `DivergentReplyListedTwice` shows.
- Component.BookmarkList.CompleteUpdate: validity is promised only when the returned row keeps the requested id, because the component trusts the store for this.
