# Records manager table: a Dafny model

The `Home` component of the records manager shows a list of member records in a
table. The table is searchable, paged ten rows at a time, editable in place and
multi-select, and rows can be deleted one at a time or in bulk. Under the markup
sits a small state machine: the records (`data`), the current page, the search
query, the selected ids and the id of the row in edit mode. The rows shown
(`displayedData`) and the page count (`totalPages`) are derived from them by an
effect. This project models that state machine and proves what each handler does
to it.

Layout:

- `js_array.dfy` (module `JsArray`): the Array.prototype operations the
  component uses. `Filter` and `Map` behave as in JavaScript. `Slice` follows
  JavaScript's rules for negative and out-of-range arguments. The facts the rest
  relies on are proved here: a filter result is a subsequence of its input, each
  element keeps all or none of its occurrences, and filtering distributes over
  concatenation.
- `records.dfy` (module `Records`): a record is a map from field names to
  dynamically typed JavaScript values (string, number, boolean, null, and
  `Undefined` for a missing field). It also holds ASCII lower-casing,
  `String.prototype.includes`, and the search test the filter applies to one
  record.
- `table_logic.dfy` (module `TableLogic`): one pure function per computed value.
  These are the search filter, the page count, the page window, the field edit,
  the selection toggle, select-all and the two deletions. Lemmas prove their
  properties.
- `home.dfy` (module `Home`): class `TableState`. Its fields are the component's
  state variables, and it has one method per event handler. `Valid()` says that
  `displayedData` and `totalPages` are what the filter effect computes from
  `data` and `searchQuery`. Each handler that changes one of those two runs the
  effect before returning.
- `scenarios.dfy` (module `HomeScenarios`): sequences of handler calls on 25
  members. Each states what the user then sees.

Behaviour the model keeps as the code has it, where a plain reading might differ:

- The page count is `ceil(n / 10)` with no minimum. A search that matches
  nothing gives 0 pages, not 1.
- Select-all takes the page's rows from the unfiltered `data`, not from the rows
  shown. It decides by comparing counts only: a selection of as many ids as the
  page has rows is cleared, whichever ids it holds.
- Nothing clamps `currentPage`. Deletions leave it as it is, and
  `handlePageChange` takes any integer. A page of 0 shows nothing. A negative page
  slices with JavaScript's counting back from the end.
- Field edits go straight into `data`. Cancel only leaves edit mode and reverts
  nothing.
- The selection is a list, not a set. Toggling removes every occurrence of an id.
  Select-all replaces the whole selection with the page's ids.
- An empty query keeps every record that has at least one string-valued field.
  A record with no string field never matches, not even the empty query. The
  `id` is searched like any other field if it happens to be a string.
- Bulk delete asks for no confirmation. Single delete acts only on a confirmed
  prompt.
- The ids are not checked for uniqueness. Edit and delete act on every row with
  the given id.

## Model

| member | source | states |
|---|---|---|
| `JsArray.Filter` | src/components/Home.js:43-49 | `filter`: no longer than its input; every kept element comes from the input and satisfies the callback; every input element that satisfies it is kept |
| `JsArray.Map` | src/components/Home.js:59-63 | `map`: same length as the input, with the callback applied at each index |
| `Records.Lower` | src/components/Home.js:47 | `toLowerCase` on ASCII: same length, each character lower-cased (upper-case ASCII letters shifted by 32, every other character kept) |
| `Records.Includes` | src/components/Home.js:47 | `includes`: a prefix is always included, and an included query is no longer than the string; the full characterisation is `IncludesIffOccurs` |
| `JsArray.Slice` | src/components/Home.js:117-120 | `slice(start, end)`: at most `end - start` elements; for `0 <= start <= end` exactly the elements from `start` up to `end`, clamped to the length; empty when `end` is 0 |
| `Records.IncludesIffOccurs` | src/components/Home.js:47 | `includes` is true exactly when the query occurs at some position of the string |
| `Records.IncludesNeedsRoom` | src/components/Home.js:47 | a query longer than the string is never included in it |
| `Records.Matches` | src/components/Home.js:44-47 | a record matches exactly when the lower-cased query occurs at some position of the lower-cased text of one of its string-valued fields; a matching record has a string field, and fields of any other type never match |
| `Records.EmptyQueryMatches` | src/components/Home.js:44-47 | the empty query matches a record exactly when the record has some string-valued field |
| `TableLogic.SearchFilter` | src/components/Home.js:43-49 | the shown rows are a subsequence of `data` in original order; every shown row has a string field whose lower-case form includes the lower-cased query; every such row of `data` is shown |
| `TableLogic.SearchFilterCount` | src/components/Home.js:43-49 | a matching row is shown as many times as `data` holds it, and a non-matching row is not shown at all |
| `TableLogic.EmptySearchKeepsAll` | src/components/Home.js:43-49 | with the empty query, a table whose rows all have a string field is shown whole and unchanged |
| `TableLogic.PageCount` | src/components/Home.js:34-36 | `totalPages` is the least `r` with `n <= 10 r`, so it is `ceil(n / 10)`; it is 0 exactly when there are no rows |
| `TableLogic.PageWindow` | src/components/Home.js:116-120 | at most 10 rows; for page `p >= 1` exactly the rows from `(p-1)*10` up to `min(p*10, n)`; empty when `(p-1)*10 >= n`, and empty for page 0 |
| `TableLogic.PageWindowNonEmptyIffInRange` | src/components/Home.js:116-120 | a page `p >= 1` shows some row exactly when `p <= totalPages` |
| `TableLogic.PagesArePrefix` | src/components/Home.js:116-120 | pages 1 to `k`, one after another, are the first `min(10 k, n)` rows |
| `TableLogic.PagesCoverRows` | src/components/Home.js:116-120 | pages 1 to `totalPages`, one after another, are exactly the shown rows, each once and in order |
| `TableLogic.UpdateField` | src/components/Home.js:58-64 | edit keeps the length and order of `data`; rows with another id are unchanged; in a row with that id, `field` becomes the new string and every other field keeps its value |
| `TableLogic.UpdateAbsentIdIsNoOp` | src/components/Home.js:58-64 | editing an id that no row has leaves `data` unchanged |
| `TableLogic.UpdateFieldKeepsIds` | src/components/Home.js:58-64 | editing any field other than `id` leaves every row's id unchanged |
| `TableLogic.RemoveId` | src/components/Home.js:75 | removing an id from the selection takes out every occurrence and leaves the other ids, with their counts, in order |
| `TableLogic.Toggle` | src/components/Home.js:72-80 | a selected id is removed everywhere while the others keep their order and counts; an unselected id is appended at the end |
| `TableLogic.ToggleTwiceRestores` | src/components/Home.js:72-80 | toggling an unselected id twice restores the original selection |
| `TableLogic.ToggleKeepsNoDuplicates` | src/components/Home.js:72-80 | a selection with no repeated id keeps none after a toggle |
| `TableLogic.PageIds` | src/components/Home.js:83 | select-all's ids: at most 10 of them; for page `p >= 1`, the ids of rows `(p-1)*10` up to `min(p*10, n)` of the unfiltered `data`, in order; none for page 0 |
| `TableLogic.SelectAll` | src/components/Home.js:82-85 | if the selection has as many ids as the page, the selection becomes empty; otherwise it becomes exactly the page's ids, replacing any earlier choice |
| `TableLogic.SelectAllTwiceFromEmpty` | src/components/Home.js:82-85 | from an empty selection on a page with rows, select-all selects the page and a second select-all empties the selection |
| `TableLogic.RemoveRowsWithId` | src/components/Home.js:110 | confirmed delete-one leaves no row with that id, keeps every row with another id, and the remaining rows are a subsequence of `data` in order |
| `TableLogic.RemoveRowsWithIdCount` | src/components/Home.js:110 | after delete-one, every row with another id keeps all its occurrences |
| `TableLogic.RemoveRowsWithIds` | src/components/Home.js:88 | bulk delete leaves no row whose id is selected, keeps every row whose id is not selected, and the remaining rows are a subsequence of `data` in order |
| `TableLogic.RemoveRowsWithIdsCount` | src/components/Home.js:88 | after bulk delete, every row whose id is not selected keeps all its occurrences, and no selected row is left |
| `TableLogic.ToggleKeepsSelectionInStore` | src/components/Home.js:72-80 | ticking the box of a row in the table keeps every selected id an id of some row |
| `TableLogic.SelectAllKeepsSelectionInStore` | src/components/Home.js:82-85 | select-all only selects ids of rows in the table |
| `TableLogic.DeleteOneKeepsSelectionInStore` | src/components/Home.js:106-114 | confirmed delete-one prunes the id from the selection, so no selected id is left without its row |
| `Home.TableState.RunFilterEffect` | src/components/Home.js:42-52 | the effect sets `displayedData` to the filtered rows and `totalPages` to their page count |
| `Home.TableState.constructor` | src/components/Home.js:12-19 | initial state: no rows, page 1, empty query, empty selection, no row in edit mode; after the first effect, 0 pages |
| `Home.TableState.HandleFetchOutcome` | src/components/Home.js:23-32 | a fetched list replaces `data` and the derived state is recomputed; a failed fetch changes nothing; query, page, selection and edit mode are kept |
| `Home.TableState.RenderedRows` | src/components/Home.js:116-120 | the rendered rows are the page window of `displayedData` for `currentPage`: for a page `>= 1`, the rows from `(currentPage-1)*10` up to `min(currentPage*10, n)`; at most 10 rows of `data` that match the query; on a page `>= 1` there are some exactly when the page is at most `totalPages` |
| `Home.TableState.HandlePageChange` | src/components/Home.js:54-56 | the page becomes the given value, unclamped, and nothing else changes |
| `Home.TableState.HandleEdit` | src/components/Home.js:58-64 | `data` becomes the field update of the old `data`, and the derived state follows; page, query, selection and edit mode are unchanged |
| `Home.TableState.HandleSearchChange` | src/components/Home.js:66-70 | the query becomes the new text and the page becomes 1; `data`, selection and edit mode are unchanged |
| `Home.TableState.HandleCheckboxChange` | src/components/Home.js:72-80 | the selection becomes its toggle by the id |
| `Home.TableState.HandleSelectAll` | src/components/Home.js:82-85 | the selection becomes select-all over the unfiltered `data` on the current page |
| `Home.TableState.HandleDeleteSelected` | src/components/Home.js:87-90 | `data` loses every selected row and the selection empties; the page is not clamped |
| `Home.TableState.HandleEditAction` | src/components/Home.js:92-94 | the row in edit mode becomes the given id |
| `Home.TableState.HandleSaveEdit` | src/components/Home.js:96-99 | edit mode is cleared to null; `data` is untouched |
| `Home.TableState.HandleCancelEdit` | src/components/Home.js:101-104 | edit mode is cleared to null; `data` is untouched, so earlier edits stay |
| `Home.TableState.HandleDeleteAction` | src/components/Home.js:106-114 | if confirmed, the rows with that id go and the id leaves the selection; if declined, nothing changes |
| `HomeScenarios.PagingScenario` | src/components/Home.js:34-36 | 25 members make 3 pages, and page 2 shows the members with ids 11 to 20 |
| `HomeScenarios.SelectAllScenario` | src/components/Home.js:82-85 | on page 1 of 25 members, select-all selects ids 1 to 10 and a second select-all clears the selection |
| `HomeScenarios.CancelKeepsEditScenario` | src/components/Home.js:101-104 | after editing member 5's name to "X" and cancelling, edit mode is null and the name is still "X" |
| `HomeScenarios.SelectionSurvivesSearchScenario` | src/components/Home.js:66-69 | a selected id stays selected after a search hides its row; a search that matches nothing shows no rows and gives 0 pages |

## Left out

- The network request, JSON parsing and error logging of `fetchData` (src/components/Home.js:21-32) are I/O. The response comes in as a `FetchOutcome` value, and the mount effect that starts the request (src/components/Home.js:38-40) is not modelled.
- `window.confirm` and `console.log` in `handleDeleteAction` are browser calls. The user's answer is a boolean parameter, so the record's `name`, which only appears in the prompt text, is not a parameter.
- React's scheduling is not modelled: setter batching, functional updates and when effects re-run. The filter effect runs synchronously at the end of each handler that changes `data` or `searchQuery`.
- All markup and presentation are not modelled: the table rows and inputs, the header checkbox's `checked` flag, the navbar, the search box, the pagination buttons and their `disabled` flags, the "Selected n of m" line, and the CSS and icon imports.
- Records.Lower: lower-cases ASCII letters only, not the full Unicode mapping of `toLowerCase`.
- Records.Value: numbers are integers, not IEEE doubles, and nested objects and arrays are not represented. Such values are never strings, so the filter ignores them either way.
- TableLogic.PageWindow: for negative pages the contract states only the length bound. The body follows JavaScript's slice rules there too.
- TableLogic.PageIds: for negative pages the contract states only the length bound, as for `PageWindow`, whose window it takes the ids of.
- The invariants of a plain reading are not enforced by the component, so the model does not assume them. These are unique ids, `currentPage` within `[1, totalPages]`, an edit target that names a present row, and every selected id naming a row of `data`. The code keeps the last one only under conditions, which `ToggleKeepsSelectionInStore`, `SelectAllKeepsSelectionInStore` and `DeleteOneKeepsSelectionInStore` state.
