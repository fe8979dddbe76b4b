# Apex-Task-4 page logic in Dafny

A Dafny model of the client-side logic in `script.js`. It covers two widgets.

- **The to-do list.** The stored list of records `{id, text, completed}` and the three mutators `addTodo`, `toggleTodo` and `deleteTodo`. Also the filter-button state and the filtered view that `renderTodos` draws, including the "No tasks found." placeholder row.
- **The product catalog.** The six hardcoded products, the category filter and the three sorts that `renderProducts` applies, and the star row built by `getRatingStars`.

The model has five modules:

- `Seqs`: `Array.prototype.filter` as a function on sequences, with its laws.
- `Text`: `String.prototype.trim`, over the ECMAScript whitespace and line-terminator characters.
- `Todos`: the records and the pure list operations. The class `TodoStore` holds the page's two mutable variables, `todos` and `currentFilter`, and its methods reassign them.
- `Catalog`: the products, the category filter, and an in-place insertion sort on an array standing in for `filteredProducts.sort(...)`.
- `RatingStars`: the two counting loops of `getRatingStars`, proved against a function that describes the glyph row.

Numbers are exact.

- Prices are whole cents (`129.99` is `12999`).
- Ratings are whole tenths of a star (`4.5` is `45`).
- `Math.floor` and the JavaScript `%` are written out, including for negative ratings.
- The clock reading `Date.now()` is a parameter `now` of the add operation.

Filter values and sort values are plain strings, as the page reads them from `data-filter` attributes and select elements.

In three places the code does something other than what the page seems to assume. The model follows the code:

- **Unknown filter value.** A `currentFilter` value other than "all", "active" or "completed" leaves the selection empty, so the placeholder is shown. The filter buttons only offer the three values.
- **Records sharing an id.** `toggleTodo` and `deleteTodo` act on every record that carries the id. Ids are meant to be unique. Uniqueness is modelled as the invariant `ValidTodos`: ids increase along the list and texts are trimmed. `addTodo` preserves it when the clock moves forward, and toggle and delete always preserve it. The single-record statements are lemmas under that invariant.
- **Glyph count.** The star row is meant to have five glyphs for ratings in [0, 5]. The code gives five exactly for ratings from 0.0 to 5.4 (`FiveGlyphsExactly`), which includes that range.

## Model

| member | source | states |
|---|---|---|
| Seqs.Filter | script.js:70 | the filtered copy holds exactly the elements satisfying the predicate, in their original order (a subsequence), and is no longer than the input |
| Seqs.FilterCount | script.js:91-93 | each element keeps its multiplicity when it satisfies the predicate and disappears otherwise |
| Seqs.FilterKeepsAll | script.js:70 | filtering returns the input unchanged exactly when every element satisfies the predicate |
| Seqs.FilterIdempotent | script.js:70 | filtering twice with one predicate is filtering once |
| Seqs.FilterPartition | script.js:91-93 | two complementary filters split the input: multisets add up, lengths add up, every element lands in exactly one |
| Seqs.FilterKeepsOrdered | script.js:70 | an ordering between earlier and later elements survives filtering |
| Seqs.FilterDropsOne | script.js:70 | when only element k fails the predicate, filtering removes just that element |
| Text.LeadingWs | script.js:37 | the length of the leading whitespace run: all whitespace before it, a non-whitespace character at it (or the end) |
| Text.TrailingWs | script.js:37 | the length of the trailing whitespace run, symmetrically |
| Text.Trim | script.js:37 | `trim()` is empty exactly when the input is all whitespace, and otherwise starts and ends with non-whitespace |
| Text.TrimUnique | script.js:37 | whitespace + trimmed text + whitespace trims to that text, which characterises `trim` completely |
| Text.TrimIdempotent | script.js:37 | trimming a trimmed string changes nothing |
| Text.TrimSplits | script.js:37 | the input is its leading whitespace, then the trimmed text, then its trailing whitespace |
| Todos.Added | script.js:37-46 | empty trimmed input leaves the list unchanged; otherwise the old list is kept as a prefix and one record is appended with id `now`, `completed` false and the trimmed, non-empty text |
| Todos.Toggled | script.js:56-62 | same length, ids and texts; `completed` flips on exactly the records whose id matches |
| Todos.ToggleAbsentIsNoop | script.js:57-62 | toggling an id no record has leaves the list unchanged |
| Todos.ToggleTwiceRestores | script.js:57-62 | toggling the same id twice restores the list |
| Todos.ToggleFlipsOne | script.js:57-62 | with unique ids, toggling record k's id changes record k's flag and nothing else |
| Todos.ToggleKeepsValid | script.js:57-62 | toggling preserves the trimmed-text and increasing-id invariant |
| Todos.Deleted | script.js:70 | the kept records are exactly those with another id, in their original order |
| Todos.DeleteCount | script.js:70 | every record with another id keeps its multiplicity; records with the id are gone |
| Todos.DeleteIdempotent | script.js:70 | deleting an id twice is deleting it once |
| Todos.ToggleAfterDeleteIsNoop | script.js:57-70 | after deleting an id, toggling it changes nothing |
| Todos.DeleteAbsentIsNoop | script.js:70 | deleting an id no record has changes nothing |
| Todos.DeleteRemovesOne | script.js:70 | with unique ids, deleting record k's id removes exactly record k |
| Todos.DeleteKeepsValid | script.js:70 | deleting preserves the invariant |
| Todos.AddKeepsValid | script.js:39-46 | adding with a clock later than every stored id preserves the invariant |
| Todos.DeleteUndoesAdd | script.js:37-70 | deleting the id of a record just added at a fresh clock reading gives back the previous list |
| Todos.SelectView | script.js:85-94 | "all" gives the whole list; "active" and "completed" keep exactly the open or the done records, in order; any other value gives an empty selection |
| Todos.ViewsPartition | script.js:90-94 | the active and completed views split the list: multisets and lengths add up, each record is in exactly one |
| Todos.Rendered | script.js:96-103 | the placeholder appears exactly when the selection is empty; otherwise the rows are the selection |
| Todos.PlaceholderWhen | script.js:88-102 | placeholder for "all" iff the list is empty, for "active" iff every record is done, for "completed" iff none is, always for an unknown value |
| Todos.BuyMilkTrimmed | script.js:37 | "  Buy milk " trims to "Buy milk" |
| Todos.BuyMilkScenario | script.js:34-102 | add "  Buy milk ", toggle it: the "completed" view shows it and the "active" view shows the placeholder |
| Todos.TodoStore.constructor | script.js:8-9 | the store starts with the stored list and the filter "all" |
| Todos.TodoStore.AddTodo | script.js:34-53 | the new list is `Added(old list, input, now)`; the filter is unchanged; the invariant is kept when `now` exceeds every id |
| Todos.TodoStore.ToggleTodo | script.js:56-66 | the new list is `Toggled(old list, id)`; the filter is unchanged; the invariant is kept |
| Todos.TodoStore.DeleteTodo | script.js:69-73 | the new list is `Deleted(old list, id)`; the filter is unchanged; the invariant is kept |
| Todos.TodoStore.SelectFilter | script.js:21-28 | a filter click stores the button's value and leaves the list alone |
| Todos.TodoStore.Render | script.js:81-103 | the drawn view is `Rendered` of the current list and filter, so `Rendered`'s contract and `PlaceholderWhen` apply to it |
| Catalog.OrderOf | script.js:205-211 | "price-asc" selects price ascending, "price-desc" price descending, "rating" rating descending; a sort is applied exactly for these three values |
| Catalog.ByCategory | script.js:197-202 | "all" keeps the whole list; otherwise exactly the products of that category, in catalog order |
| Catalog.ByCategoryCount | script.js:198-202 | each product of the category keeps its multiplicity; others are dropped |
| Catalog.Compare | script.js:206-210 | the three comparators: a non-positive result lets `a` stay before `b`, meaning a price no higher, a price no lower, or a rating no lower |
| Catalog.CompareConsistent | script.js:206-210 | each comparator is antisymmetric and its "may come before" relation is transitive, so the sort is well defined |
| Catalog.SortInPlace | script.js:205-211 | the array ends in the comparator's order and is a permutation of its old contents |
| Catalog.InsertAt | script.js:205-211 | one insertion pass extends the sorted prefix by one element, permutes the array and leaves everything after the prefix unchanged |
| Catalog.MoveLeft | script.js:205-211 | one exchange moves the inserted product a place left, keeping the pass state, the multiset and everything after the prefix |
| Catalog.SortedMeans | script.js:205-211 | in the order of the sort a select value asks for, prices ascend for "price-asc", descend for "price-desc", and ratings descend for "rating" |
| Catalog.RenderProducts | script.js:191-211 | the shown products are a permutation of the category selection, in the requested order; for any other sort value they are the selection in catalog order |
| Catalog.RenderCatalog | script.js:139-211 | the same, over the page's six hardcoded products |
| RatingStars.Repeat | script.js:245-256 | a counting loop's output: `max(n, 0)` copies of one glyph |
| RatingStars.FullStars | script.js:242 | `Math.floor`: the whole number of stars `n` with `n <= rating < n + 1` |
| RatingStars.FractionTenths | script.js:243 | `rating % 1`: between -1 and 1 exclusive, with the sign of the rating, and the rating minus it is whole |
| RatingStars.HasHalfStar | script.js:243 | a half star appears iff the rating is non-negative and its tenths digit is at least 5 |
| RatingStars.EmptyStars | script.js:253 | the empty count is at least 0 iff the rating is at most 5.4, and at most 5 iff the rating is not negative |
| RatingStars.Stars | script.js:241-258 | the reference row: its length is the full, half and empty counts, each clamped at zero, added up |
| RatingStars.StarsLayout | script.js:240-259 | position by position: `floor(rating)` full glyphs, then a half glyph iff `rating % 1 >= 0.5`, then empty glyphs |
| RatingStars.FiveGlyphsExactly | script.js:253-256 | the row has exactly five glyphs iff the rating is between 0.0 and 5.4 |
| RatingStars.StarsExamples | script.js:240-259 | 4.5, 4.2, 5.0 and 0.0 give the rows 4+half, 4+empty, 5 full, 5 empty |
| RatingStars.GetRatingStars | script.js:240-259 | the two loops build exactly the row `Stars(rating)` |

## Left out

- The DOM is not modelled. Element creation, `innerHTML`, class-list updates and event listeners are out, and so is the "active" class moved among the filter buttons.
- The HTML of each row or card is not modelled (checkbox state, icons, image URL, category label). The model states which records or products are shown and in what order.
- Local storage and JSON are not modelled. `saveTodos` is a side effect with no effect on the list. The constructor receives the list that `JSON.parse(localStorage.getItem('todos')) || []` would produce; malformed stored data is not modelled.
- `Date.now()` is the parameter `now`, and the input element's value is the parameter `input`. Clearing the input after an add is DOM work and is out.
- Floating point is replaced by exact cents and tenths. `toFixed(2)` price formatting is not modelled.
- The mobile menu toggle and smooth scrolling are not modelled. They are navigation helpers outside the list and catalog logic.
- Catalog.SortInPlace: `Array.prototype.sort` is stable. The insertion sort only moves an element past neighbours the comparator puts strictly after it, so it is stable too, but only sortedness and permutation are proved, not stability.
