# Book catalogue screen — a Dafny model

This project models the single screen of the BordadoraEldroidFinal Android
app: an in-memory list of books (title, author, genre), a selected position
(`-1` for none), and the text of the title, author, genre and search input
fields, together with the handlers wired to the Add, Edit, Delete and Search
buttons, the book selector and the sort selector.

The model has three modules:

- `Text` (`text.dfy`): the string operations the screen relies on, written
  out explicitly. These are `String.trim()` over the JVM's whitespace set,
  `toLowerCase()`, `CharSequence.contains` and `String.compareTo`.
  - `trim()` is proved to return exactly the slice that drops whitespace
    on both sides.
  - `contains` is proved to hold exactly when the query occurs at some
    position.
  - `compareTo` is proved negative exactly when the first string comes
    first in a separately defined lexicographic order (`LexLess`). It is
    also proved zero exactly on equal strings, antisymmetric and
    transitive, which are the facts sorting needs.
  - Lower-casing is described character by character without reference
    to its definition, and is proved idempotent.
- `Catalog` (`catalog.dfy`): the `Book` value, the search predicate and
  `filter`, `indexOf`, and `sortBy` by one field. `sortBy` is defined as a
  stable insertion sort. It is proved to be a permutation, sorted, and
  stable. It is also proved to be the only sequence with those three
  properties, so any stable sort (such as the library's `sortBy`) yields
  the same list.
- `Activity` (`activity.dfy`): the `MainActivity` class. Its fields are the
  book list (a `seq<Book>` that the handlers reassign), the selected index
  and the four field texts. Each handler is a method whose `ensures` gives
  the whole new state and the error outcome.

The model follows what `MainActivity.kt` does where a plainer description
of the screen would say otherwise:

- Deleting a book does not reset the selection. It stays at the deleted
  position, so it may now name the next book or lie past the end of the
  list. A second delete then throws (`DeleteTwice`).
- A search with no match clears the form but leaves the selection as it was.
- Sorting reorders the list under an unchanged selection index.
- A selection past the end of the list is possible, so any list access
  through it can throw. Such an access is modelled as the outcome
  `IndexOutOfBounds(index, size)`. The state is given as it was at the
  throw: the selector's handler has already stored the position when
  `bookList[position]` fails, and edit and delete fail before changing
  anything.
- Toast messages are modelled as the outcome `Toast(text)` with the exact
  message text.
- The search text is lower-cased but not trimmed, and an empty search text
  matches every book.

## Model

| member | source | states |
|---|---|---|
| Text.SkipSpaces | BordadoraEldroidFinal/app/src/main/java/com/bordadoraeldroidfinal/MainActivity.kt:55-57 | the position reached by skipping leading whitespace: everything skipped is whitespace, and it stops at the end or at a non-whitespace character |
| Text.SkipSpacesBack | BordadoraEldroidFinal/app/src/main/java/com/bordadoraeldroidfinal/MainActivity.kt:55-57 | the same for trailing whitespace, scanning backwards from a position |
| Text.TrimIsSlice | BordadoraEldroidFinal/app/src/main/java/com/bordadoraeldroidfinal/MainActivity.kt:55-57 | `trim()` returns one contiguous piece of its input; everything dropped before and after it is whitespace; the piece neither starts nor ends with whitespace |
| Text.TrimEmptyIff | BordadoraEldroidFinal/app/src/main/java/com/bordadoraeldroidfinal/MainActivity.kt:59 | a trimmed field is empty exactly when the field held only whitespace |
| Text.TrimIdempotent | BordadoraEldroidFinal/app/src/main/java/com/bordadoraeldroidfinal/MainActivity.kt:72-74 | trimming an already trimmed field changes nothing (a stored, trimmed book loaded back into the form and saved again keeps its fields) |
| Text.LowerSpec | BordadoraEldroidFinal/app/src/main/java/com/bordadoraeldroidfinal/MainActivity.kt:116 | lower-casing keeps the length; the result has no upper-case letter; each upper-case letter becomes the character 32 code points above it; every other character is kept |
| Text.LowerIdempotent | BordadoraEldroidFinal/app/src/main/java/com/bordadoraeldroidfinal/MainActivity.kt:118-120 | a lower-cased string contains no upper-case letter, so lower-casing it again changes nothing |
| Text.ContainsIff | BordadoraEldroidFinal/app/src/main/java/com/bordadoraeldroidfinal/MainActivity.kt:118-120 | `contains` holds exactly when the query occurs at some position of the string |
| Text.CompareToZeroIff | BordadoraEldroidFinal/app/src/main/java/com/bordadoraeldroidfinal/MainActivity.kt:144-146 | `compareTo` is zero exactly on equal strings |
| Text.CompareToNegativeIff | BordadoraEldroidFinal/app/src/main/java/com/bordadoraeldroidfinal/MainActivity.kt:144-146 | `compareTo` is negative exactly when the first string is a proper prefix of the second, or has the smaller character at the first position where they differ |
| Text.CompareToAntisymmetric | BordadoraEldroidFinal/app/src/main/java/com/bordadoraeldroidfinal/MainActivity.kt:144-146 | swapping the operands negates `compareTo` |
| Text.CompareToTransitive | BordadoraEldroidFinal/app/src/main/java/com/bordadoraeldroidfinal/MainActivity.kt:144-146 | "compares at most" is transitive, so the sort keys form a total preorder |
| Catalog.MatchesIff | BordadoraEldroidFinal/app/src/main/java/com/bordadoraeldroidfinal/MainActivity.kt:117-121 | a book matches exactly when the query occurs in its lower-cased title, author or genre |
| Catalog.FilterAppend | BordadoraEldroidFinal/app/src/main/java/com/bordadoraeldroidfinal/MainActivity.kt:117-121 | filtering a concatenation is concatenating the filtered parts |
| Catalog.FilterSingleton | BordadoraEldroidFinal/app/src/main/java/com/bordadoraeldroidfinal/MainActivity.kt:117-121 | a one-book list filters to itself when the book matches and to nothing otherwise |
| Catalog.FilterMembership | BordadoraEldroidFinal/app/src/main/java/com/bordadoraeldroidfinal/MainActivity.kt:117-121 | a book is among the results exactly when it is in the list and matches |
| Catalog.FilterEmptyIff | BordadoraEldroidFinal/app/src/main/java/com/bordadoraeldroidfinal/MainActivity.kt:134 | there are no results exactly when no book of the list matches |
| Catalog.IndexOf | BordadoraEldroidFinal/app/src/main/java/com/bordadoraeldroidfinal/MainActivity.kt:135 | `indexOf` is -1 exactly when the book is absent; otherwise it is the first position holding an equal book |
| Catalog.FirstResultIndex | BordadoraEldroidFinal/app/src/main/java/com/bordadoraeldroidfinal/MainActivity.kt:134-136 | with results, `indexOf(first result)` is in range, holds the first result, is the first matching position, and the remaining results are the filter of what follows it |
| Catalog.InsertPermutes | BordadoraEldroidFinal/app/src/main/java/com/bordadoraeldroidfinal/MainActivity.kt:144-146 | one insertion step adds exactly the inserted book to the multiset |
| Catalog.InsertSorted | BordadoraEldroidFinal/app/src/main/java/com/bordadoraeldroidfinal/MainActivity.kt:144-146 | inserting into a sorted list keeps it sorted by the key |
| Catalog.InsertStable | BordadoraEldroidFinal/app/src/main/java/com/bordadoraeldroidfinal/MainActivity.kt:144-146 | insertion puts the new book before every book with an equal key, leaving their relative order as it was |
| Catalog.SortByPermutes | BordadoraEldroidFinal/app/src/main/java/com/bordadoraeldroidfinal/MainActivity.kt:144-146 | sorting by a field is a permutation of the list |
| Catalog.SortBySorted | BordadoraEldroidFinal/app/src/main/java/com/bordadoraeldroidfinal/MainActivity.kt:144-146 | the sorted list is ordered by the field under `compareTo` |
| Catalog.SortByStable | BordadoraEldroidFinal/app/src/main/java/com/bordadoraeldroidfinal/MainActivity.kt:144-146 | books with equal keys keep their relative order |
| Catalog.SortedStableUnique | BordadoraEldroidFinal/app/src/main/java/com/bordadoraeldroidfinal/MainActivity.kt:144-146 | two lists, both sorted by a field and both holding the books of each key in the same order, are equal |
| Catalog.StableSortIsSortBy | BordadoraEldroidFinal/app/src/main/java/com/bordadoraeldroidfinal/MainActivity.kt:144-146 | any permutation that is sorted and stable equals `SortBy`, so the model's sort gives the library sort's result |
| Activity.FilledIff | BordadoraEldroidFinal/app/src/main/java/com/bordadoraeldroidfinal/MainActivity.kt:76 | add and edit accept the trimmed form exactly when every field holds a non-whitespace character |
| Activity.MainActivity.constructor | BordadoraEldroidFinal/app/src/main/java/com/bordadoraeldroidfinal/MainActivity.kt:15-16 | the screen starts with an empty list, no selection and empty fields |
| Activity.MainActivity.LoadBookDetails | BordadoraEldroidFinal/app/src/main/java/com/bordadoraeldroidfinal/MainActivity.kt:97-101 | the three fields show the book; the list, selection and search text are unchanged |
| Activity.MainActivity.ClearFields | BordadoraEldroidFinal/app/src/main/java/com/bordadoraeldroidfinal/MainActivity.kt:103-107 | the three fields are empty; the list, selection and search text are unchanged |
| Activity.MainActivity.OnItemSelected | BordadoraEldroidFinal/app/src/main/java/com/bordadoraeldroidfinal/MainActivity.kt:32-36 | the position becomes the selection; in range, the form shows that book; past the end, the outcome is the index error and the form is untouched |
| Activity.MainActivity.AddBook | BordadoraEldroidFinal/app/src/main/java/com/bordadoraeldroidfinal/MainActivity.kt:54-68 | a filled trimmed form is appended as a new book and the form is cleared; otherwise the list and form are unchanged and the "fill in all fields" message is the outcome; the selection is never touched |
| Activity.MainActivity.EditBook | BordadoraEldroidFinal/app/src/main/java/com/bordadoraeldroidfinal/MainActivity.kt:70-87 | without a selection nothing changes; an unfilled form gives the message and no change; a stale selection gives the index error and no change; otherwise only the selected position is replaced by the trimmed form, and the form then shows the edited book |
| Activity.MainActivity.DeleteBook | BordadoraEldroidFinal/app/src/main/java/com/bordadoraeldroidfinal/MainActivity.kt:89-95 | without a selection nothing changes; a stale selection gives the index error and no change; otherwise exactly the selected book is removed, the form is cleared and the selection index is kept |
| Activity.MainActivity.SearchBooks | BordadoraEldroidFinal/app/src/main/java/com/bordadoraeldroidfinal/MainActivity.kt:115-140 | the results are the matching books in list order (a book is a result exactly when it is listed and matches); with results, the selection is the first matching position and the form shows it; without results, the form is cleared, the selection kept, and no book matches; the list is unchanged |
| Activity.MainActivity.SortBooks | BordadoraEldroidFinal/app/src/main/java/com/bordadoraeldroidfinal/MainActivity.kt:142-149 | options 0, 1 and 2 turn the list into a permutation of itself, sorted stably by title, author or genre; any other option leaves it unchanged; the selection and the form are never touched |
| Activity.AddThenSearch | BordadoraEldroidFinal/app/src/main/java/com/bordadoraeldroidfinal/MainActivity.kt:115-139 | on a fresh screen, a book added through the form is found by a search for its title in any letter case: it is the only result, and the selection becomes 0 |
| Activity.DeleteTwice | BordadoraEldroidFinal/app/src/main/java/com/bordadoraeldroidfinal/MainActivity.kt:89-95 | after one book is added and selected, the first delete succeeds and the second reads index 0 of the empty list and throws, because delete keeps the selection |

## Left out

- Activity lifecycle, view binding and listener registration (`onCreate`, lines 18-52): the model's handlers are its entry points, and the constructor gives the initial state of lines 15-16 with empty input fields. Both `onNothingSelected` handlers are empty.
- `updateSpinner` and the selector's adapter: the adapter only displays titles. The search also replaces the adapter's entries with its formatted result lines (lines 123-129).
- Positions reported by the selector after a search count in the displayed results, not in `bookList`. `OnItemSelected` takes the position as given, without the adapter that produced it.
- The results text view (lines 131-132) and the `"Title: …, Author: …, Genre: …"` result strings: these are display output only.
- The Android framework's own calls to the selectors' listeners, such as the initial selection event after an adapter is set: these are framework scheduling. Each handler can be called in any order.
- The toast display itself and process termination after an uncaught exception: they are modelled as the `Toast` and `IndexOutOfBounds` outcomes.
- Text.Lower: lower-cases only ASCII letters. The JVM's `toLowerCase()` follows the default locale and all of Unicode. A full case-mapping table is not part of this model.
- Text.CompareTo: compares Unicode scalar values, while the JVM compares UTF-16 code units. The two orders differ only between characters above U+FFFF and those in U+E000–U+FFFF.
- Catalog.SortBy: defined as insertion sort rather than the library's merge sort. `StableSortIsSortBy` shows that every stable sort gives the same list.
- The `Book` class is not part of this model. It is taken to be a data class with three string fields and value equality, which is what `indexOf` relies on.
