/**
 * The book screen: the list of books, the selected position (-1 for none)
 * and the text of the four input fields, with the handlers that the buttons,
 * the book selector and the sort selector call.
 */
module Activity {
  import opened Text
  import opened Catalog

  /** What a handler leaves for the user to see: nothing, a short message, or
      the IndexOutOfBoundsException that a list access with a stale
      selection throws (it would end the app). */
  datatype Outcome = Done | Toast(text: string) | IndexOutOfBounds(index: int, size: int)

  const FillAllFields: string := "Please fill in all of the fields"

  /** Add and edit accept a book only when no field is empty after trimming. */
  predicate Filled(b: Book) {
    b.title != [] && b.author != [] && b.genre != []
  }

  /** A book whose fields are all blank is refused, and one with a visible
      character in every field is accepted. */
  lemma FilledIff(title: string, author: string, genre: string)
    ensures Filled(Book(Trim(title), Trim(author), Trim(genre)))
      <==> !AllWhitespace(title) && !AllWhitespace(author) && !AllWhitespace(genre)
  {
    TrimEmptyIff(title);
    TrimEmptyIff(author);
    TrimEmptyIff(genre);
  }

  /** The sort selector's options 0, 1 and 2. */
  function SortField(option: int): Field
    requires 0 <= option <= 2
  {
    if option == 0 then Title else if option == 1 then Author else Genre
  }

  class MainActivity {
    var bookList: seq<Book>
    var selectedBookIndex: int
    // the text of the title, author, genre and search input fields
    var titleText: string
    var authorText: string
    var genreText: string
    var searchText: string

    /** The selection is -1 (none) or a position: the selector never reports
        a negative one. It may still lie past the end of the list. */
    ghost predicate Valid()
      reads this
    {
      selectedBookIndex >= -1
    }

    /** The title, author and genre fields show b. */
    predicate FormShows(b: Book)
      reads this
    {
      titleText == b.title && authorText == b.author && genreText == b.genre
    }

    predicate FormCleared()
      reads this
    {
      titleText == "" && authorText == "" && genreText == ""
    }

    /** The book the form would produce: its three fields, trimmed. */
    function FormBook(): Book
      reads this
    {
      Book(Trim(titleText), Trim(authorText), Trim(genreText))
    }

    constructor ()
      ensures Valid()
      ensures bookList == [] && selectedBookIndex == -1
      ensures FormCleared() && searchText == ""
    {
      bookList := [];
      selectedBookIndex := -1;
      titleText, authorText, genreText, searchText := "", "", "", "";
    }

    /** loadBookDetails: shows a book in the form. */
    method LoadBookDetails(book: Book)
      modifies this
      ensures FormShows(book)
      ensures bookList == old(bookList) && selectedBookIndex == old(selectedBookIndex)
      ensures searchText == old(searchText)
    {
      titleText := book.title;
      authorText := book.author;
      genreText := book.genre;
    }

    /** clearFields: empties the title, author and genre fields (not the
        search field). */
    method ClearFields()
      modifies this
      ensures FormCleared()
      ensures bookList == old(bookList) && selectedBookIndex == old(selectedBookIndex)
      ensures searchText == old(searchText)
    {
      titleText := "";
      authorText := "";
      genreText := "";
    }

    /** The book selector reports a position: it becomes the selection before
        the list is read, and the book there is shown in the form. */
    method OnItemSelected(position: int) returns (outcome: Outcome)
      requires Valid() && position >= 0
      modifies this
      ensures Valid()
      ensures selectedBookIndex == position
      ensures bookList == old(bookList) && searchText == old(searchText)
      ensures position < |bookList| ==> FormShows(bookList[position]) && outcome == Done
      ensures position >= |bookList| ==>
        outcome == IndexOutOfBounds(position, |bookList|)
        && titleText == old(titleText) && authorText == old(authorText) && genreText == old(genreText)
    {
      selectedBookIndex := position;
      if position >= |bookList| {
        return IndexOutOfBounds(position, |bookList|);
      }
      LoadBookDetails(bookList[position]);
      outcome := Done;
    }

    /** addBook: appends the trimmed form as a new book and clears the form,
        or, when a trimmed field is empty, only shows a message. */
    method AddBook() returns (outcome: Outcome)
      requires Valid()
      modifies this
      ensures Valid()
      ensures selectedBookIndex == old(selectedBookIndex) && searchText == old(searchText)
      ensures var b := old(FormBook());
        if Filled(b) then
          bookList == old(bookList) + [b] && FormCleared() && outcome == Done
        else
          bookList == old(bookList) && outcome == Toast(FillAllFields)
          && titleText == old(titleText) && authorText == old(authorText) && genreText == old(genreText)
    {
      var title := Trim(titleText);
      var author := Trim(authorText);
      var genre := Trim(genreText);
      if title != [] && author != [] && genre != [] {
        var book := Book(title, author, genre);
        bookList := bookList + [book];
        ClearFields();
        outcome := Done;
      } else {
        outcome := Toast(FillAllFields);
      }
    }

    /** editBook: with a selection and a filled form, replaces the selected
        book by the trimmed form and shows it; without a selection it does
        nothing at all. */
    method EditBook() returns (outcome: Outcome)
      requires Valid()
      modifies this
      ensures Valid()
      ensures selectedBookIndex == old(selectedBookIndex) && searchText == old(searchText)
      ensures var b := old(FormBook());
        if selectedBookIndex == -1 then
          outcome == Done && unchanged(this)
        else if !Filled(b) then
          outcome == Toast(FillAllFields) && unchanged(this)
        else if selectedBookIndex >= |old(bookList)| then
          outcome == IndexOutOfBounds(selectedBookIndex, |old(bookList)|) && unchanged(this)
        else
          outcome == Done
          && |bookList| == |old(bookList)|
          && bookList[selectedBookIndex] == b
          && (forall j :: 0 <= j < |bookList| && j != selectedBookIndex ==> bookList[j] == old(bookList)[j])
          && FormShows(b)
    {
      if selectedBookIndex != -1 {
        var title := Trim(titleText);
        var author := Trim(authorText);
        var genre := Trim(genreText);
        if title != [] && author != [] && genre != [] {
          var book := Book(title, author, genre);
          if selectedBookIndex >= |bookList| {
            return IndexOutOfBounds(selectedBookIndex, |bookList|);
          }
          bookList := bookList[selectedBookIndex := book];
          ClearFields();
          LoadBookDetails(book);
          outcome := Done;
        } else {
          outcome := Toast(FillAllFields);
        }
      } else {
        outcome := Done;
      }
    }

    /** deleteBook: removes the selected book and clears the form. The
        selection is left as it was, so it may now name another book or lie
        past the end of the list. */
    method DeleteBook() returns (outcome: Outcome)
      requires Valid()
      modifies this
      ensures Valid()
      ensures selectedBookIndex == old(selectedBookIndex) && searchText == old(searchText)
      ensures
        if selectedBookIndex == -1 then
          outcome == Done && unchanged(this)
        else if selectedBookIndex >= |old(bookList)| then
          outcome == IndexOutOfBounds(selectedBookIndex, |old(bookList)|) && unchanged(this)
        else
          outcome == Done && FormCleared()
          && bookList == old(bookList)[..selectedBookIndex] + old(bookList)[selectedBookIndex + 1..]
    {
      outcome := Done;
      if selectedBookIndex != -1 {
        if selectedBookIndex >= |bookList| {
          return IndexOutOfBounds(selectedBookIndex, |bookList|);
        }
        bookList := bookList[..selectedBookIndex] + bookList[selectedBookIndex + 1..];
        ClearFields();
      }
    }

    /** searchBooks: the books matching the lower-cased, untrimmed search
        text, in list order. The first of them becomes the selection and is
        shown; when there is none the form is cleared and the selection kept. */
    method SearchBooks() returns (results: seq<Book>)
      requires Valid()
      modifies this
      ensures Valid()
      ensures bookList == old(bookList) && searchText == old(searchText)
      ensures results == Filter(bookList, Lower(searchText))
      ensures forall b :: b in results <==> b in bookList && Matches(b, Lower(searchText))
      ensures results != [] ==>
        0 <= selectedBookIndex < |bookList|
        && results[0] == bookList[selectedBookIndex]
        && Matches(bookList[selectedBookIndex], Lower(searchText))
        && (forall j :: 0 <= j < selectedBookIndex ==> !Matches(bookList[j], Lower(searchText)))
        && FormShows(bookList[selectedBookIndex])
      ensures results == [] ==>
        selectedBookIndex == old(selectedBookIndex) && FormCleared()
        && forall i :: 0 <= i < |bookList| ==> !Matches(bookList[i], Lower(searchText))
    {
      var query := Lower(searchText);
      results := Filter(bookList, query);
      forall b ensures b in results <==> b in bookList && Matches(b, query) {
        FilterMembership(bookList, query, b);
      }
      if results != [] {
        FirstResultIndex(bookList, query);
        selectedBookIndex := IndexOf(bookList, results[0]);
        LoadBookDetails(results[0]);
      } else {
        FilterEmptyIff(bookList, query);
        ClearFields();
      }
    }

    /** sortBooks: options 0, 1 and 2 reorder the list by title, author or
        genre; any other option leaves it as it is. Neither the selection nor
        the form is touched. */
    method SortBooks(sortOption: int)
      requires Valid()
      modifies this
      ensures Valid()
      ensures selectedBookIndex == old(selectedBookIndex) && searchText == old(searchText)
      ensures titleText == old(titleText) && authorText == old(authorText) && genreText == old(genreText)
      ensures multiset(bookList) == multiset(old(bookList))
      ensures 0 <= sortOption <= 2 ==>
        var f := SortField(sortOption);
        bookList == SortBy(old(bookList), f)
        && SortedBy(bookList, f)
        && forall k :: WithKey(bookList, f, k) == WithKey(old(bookList), f, k)
      ensures !(0 <= sortOption <= 2) ==> bookList == old(bookList)
    {
      if 0 <= sortOption <= 2 {
        var f := SortField(sortOption);
        ghost var before := bookList;
        bookList := SortBy(bookList, f);
        SortByPermutes(before, f);
        SortBySorted(before, f);
        forall k ensures WithKey(bookList, f, k) == WithKey(before, f, k) {
          SortByStable(before, f, k);
        }
      }
    }
  }

  /** A fresh screen on which the given form has been added as a book. */
  method ScreenWithOneBook(title: string, author: string, genre: string)
    returns (screen: MainActivity)
    requires !AllWhitespace(title) && !AllWhitespace(author) && !AllWhitespace(genre)
    ensures fresh(screen) && screen.Valid()
    ensures screen.bookList == [Book(Trim(title), Trim(author), Trim(genre))]
    ensures screen.selectedBookIndex == -1
  {
    screen := new MainActivity();
    screen.titleText, screen.authorText, screen.genreText := title, author, genre;
    assert screen.FormBook() == Book(Trim(title), Trim(author), Trim(genre));
    FilledIff(title, author, genre);
    var outcome := screen.AddBook();
  }

  /** A book added to an empty screen is found again by searching for its
      stored title in any letter case: it is the only result, it becomes the
      selection and the form shows it. */
  method AddThenSearch(title: string, author: string, genre: string, query: string)
    returns (results: seq<Book>, selected: int)
    requires !AllWhitespace(title) && !AllWhitespace(author) && !AllWhitespace(genre)
    requires Lower(query) == Lower(Trim(title))
    ensures results == [Book(Trim(title), Trim(author), Trim(genre))]
    ensures selected == 0
  {
    var screen := ScreenWithOneBook(title, author, genre);
    var b := Book(Trim(title), Trim(author), Trim(genre));
    screen.searchText := query;
    assert Lower(b.title)[..|Lower(query)|] == Lower(query);
    FilterSingleton(b, Lower(query));
    results := screen.SearchBooks();
    selected := screen.selectedBookIndex;
  }

  /** Deleting the only book keeps the selection at 0, so a second delete
      reads past the end of the now empty list. */
  method DeleteTwice(title: string, author: string, genre: string)
    returns (first: Outcome, second: Outcome)
    requires !AllWhitespace(title) && !AllWhitespace(author) && !AllWhitespace(genre)
    ensures first == Done
    ensures second == IndexOutOfBounds(0, 0)
  {
    var screen := ScreenWithOneBook(title, author, genre);
    var outcome := screen.OnItemSelected(0);
    first := screen.DeleteBook();
    second := screen.DeleteBook();
  }
}
