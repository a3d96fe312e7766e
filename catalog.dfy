/**
 * The book records and the pure parts of the screen's logic: the search
 * predicate and filter, the list's indexOf, and the stable sort by one field.
 */
module Catalog {
  import opened Text

  /** A record as the screen stores it: three strings, compared structurally. */
  datatype Book = Book(title: string, author: string, genre: string)

  /** The field a sort orders by: option 0, 1 and 2 of the sort selector. */
  datatype Field = Title | Author | Genre

  function Key(b: Book, f: Field): string {
    match f
    case Title => b.title
    case Author => b.author
    case Genre => b.genre
  }

  // ---------------------------------------------------------------------------
  // Search

  /** A book matches a query (already lower-cased by the caller) when the
      lower-cased title, author or genre contains it. */
  predicate Matches(b: Book, query: string) {
    Contains(Lower(b.title), query) || Contains(Lower(b.author), query) || Contains(Lower(b.genre), query)
  }

  /** A book matches exactly when the query occurs at some position of one of
      its lower-cased fields. */
  lemma MatchesIff(b: Book, query: string)
    ensures Matches(b, query) <==> exists f: Field, i :: OccursAt(Lower(Key(b, f)), query, i)
  {
    ContainsIff(Lower(b.title), query);
    ContainsIff(Lower(b.author), query);
    ContainsIff(Lower(b.genre), query);
    if Matches(b, query) {
      if Contains(Lower(b.title), query) {
        var i :| OccursAt(Lower(b.title), query, i);
        assert OccursAt(Lower(Key(b, Title)), query, i);
      } else if Contains(Lower(b.author), query) {
        var i :| OccursAt(Lower(b.author), query, i);
        assert OccursAt(Lower(Key(b, Author)), query, i);
      } else {
        var i :| OccursAt(Lower(b.genre), query, i);
        assert OccursAt(Lower(Key(b, Genre)), query, i);
      }
    }
  }

  /** List.filter with the search predicate. */
  function Filter(books: seq<Book>, query: string): seq<Book>
  {
    if books == [] then []
    else (if Matches(books[0], query) then [books[0]] else []) + Filter(books[1..], query)
  }

  /** Filtering a concatenation filters each part and keeps them in order:
      together with the one-element case this says the result is the
      order-preserving subsequence of the matching books. */
  lemma {:induction false} FilterAppend(a: seq<Book>, b: seq<Book>, query: string)
    ensures Filter(a + b, query) == Filter(a, query) + Filter(b, query)
  {
    if a == [] {
      assert a + b == b;
    } else {
      var head := if Matches(a[0], query) then [a[0]] else [];
      assert (a + b)[0] == a[0] && (a + b)[1..] == a[1..] + b;
      assert Filter(a + b, query) == head + Filter(a[1..] + b, query);
      FilterAppend(a[1..], b, query);
      assert Filter(a, query) == head + Filter(a[1..], query);
    }
  }

  /** A one-element list is kept exactly when its book matches. */
  lemma FilterSingleton(b: Book, query: string)
    ensures Filter([b], query) == if Matches(b, query) then [b] else []
  {
    assert [b][1..] == [];
  }

  /** A book is among the results exactly when it is in the list and matches. */
  lemma {:induction false} FilterMembership(books: seq<Book>, query: string, b: Book)
    ensures b in Filter(books, query) <==> b in books && Matches(b, query)
  {
    if books != [] {
      FilterMembership(books[1..], query, b);
      assert books == [books[0]] + books[1..];
    }
  }

  /** The search finds nothing exactly when no book of the list matches. */
  lemma {:induction false} FilterEmptyIff(books: seq<Book>, query: string)
    ensures Filter(books, query) == [] <==> forall i :: 0 <= i < |books| ==> !Matches(books[i], query)
  {
    if books != [] {
      FilterEmptyIff(books[1..], query);
      assert forall i :: 1 <= i < |books| ==> books[i] == books[1..][i - 1];
    }
  }

  /** List.indexOf: the position of the first element equal to x, or -1. */
  function IndexOf(s: seq<Book>, x: Book): (r: int)
    ensures -1 <= r < |s|
    ensures r == -1 <==> x !in s
    ensures r >= 0 ==> s[r] == x && forall j :: 0 <= j < r ==> s[j] != x
  {
    if s == [] then -1
    else if s[0] == x then 0
    else
      var j := IndexOf(s[1..], x);
      if j == -1 then -1 else j + 1
  }

  /** The position that indexOf finds for the first search result is the
      position of the first matching book, and the results are that book
      followed by the results from the rest of the list. */
  lemma {:induction false} FirstResultIndex(books: seq<Book>, query: string)
    requires Filter(books, query) != []
    ensures var i := IndexOf(books, Filter(books, query)[0]);
      0 <= i < |books| && books[i] == Filter(books, query)[0]
      && Matches(books[i], query)
      && (forall j :: 0 <= j < i ==> !Matches(books[j], query))
      && Filter(books, query) == [books[i]] + Filter(books[i + 1..], query)
  {
    var r := Filter(books, query);
    if Matches(books[0], query) {
      assert r[0] == books[0];
    } else {
      assert r == Filter(books[1..], query);
      FirstResultIndex(books[1..], query);
      var i' := IndexOf(books[1..], r[0]);
      assert books[0] != r[0];
      assert IndexOf(books, r[0]) == i' + 1;
      assert books[1..][i' + 1..] == books[i' + 2..];
      forall j | 0 <= j < i' + 1 ensures !Matches(books[j], query) {
        if j > 0 {
          assert books[j] == books[1..][j - 1];
        }
      }
    }
  }

  // ---------------------------------------------------------------------------
  // Sorting

  /** The comparator of sortBy: the chosen field's String.compareTo. */
  predicate KeyLe(a: Book, b: Book, f: Field) {
    CompareTo(Key(a, f), Key(b, f)) <= 0
  }

  predicate SortedBy(s: seq<Book>, f: Field) {
    forall i, j :: 0 <= i < j < |s| ==> KeyLe(s[i], s[j], f)
  }

  /** The books whose key in field f is k, in list order. */
  function WithKey(s: seq<Book>, f: Field, k: string): seq<Book> {
    if s == [] then []
    else (if Key(s[0], f) == k then [s[0]] else []) + WithKey(s[1..], f, k)
  }

  /** Places x before the first book whose key is not smaller than its own. */
  function Insert(x: Book, s: seq<Book>, f: Field): seq<Book> {
    if s == [] then [x]
    else if KeyLe(x, s[0], f) then [x] + s
    else [s[0]] + Insert(x, s[1..], f)
  }

  /** MutableList.sortBy on field f: a stable insertion sort. */
  function SortBy(s: seq<Book>, f: Field): seq<Book> {
    if s == [] then [] else Insert(s[0], SortBy(s[1..], f), f)
  }

  lemma {:induction false} InsertPermutes(x: Book, s: seq<Book>, f: Field)
    ensures multiset(Insert(x, s, f)) == multiset(s) + multiset{x}
  {
    if s != [] && !KeyLe(x, s[0], f) {
      InsertPermutes(x, s[1..], f);
      assert multiset(Insert(x, s, f)) == multiset{s[0]} + multiset(Insert(x, s[1..], f));
      assert s == [s[0]] + s[1..];
      assert multiset(s) == multiset{s[0]} + multiset(s[1..]);
    }
  }

  lemma WithKeyCons(x: Book, s: seq<Book>, f: Field, k: string)
    ensures WithKey([x] + s, f, k) == (if Key(x, f) == k then [x] else []) + WithKey(s, f, k)
  {
    assert ([x] + s)[1..] == s;
  }

  /** A book placed in front of a sorted list whose keys are all at least its
      own gives a sorted list. */
  lemma ConsSorted(x: Book, s: seq<Book>, f: Field)
    requires SortedBy(s, f)
    requires forall j :: 0 <= j < |s| ==> KeyLe(x, s[j], f)
    ensures SortedBy([x] + s, f)
  {
    var r := [x] + s;
    forall i, j | 0 <= i < j < |r| ensures KeyLe(r[i], r[j], f) {
      assert r[j] == s[j - 1];
      if i > 0 {
        assert r[i] == s[i - 1];
      }
    }
  }

  lemma {:induction false} InsertSorted(x: Book, s: seq<Book>, f: Field)
    requires SortedBy(s, f)
    ensures SortedBy(Insert(x, s, f), f)
  {
    if s == [] {
    } else if KeyLe(x, s[0], f) {
      forall j | 0 <= j < |s| ensures KeyLe(x, s[j], f) {
        if j > 0 {
          CompareToTransitive(Key(x, f), Key(s[0], f), Key(s[j], f));
        }
      }
      ConsSorted(x, s, f);
    } else {
      var t := s[1..];
      assert SortedBy(t, f);
      InsertSorted(x, t, f);
      InsertPermutes(x, t, f);
      CompareToAntisymmetric(Key(x, f), Key(s[0], f));
      var r := Insert(x, t, f);
      forall j | 0 <= j < |r| ensures KeyLe(s[0], r[j], f) {
        assert r[j] in multiset(r);
        if r[j] != x {
          assert r[j] in multiset(t);
          var m :| 0 <= m < |t| && t[m] == r[j];
          assert s[m + 1] == r[j];
        }
      }
      ConsSorted(s[0], r, f);
    }
  }

  /** Inserting x where Insert puts it keeps the order among the books of
      each key: x comes before every book with the same key. */
  lemma {:induction false} InsertStable(x: Book, s: seq<Book>, f: Field, k: string)
    ensures WithKey(Insert(x, s, f), f, k) == (if Key(x, f) == k then [x] else []) + WithKey(s, f, k)
  {
    if s == [] {
      WithKeyCons(x, [], f, k);
    } else if KeyLe(x, s[0], f) {
      WithKeyCons(x, s, f, k);
    } else {
      var t := s[1..];
      var r := Insert(x, t, f);
      assert Insert(x, s, f) == [s[0]] + r;
      assert s == [s[0]] + t;
      InsertStable(x, t, f, k);
      WithKeyCons(s[0], r, f, k);
      WithKeyCons(s[0], t, f, k);
      CompareToZeroIff(Key(x, f), Key(s[0], f));
      if Key(x, f) == k {
        assert Key(s[0], f) != k;
        assert WithKey(Insert(x, s, f), f, k) == WithKey(r, f, k) == [x] + WithKey(t, f, k);
        assert WithKey(s, f, k) == WithKey(t, f, k);
      } else if Key(s[0], f) == k {
        assert WithKey(Insert(x, s, f), f, k) == [s[0]] + WithKey(r, f, k) == [s[0]] + WithKey(t, f, k);
      } else {
        assert WithKey(Insert(x, s, f), f, k) == WithKey(r, f, k) == WithKey(t, f, k);
      }
    }
  }

  /** Sorting rearranges the list: the same books, each as often as before. */
  lemma {:induction false} SortByPermutes(s: seq<Book>, f: Field)
    ensures multiset(SortBy(s, f)) == multiset(s)
  {
    if s != [] {
      SortByPermutes(s[1..], f);
      InsertPermutes(s[0], SortBy(s[1..], f), f);
      assert s == [s[0]] + s[1..];
    }
  }

  /** The sorted list is ascending in the chosen field. */
  lemma {:induction false} SortBySorted(s: seq<Book>, f: Field)
    ensures SortedBy(SortBy(s, f), f)
  {
    if s != [] {
      SortBySorted(s[1..], f);
      InsertSorted(s[0], SortBy(s[1..], f), f);
    }
  }

  /** The sort is stable: the books sharing a key keep their relative order. */
  lemma {:induction false} SortByStable(s: seq<Book>, f: Field, k: string)
    ensures WithKey(SortBy(s, f), f, k) == WithKey(s, f, k)
  {
    if s != [] {
      SortByStable(s[1..], f, k);
      InsertStable(s[0], SortBy(s[1..], f), f, k);
    }
  }

  /** A book is among those with key k exactly when it is in the list and its
      key is k. */
  lemma {:induction false} WithKeyMembership(s: seq<Book>, f: Field, k: string, x: Book)
    ensures x in WithKey(s, f, k) <==> x in s && Key(x, f) == k
  {
    if s != [] {
      WithKeyMembership(s[1..], f, k, x);
      assert s == [s[0]] + s[1..];
    }
  }

  lemma {:induction false} SortedHeadIsLeast(s: seq<Book>, f: Field, x: Book)
    requires SortedBy(s, f) && x in s
    ensures KeyLe(s[0], x, f)
  {
    var j :| 0 <= j < |s| && s[j] == x;
    if j == 0 {
      CompareToZeroIff(Key(x, f), Key(x, f));
    }
  }

  lemma WithKeyHead(s: seq<Book>, f: Field)
    requires s != []
    ensures WithKey(s, f, Key(s[0], f)) != [] && WithKey(s, f, Key(s[0], f))[0] == s[0]
  {
  }

  /** Two sorted lists that agree on the books of every key start with the
      same book: both start with the first book of the least key. */
  lemma SameHead(r: seq<Book>, t: seq<Book>, f: Field)
    requires r != [] && t != []
    requires SortedBy(r, f) && SortedBy(t, f)
    requires forall k :: WithKey(r, f, k) == WithKey(t, f, k)
    ensures r[0] == t[0]
  {
    var k0, k1 := Key(r[0], f), Key(t[0], f);
    assert r[0] in t by {
      WithKeyMembership(r, f, k0, r[0]);
      WithKeyMembership(t, f, k0, r[0]);
      assert WithKey(r, f, k0) == WithKey(t, f, k0);
    }
    assert t[0] in r by {
      WithKeyMembership(t, f, k1, t[0]);
      WithKeyMembership(r, f, k1, t[0]);
      assert WithKey(r, f, k1) == WithKey(t, f, k1);
    }
    SortedHeadIsLeast(t, f, r[0]);
    SortedHeadIsLeast(r, f, t[0]);
    assert k0 == k1 by {
      CompareToAntisymmetric(k0, k1);
      CompareToZeroIff(k0, k1);
    }
    WithKeyHead(r, f);
    WithKeyHead(t, f);
    assert WithKey(r, f, k0) == WithKey(t, f, k0);
  }

  /** Dropping one same first book keeps the books of every key in agreement. */
  lemma SameTails(r: seq<Book>, t: seq<Book>, f: Field)
    requires r != [] && t != [] && r[0] == t[0]
    requires forall k :: WithKey(r, f, k) == WithKey(t, f, k)
    ensures forall k :: WithKey(r[1..], f, k) == WithKey(t[1..], f, k)
  {
    forall k ensures WithKey(r[1..], f, k) == WithKey(t[1..], f, k) {
      var n := if Key(r[0], f) == k then 1 else 0;
      assert WithKey(r[1..], f, k) == WithKey(r, f, k)[n..];
      assert WithKey(t[1..], f, k) == WithKey(t, f, k)[n..];
    }
  }

  /** Two lists sorted by f that agree on the books of every key are equal:
      a stable sort has only one possible result. */
  lemma {:induction false} SortedStableUnique(r: seq<Book>, t: seq<Book>, f: Field)
    requires SortedBy(r, f) && SortedBy(t, f)
    requires forall k :: WithKey(r, f, k) == WithKey(t, f, k)
    ensures r == t
    decreases |r|
  {
    if r == [] && t == [] {
    } else if r == [] {
      WithKeyMembership(t, f, Key(t[0], f), t[0]);
      assert false;
    } else if t == [] {
      WithKeyMembership(r, f, Key(r[0], f), r[0]);
      assert false;
    } else {
      SameHead(r, t, f);
      SameTails(r, t, f);
      assert SortedBy(r[1..], f) && SortedBy(t[1..], f);
      SortedStableUnique(r[1..], t[1..], f);
      assert r == [r[0]] + r[1..] && t == [t[0]] + t[1..];
    }
  }

  /** Any stable sort of s by f, such as the library's merge sort, yields
      SortBy(s, f). */
  lemma StableSortIsSortBy(s: seq<Book>, r: seq<Book>, f: Field)
    requires SortedBy(r, f)
    requires forall k :: WithKey(r, f, k) == WithKey(s, f, k)
    ensures r == SortBy(s, f)
  {
    SortBySorted(s, f);
    forall k ensures WithKey(SortBy(s, f), f, k) == WithKey(r, f, k) {
      SortByStable(s, f, k);
    }
    SortedStableUnique(SortBy(s, f), r, f);
  }
}
