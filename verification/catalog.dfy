/** The in-memory state of the recommendation system
    (bookrecommendation.py, class BookRecommendationSystem): the catalog of
    books in insertion order, the per-user ratings, and the title index built
    from the catalog.

    Loading and saving the state are outside this model: the loaded catalog
    and ratings are parameters of Open, and saving after a change has no
    counterpart here.
 */
module Catalog {
  import opened Chars
  import opened Seqs
  import opened Wrappers
  import opened TitleTrie

  datatype Book = Book(title: string, author: string, genre: string)

  /** user -> (title, exactly as rated -> rating) */
  type Ratings = map<string, map<string, int>>

  datatype Library = Library(books: seq<Book>, ratings: Ratings, index: Trie)

  /** Some catalog book's lower-cased title is w. */
  ghost predicate Titled(books: seq<Book>, w: string)
  {
    exists i :: 0 <= i < |books| && Lower(books[i].title) == w
  }

  /** The index holds exactly the lower-cased titles of the catalog and has no
      dead branches. */
  ghost predicate Consistent(lib: Library)
  {
    && Pruned(lib.index)
    && forall w :: Has(lib.index, w) <==> Titled(lib.books, w)
  }

  lemma TitledAppend(books: seq<Book>, b: Book, w: string)
    ensures Titled(books + [b], w) <==> Titled(books, w) || w == Lower(b.title)
  {
    if Titled(books, w) {
      var i :| 0 <= i < |books| && Lower(books[i].title) == w;
      assert (books + [b])[i] == books[i];
    }
    if w == Lower(b.title) {
      assert (books + [b])[|books|] == b;
    }
    if Titled(books + [b], w) {
      var i :| 0 <= i < |books + [b]| && Lower((books + [b])[i].title) == w;
      if i < |books| {
        assert (books + [b])[i] == books[i];
      }
    }
  }

  // ---------------------------------------------------------------------
  // Building the index
  // ---------------------------------------------------------------------

  /** Insert the title of every book, first to last, into t. */
  function LoadBooksIntoTrie(t: Trie, books: seq<Book>): (r: Trie)
    ensures forall w :: Has(r, w) <==> Has(t, w) || Titled(books, w)
    decreases |books|
  {
    if books == [] then t
    else
      var init := books[..|books| - 1];
      var last := books[|books| - 1];
      assert books == init + [last];
      assert forall w :: Titled(books, w) <==> Titled(init, w) || w == Lower(last.title) by {
        forall w
          ensures Titled(books, w) <==> Titled(init, w) || w == Lower(last.title)
        {
          TitledAppend(init, last, w);
        }
      }
      Insert(LoadBooksIntoTrie(t, init), last.title)
  }

  lemma {:induction false} LoadBooksIntoTriePruned(t: Trie, books: seq<Book>)
    requires Pruned(t)
    ensures Pruned(LoadBooksIntoTrie(t, books))
    decreases |books|
  {
    if books != [] {
      LoadBooksIntoTriePruned(t, books[..|books| - 1]);
      InsertPathPruned(LoadBooksIntoTrie(t, books[..|books| - 1]), Lower(books[|books| - 1].title));
    }
  }

  /** Start the system from loaded data: a fresh index receives every
      catalog title. */
  function Open(books: seq<Book>, ratings: Ratings): (r: Library)
    ensures r.books == books && r.ratings == ratings
    ensures Consistent(r)
  {
    LoadBooksIntoTriePruned(Empty, books);
    Library(books, ratings, LoadBooksIntoTrie(Empty, books))
  }

  /** Every title held by a consistent index is lower case. */
  lemma ConsistentIndexIsLower(lib: Library, w: string)
    requires Consistent(lib)
    requires Has(lib.index, w)
    ensures IsLower(w)
  {
    var i :| 0 <= i < |lib.books| && Lower(lib.books[i].title) == w;
    LowerIsLower(lib.books[i].title);
  }

  // ---------------------------------------------------------------------
  // Adding a book
  // ---------------------------------------------------------------------

  /** Append a book to the catalog and index its title. */
  function AddBook(lib: Library, title: string, author: string, genre: string): (r: Library)
    ensures |r.books| == |lib.books| + 1
    ensures r.books[..|lib.books|] == lib.books
    ensures r.books[|lib.books|] == Book(title, author, genre)
    ensures r.ratings == lib.ratings
    ensures forall w :: Has(r.index, w) <==> Has(lib.index, w) || w == Lower(title)
    ensures Consistent(lib) ==> Consistent(r)
  {
    var b := Book(title, author, genre);
    var r := Library(lib.books + [b], lib.ratings, Insert(lib.index, title));
    assert r.books[..|lib.books|] == lib.books;
    AppendKeepsConsistent(lib, b);
    r
  }

  /** Appending a book and indexing its title together keep the index in
      step with the catalog. */
  lemma AppendKeepsConsistent(lib: Library, b: Book)
    ensures Consistent(lib) ==>
      Consistent(Library(lib.books + [b], lib.ratings, Insert(lib.index, b.title)))
  {
    if Consistent(lib) {
      InsertPathPruned(lib.index, Lower(b.title));
      forall w
        ensures Has(Insert(lib.index, b.title), w) <==> Titled(lib.books + [b], w)
      {
        TitledAppend(lib.books, b, w);
      }
    }
  }

  /** Adding a book keeps the incrementally updated index equal to the one
      a reload of the catalog would build. */
  lemma AddBookMatchesReload(lib: Library, title: string, author: string, genre: string)
    requires lib.index == LoadBooksIntoTrie(Empty, lib.books)
    ensures AddBook(lib, title, author, genre).index
         == LoadBooksIntoTrie(Empty, AddBook(lib, title, author, genre).books)
  {
    var books' := lib.books + [Book(title, author, genre)];
    assert books'[..|books'| - 1] == lib.books;
  }

  /** After adding a book, searching with the empty prefix finds its
      lower-cased title. */
  lemma AddBookSearchable(lib: Library, title: string, author: string, genre: string)
    ensures Lower(title) in Search(AddBook(lib, title, author, genre).index, "")
  {
    SearchAll(AddBook(lib, title, author, genre).index, Lower(title));
  }

  // ---------------------------------------------------------------------
  // Rating a book
  // ---------------------------------------------------------------------

  /** The rating user gave to title, if any. */
  function RatingOf(ratings: Ratings, user: string, title: string): Option<int>
  {
    if user in ratings && title in ratings[user] then Some(ratings[user][title]) else None
  }

  /** Record (or overwrite) user's rating of title, creating the user's
      entry when it is missing. No range check is made on the rating. */
  function RateBook(lib: Library, user: string, title: string, rating: int): (r: Library)
    ensures RatingOf(r.ratings, user, title) == Some(rating)
    ensures forall u, t :: (u, t) != (user, title) ==>
      RatingOf(r.ratings, u, t) == RatingOf(lib.ratings, u, t)
    ensures r.ratings.Keys == lib.ratings.Keys + {user}
    ensures user in lib.ratings ==> r.ratings[user].Keys == lib.ratings[user].Keys + {title}
    ensures user !in lib.ratings ==> r.ratings[user].Keys == {title}
    ensures r.books == lib.books && r.index == lib.index
    ensures Consistent(lib) ==> Consistent(r)
  {
    var inner := if user in lib.ratings then lib.ratings[user] else map[];
    Library(lib.books, lib.ratings[user := inner[title := rating]], lib.index)
  }

  // ---------------------------------------------------------------------
  // Searching the catalog by title prefix
  // ---------------------------------------------------------------------

  /** The first catalog book whose title equals hit, ignoring case. */
  function FindByTitle(books: seq<Book>, hit: string): (r: Option<Book>)
    ensures r.None? <==> forall i :: 0 <= i < |books| ==> !EqualIgnoringCase(books[i].title, hit)
    ensures r.Some? ==> exists i :: 0 <= i < |books| && books[i] == r.value && FirstMatchAt(books, hit, i)
    decreases |books|
  {
    if books == [] then None
    else if EqualIgnoringCase(books[0].title, hit) then
      assert FirstMatchAt(books, hit, 0);
      Some(books[0])
    else
      var r := FindByTitle(books[1..], hit);
      assert forall i :: 1 <= i < |books| ==> books[i] == books[1..][i - 1];
      assert r.Some? ==> exists i :: 0 <= i < |books| && books[i] == r.value && FirstMatchAt(books, hit, i) by {
        if r.Some? {
          var i :| 0 <= i < |books[1..]| && books[1..][i] == r.value && FirstMatchAt(books[1..], hit, i);
          assert FirstMatchAt(books, hit, i + 1);
        }
      }
      r
  }

  /** books[i] is the first catalog book whose title equals hit, ignoring
      case. */
  ghost predicate FirstMatchAt(books: seq<Book>, hit: string, i: int)
  {
    && 0 <= i < |books|
    && EqualIgnoringCase(books[i].title, hit)
    && forall j :: 0 <= j < i ==> !EqualIgnoringCase(books[j].title, hit)
  }

  /** Resolve every search hit to its catalog book, dropping hits that match
      no book. */
  function ResolveHits(books: seq<Book>, hits: seq<string>): (r: seq<Book>)
    ensures |r| <= |hits|
    ensures forall b :: b in r <==> exists k :: 0 <= k < |hits| && FindByTitle(books, hits[k]) == Some(b)
    ensures (forall k :: 0 <= k < |hits| ==> FindByTitle(books, hits[k]).Some?) ==>
      |r| == |hits| && forall k :: 0 <= k < |hits| ==> Some(r[k]) == FindByTitle(books, hits[k])
  {
    var found := seq(|hits|, k requires 0 <= k < |hits| => FindByTitle(books, hits[k]));
    assert forall b :: Some(b) in found <==> exists k :: 0 <= k < |hits| && FindByTitle(books, hits[k]) == Some(b) by {
      forall b
        ensures Some(b) in found <==> exists k :: 0 <= k < |hits| && FindByTitle(books, hits[k]) == Some(b)
      {
        if Some(b) in found {
          var k :| 0 <= k < |found| && found[k] == Some(b);
        }
        if exists k :: 0 <= k < |hits| && FindByTitle(books, hits[k]) == Some(b) {
          var k :| 0 <= k < |hits| && FindByTitle(books, hits[k]) == Some(b);
          assert found[k] == Some(b);
        }
      }
    }
    Somes(found)
  }

  datatype SearchOutcome = NoBooksFound | Found(books: seq<Book>)

  /** Search the index with a prefix and show the catalog book behind each
      hit; an empty hit list is its own outcome. "No books found" comes
      exactly when no indexed title begins with the folded prefix, and every
      shown book is a catalog book whose title equals some hit, ignoring
      case. */
  function SearchBooks(lib: Library, prefix: string): (r: SearchOutcome)
    ensures r == NoBooksFound <==> !HasExtension(lib.index, Lower(prefix))
    ensures r.Found? ==> forall b :: b in r.books ==>
      b in lib.books && exists x :: x in Search(lib.index, prefix) && EqualIgnoringCase(b.title, x)
  {
    var hits := Search(lib.index, prefix);
    SearchEmptyIff(lib.index, prefix);
    if hits == [] then NoBooksFound else Found(ResolveHits(lib.books, hits))
  }

  /** On a consistent state, a hit always names a catalog book whose title
      begins with the prefix, ignoring case. */
  lemma HitResolves(lib: Library, prefix: string, x: string) returns (i: nat)
    requires Consistent(lib)
    requires x in Search(lib.index, prefix)
    ensures i < |lib.books| && EqualIgnoringCase(lib.books[i].title, x)
    ensures FindByTitle(lib.books, x).Some?
    ensures IsPrefix(Lower(prefix), Lower(FindByTitle(lib.books, x).value.title))
  {
    forall w | Has(lib.index, w)
      ensures IsLower(w)
    {
      ConsistentIndexIsLower(lib, w);
    }
    SearchSound(lib.index, prefix, x);
    i :| 0 <= i < |lib.books| && Lower(lib.books[i].title) == Lower(x);
  }

  /** "No books found" exactly when no catalog title begins with the prefix,
      ignoring case. */
  lemma SearchBooksNoneIff(lib: Library, prefix: string)
    requires Consistent(lib)
    ensures SearchBooks(lib, prefix) == NoBooksFound <==>
      forall i :: 0 <= i < |lib.books| ==> !IsPrefix(Lower(prefix), Lower(lib.books[i].title))
  {
    SearchEmptyIff(lib.index, prefix);
    if exists i :: 0 <= i < |lib.books| && IsPrefix(Lower(prefix), Lower(lib.books[i].title)) {
      var i :| 0 <= i < |lib.books| && IsPrefix(Lower(prefix), Lower(lib.books[i].title));
      assert Has(lib.index, Lower(lib.books[i].title));
    }
  }

  /** On a consistent state every hit resolves, in hit order, and every
      shown book's title begins with the prefix, ignoring case. */
  lemma SearchBooksSound(lib: Library, prefix: string)
    requires Consistent(lib)
    requires SearchBooks(lib, prefix).Found?
    ensures |SearchBooks(lib, prefix).books| == |Search(lib.index, prefix)|
    ensures forall b :: b in SearchBooks(lib, prefix).books ==>
      b in lib.books && IsPrefix(Lower(prefix), Lower(b.title))
  {
    var hits := Search(lib.index, prefix);
    forall k | 0 <= k < |hits|
      ensures FindByTitle(lib.books, hits[k]).Some?
      ensures IsPrefix(Lower(prefix), Lower(FindByTitle(lib.books, hits[k]).value.title))
    {
      var _ := HitResolves(lib, prefix, hits[k]);
    }
  }

  /** On a consistent state every catalog book whose title begins with the
      prefix is shown, or another book with the same title ignoring case is. */
  lemma SearchBooksComplete(lib: Library, prefix: string, i: nat)
    requires Consistent(lib)
    requires i < |lib.books|
    requires IsPrefix(Lower(prefix), Lower(lib.books[i].title))
    ensures SearchBooks(lib, prefix).Found? && exists b :: b in SearchBooks(lib, prefix).books && EqualIgnoringCase(b.title, lib.books[i].title)
  {
    var w := Lower(lib.books[i].title);
    LowerIsLower(lib.books[i].title);
    SearchFinds(lib.index, prefix, w);
    var x := prefix + w[|prefix|..];
    var b := FindByTitle(lib.books, x).value;
    assert b in ResolveHits(lib.books, Search(lib.index, prefix)) by {
      var k :| 0 <= k < |Search(lib.index, prefix)| && Search(lib.index, prefix)[k] == x;
    }
  }

  /** The three-book catalog of the worked search example. */
  function ExampleCatalog(): seq<Book>
  {
    [Book("Dune", "Herbert", "SciFi"), Book("Dune Messiah", "Herbert", "SciFi"), Book("Emma", "Austen", "Romance")]
  }

  /** The index opened on the example catalog holds its three folded
      titles, so ScenarioSearch applies to it. */
  lemma ExampleIndex(w: string)
    ensures Has(Open(ExampleCatalog(), map[]).index, w) <==> w == "dune" || w == "dune messiah" || w == "emma"
  {
    var catalog := ExampleCatalog();
    assert Lower(catalog[0].title) == "dune";
    assert Lower(catalog[1].title) == "dune messiah";
    assert Lower(catalog[2].title) == "emma";
  }

  /** A worked example of prefix search over an index holding "dune",
      "dune messiah" and "emma": the hits for "du", "e" and "z", as sets. */
  lemma ScenarioSearch(index: Trie, x: string)
    requires forall w :: Has(index, w) <==> w == "dune" || w == "dune messiah" || w == "emma"
    ensures x in Search(index, "du") <==> x == "dune" || x == "dune messiah"
    ensures x in Search(index, "e") <==> x == "emma"
    ensures Search(index, "z") == []
  {
    assert Lower("du") == "du" && Lower("e") == "e" && Lower("z") == "z";
    SearchEmptyIff(index, "z");
    if IsPrefix("du", x) {
      assert x == "du" + x[2..];
    }
    if IsPrefix("e", x) {
      assert x == "e" + x[1..];
    }
    forall w | Has(index, w)
      ensures !IsPrefix("z", w)
    {
    }
  }
}
