/** Genre-based recommendation (bookrecommendation.py,
    BookRecommendationSystem.get_recommendations).

    The titles a user has rated are the keys of the user's rating map, matched
    against catalog titles exactly (case matters, unlike the title index). The
    genres of the catalog books with a rated title are collected, and every
    catalog book in one of those genres whose title is unrated is recommended,
    in catalog order.
 */
module Recommend {
  import opened Seqs
  import opened Catalog

  datatype Recommendation =
    | NoRatings                        // the user has no entry in the ratings
    | NoRecommendations                // the user has an entry but nothing qualifies
    | Recommended(books: seq<Book>)    // non-empty, in catalog order

  /** The genres of the catalog books whose title is rated, in catalog order. */
  function RatedGenres(books: seq<Book>, rated: set<string>): (r: seq<string>)
    ensures forall g :: g in r <==> exists i :: 0 <= i < |books| && books[i].title in rated && books[i].genre == g
    decreases |books|
  {
    if books == [] then []
    else
      var rest := RatedGenres(books[1..], rated);
      assert forall i :: 1 <= i < |books| ==> books[i] == books[1..][i - 1];
      (if books[0].title in rated then [books[0].genre] else []) + rest
  }

  /** The catalog books in one of the genres and with an unrated title, in
      catalog order. */
  function Unrated(books: seq<Book>, rated: set<string>, genres: seq<string>): (r: seq<Book>)
    ensures forall b :: b in r <==> b in books && b.genre in genres && b.title !in rated
    ensures forall b :: multiset(r)[b] == (if b.genre in genres && b.title !in rated then multiset(books)[b] else 0)
    ensures IsSubsequence(r, books)
    decreases |books|
  {
    if books == [] then []
    else
      var rest := Unrated(books[1..], rated, genres);
      assert books == [books[0]] + books[1..];
      if books[0].genre in genres && books[0].title !in rated then
        var r := [books[0]] + rest;
        assert r[1..] == rest;
        r
      else
        rest
  }

  /** b shares its genre with a catalog book whose title is rated, and its
      own title is not rated. */
  ghost predicate Qualifies(books: seq<Book>, rated: set<string>, b: Book)
  {
    && b.title !in rated
    && exists j :: 0 <= j < |books| && books[j].title in rated && books[j].genre == b.genre
  }

  /** The recommendation for a user, with the two "nothing to show" outcomes
      kept apart. */
  function GetRecommendations(lib: Library, user: string): (r: Recommendation)
    ensures r == NoRatings <==> user !in lib.ratings
    ensures r == NoRecommendations <==>
      user in lib.ratings && forall b :: b in lib.books ==> !Qualifies(lib.books, lib.ratings[user].Keys, b)
    ensures r.Recommended? ==> r.books != [] && IsSubsequence(r.books, lib.books)
    ensures r.Recommended? ==> forall b :: b in r.books <==>
      b in lib.books && Qualifies(lib.books, lib.ratings[user].Keys, b)
    ensures r.Recommended? ==> forall b ::
      multiset(r.books)[b] == (if Qualifies(lib.books, lib.ratings[user].Keys, b) then multiset(lib.books)[b] else 0)
  {
    if user !in lib.ratings then NoRatings
    else
      var rated := lib.ratings[user].Keys;
      var genres := RatedGenres(lib.books, rated);
      var picks := Unrated(lib.books, rated, genres);
      if picks == [] then NoRecommendations
      else
        assert picks[0] in lib.books && Qualifies(lib.books, rated, picks[0]);
        Recommended(picks)
  }

  /** A recommended book is never one the user has rated, and always shares
      its genre with a book the user has rated. */
  lemma RecommendationExcludesRated(lib: Library, user: string, b: Book)
    requires GetRecommendations(lib, user).Recommended?
    requires b in GetRecommendations(lib, user).books
    ensures user in lib.ratings && b.title !in lib.ratings[user]
    ensures b in lib.books
    ensures exists j :: 0 <= j < |lib.books| && lib.books[j].title in lib.ratings[user] && lib.books[j].genre == b.genre
  {
  }

  /** Rating a book never makes that book a recommendation for the same
      user. */
  lemma RatedBookNotRecommended(lib: Library, user: string, title: string, rating: int, b: Book)
    requires b.title == title
    ensures GetRecommendations(RateBook(lib, user, title, rating), user) != NoRatings
    ensures GetRecommendations(RateBook(lib, user, title, rating), user).Recommended? ==>
      b !in GetRecommendations(RateBook(lib, user, title, rating), user).books
  {
    var lib' := RateBook(lib, user, title, rating);
    assert title in lib'.ratings[user];
  }

  /** A worked example: a reader of one science-fiction title is offered the
      other science-fiction title and nothing else; a user who rated nothing
      gets the "no ratings" outcome. */
  lemma ScenarioDune()
    ensures var catalog := [Book("Dune", "Herbert", "SciFi"), Book("Foundation", "Asimov", "SciFi"),
                            Book("Emma", "Austen", "Romance")];
            var lib := RateBook(Open(catalog, map[]), "alice", "Dune", 5);
            && GetRecommendations(lib, "alice") == Recommended([Book("Foundation", "Asimov", "SciFi")])
            && GetRecommendations(lib, "bob") == NoRatings
  {
    var catalog := [Book("Dune", "Herbert", "SciFi"), Book("Foundation", "Asimov", "SciFi"),
                    Book("Emma", "Austen", "Romance")];
    var lib := RateBook(Open(catalog, map[]), "alice", "Dune", 5);
    assert lib.books == catalog;
    assert lib.ratings.Keys == {"alice"} && lib.ratings["alice"].Keys == {"Dune"};
    DuneRecommendations(lib);
  }

  /** The recommendations of the worked example, for any state with that
      catalog in which only "alice" has rated, and only "Dune". */
  lemma DuneRecommendations(lib: Library)
    requires lib.books == [Book("Dune", "Herbert", "SciFi"), Book("Foundation", "Asimov", "SciFi"),
                           Book("Emma", "Austen", "Romance")]
    requires lib.ratings.Keys == {"alice"} && lib.ratings["alice"].Keys == {"Dune"}
    ensures GetRecommendations(lib, "alice") == Recommended([Book("Foundation", "Asimov", "SciFi")])
    ensures GetRecommendations(lib, "bob") == NoRatings
  {
    var catalog := lib.books;
    // Unfold both filters one catalog entry at a time.
    assert catalog[1..][1..] == catalog[2..] && catalog[2..][1..] == [];
    assert RatedGenres(catalog[2..], {"Dune"}) == [];
    assert RatedGenres(catalog[1..], {"Dune"}) == [];
    assert RatedGenres(catalog, {"Dune"}) == ["SciFi"];
    assert Unrated(catalog[2..], {"Dune"}, ["SciFi"]) == [];
    assert Unrated(catalog[1..], {"Dune"}, ["SciFi"]) == [catalog[1]];
    assert Unrated(catalog, {"Dune"}, ["SciFi"]) == [catalog[1]];
  }
}
