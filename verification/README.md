# Book recommendation core in Dafny

This project models the core of a small command-line book recommender. Users
add books to a catalog, rate them, search titles by prefix, and get genre-based
recommendations. The model covers three parts:

- **The title index** (`trie.dfy`, module `TitleTrie`). This is a character
  trie over lower-cased titles. A node is `Node(children: map<char, Trie>,
  isEnd: bool)`, and the titles it holds are its terminal paths (`Has`).
  Insertion walks the folded title and creates missing children. Search folds
  the prefix and walks it. It returns nothing as soon as a character is
  missing. Otherwise it collects every terminal path below the node reached.
  Each hit is reported as the prefix *as the caller typed it*, followed by the
  rest of the folded title.
- **The in-memory state** (`catalog.dfy`, module `Catalog`). A `Library` holds
  the catalog (`seq<Book>` in insertion order), the two-level ratings map
  (user → title → rating), and the index. It offers opening from loaded data,
  adding a book, rating a book, and resolving search hits back to catalog books
  by case-insensitive title. The invariant `Consistent` says two things:
  - the index holds exactly the lower-cased catalog titles;
  - the index has no dead branches.

  Every operation establishes or keeps this invariant.
- **Recommendation** (`recommend.dfy`, module `Recommend`). The result is one
  of three distinct outcomes: "no ratings" (the user has no entry), "no
  recommendations", or a non-empty list. The list holds the catalog books
  whose genre is the genre of some book with a rated title, and whose own
  title is unrated. Titles are compared exactly here, with case mattering. The
  list keeps catalog order.

Supporting modules:
- `chars.dfy` (`Chars`): ASCII case folding.
- `seqs.dfy` (`Seqs`): prefix, duplicate-free and subsequence predicates.
- `charorder.dfy` (`CharOrder`): the ascending order in which a node's
  children are visited.
- `wrappers.dfy` (`Wrappers`): `Option`, and `Somes`, which keeps the present values of a sequence of options.

Behaviour of the code that a reader may not expect:
- **Search hits keep the caller's prefix.** A search returns the prefix exactly
  as the caller wrote it, followed by lower-case characters. It does not
  return a fully lower-cased string. So `search(p)` contains `lower(t)` itself
  only when `p` is already lower case. In general it contains a string that
  folds to `lower(t)` (`TitleTrie.SearchFinds`). Resolving a hit to a book
  compares folded titles, so the same books are shown either way.
- **An existing user with no ratings gets "no recommendations".** The
  "no ratings" outcome is decided by whether the user has an entry, not by
  whether the entry is empty. A user whose entry is an empty map therefore
  gets "no recommendations". That state cannot arise through `rate_book`, but
  loaded data can contain it.
- **Duplicate catalog entries are all recommended.** The recommendation
  filter keeps every catalog entry that qualifies, so a book listed twice is
  recommended twice (`Recommend.Unrated` counts copies).
- **Books with the same folded title share one hit.** Two books whose titles
  fold to the same string share one terminal path in the index, so a search
  reports one hit for both, and that hit resolves to the first of them in the
  catalog (`Catalog.FindByTitle`, `Catalog.SearchBooksComplete`).

## Model

| member | source | states |
|---|---|---|
| TitleTrie.InsertPath | bookrecommendation.py:32-37 | After inserting folded word w, the held titles are exactly the old ones plus w: nothing else is added, nothing is removed. |
| TitleTrie.Insert | bookrecommendation.py:31-37 | Inserting a title adds exactly its lower-cased form to the held titles. |
| TitleTrie.InsertPathIdempotent | bookrecommendation.py:33-37 | Inserting the same folded word twice yields the very same trie as inserting it once (no duplicate nodes). |
| TitleTrie.InsertIdempotent | bookrecommendation.py:31-37 | Inserting a title twice, or a title and then its upper-cased form, gives the same trie as one insertion. Inserting the upper-cased form alone does too. |
| TitleTrie.InsertPathCommutes | bookrecommendation.py:31-37 | Two insertions commute, so the index depends only on the set of folded titles, not on catalog order. |
| TitleTrie.InsertPathPruned | bookrecommendation.py:34-37 | Insertion creates nodes only along the inserted path and marks its end, so every node below the root stays on the path of some held title. |
| TitleTrie.Walk | bookrecommendation.py:40-44 | When the walk along w succeeds, the node reached holds exactly the continuations s for which w+s is held. |
| TitleTrie.WalkHolds | bookrecommendation.py:40-44 | The node reached by walking w holds exactly the continuations s for which w+s is held. If the walk fails, no held title starts with w. |
| TitleTrie.WalkFailsIffNoExtension | bookrecommendation.py:41-43 | In a pruned trie, walking a non-empty word fails exactly when no held title begins with it. |
| TitleTrie.Collect | bookrecommendation.py:47-53 | Collection from a node with accumulated string acc reports x exactly when x = acc + s and s is a terminal path below the node. |
| TitleTrie.CollectChildren | bookrecommendation.py:51-52 | Collecting below the children named by keys reports x exactly when x = acc + [k] + s for one of the keys k and a terminal path s below child k. |
| TitleTrie.CollectDistinct | bookrecommendation.py:47-53 | Collection never reports the same string twice. |
| TitleTrie.Search | bookrecommendation.py:39-53 | search(p) contains x exactly when x = p + s and lower(p) + s is a held title, and it reports each string at most once. |
| TitleTrie.SearchEmptyIff | bookrecommendation.py:41-45 | search(p) is empty exactly when no held title begins with lower(p). |
| TitleTrie.SearchFinds | bookrecommendation.py:39-53 | A held title starting with lower(p) is reported as p followed by the rest of the title, which folds to the title. For a lower-case p the title itself is reported. |
| TitleTrie.SearchSound | bookrecommendation.py:39-53 | Every hit begins with p and folds to a held title that begins with lower(p): nothing that was not inserted is returned. |
| TitleTrie.SearchAll | bookrecommendation.py:39-53 | The empty prefix reports every held title and nothing else. |
| Chars.LowerUpper | bookrecommendation.py:33 | Folding the upper-cased form of a string gives the same as folding the string. |
| Catalog.LoadBooksIntoTrie | bookrecommendation.py:61-63 | Loading the catalog into a trie adds exactly the lower-cased titles of all catalog books. |
| Catalog.Open | bookrecommendation.py:56-59 | Starting from loaded data keeps the catalog and ratings as loaded. The fresh index holds exactly the lower-cased catalog titles and has no dead branches. |
| Catalog.AddBook | bookrecommendation.py:65-68 | Adding appends exactly one record {title, author, genre} at the end and leaves earlier records and the ratings unchanged. The index gains exactly the folded title, and consistency is kept. |
| Catalog.AppendKeepsConsistent | bookrecommendation.py:65-68 | Appending a book and inserting its title together keep the index equal to the catalog's lower-cased titles. |
| Catalog.AddBookMatchesReload | bookrecommendation.py:61-68 | If the index is a rebuild of the catalog, then after an addition it still equals a rebuild of the grown catalog. |
| Catalog.AddBookSearchable | bookrecommendation.py:65-68 | After add_book(t, a, g), searching with the empty prefix returns lower(t). |
| Catalog.RateBook | bookrecommendation.py:79-82 | Afterwards ratings[u][t] = r, and u's entry is created if absent. Every other (user, title) rating is unchanged, and the catalog and index are untouched. |
| Catalog.FindByTitle | bookrecommendation.py:105 | Returns none exactly when no catalog title equals the hit ignoring case. Otherwise returns the first catalog book whose folded title equals the folded hit. |
| Catalog.ResolveHits | bookrecommendation.py:104-107 | The shown books are exactly the resolutions of the hits that resolve. When every hit resolves there is one book per hit, in hit order. |
| Catalog.SearchBooks | bookrecommendation.py:99-107 | "No books found" exactly when no held title begins with lower(p). Otherwise every shown book is a catalog book whose title equals some hit, ignoring case. |
| Catalog.HitResolves | bookrecommendation.py:100-107 | On a consistent state every hit resolves to a catalog book whose title begins with the prefix, ignoring case. |
| Catalog.SearchBooksNoneIff | bookrecommendation.py:99-102 | On a consistent state, "no books found" happens exactly when no catalog title begins with the prefix, ignoring case. |
| Catalog.SearchBooksSound | bookrecommendation.py:99-107 | On a consistent state there is one shown book per hit, each a catalog book whose title begins with the prefix, ignoring case. |
| Catalog.SearchBooksComplete | bookrecommendation.py:99-107 | On a consistent state every catalog book whose title begins with the prefix is shown, or another book with the same folded title is. |
| Catalog.ExampleIndex | bookrecommendation.py:56-63 | Opening a catalog of "Dune", "Dune Messiah" and "Emma" gives an index holding exactly "dune", "dune messiah" and "emma". |
| Catalog.ScenarioSearch | bookrecommendation.py:39-53 | On an index holding exactly "dune", "dune messiah" and "emma": search("du") gives {"dune", "dune messiah"}, search("e") gives {"emma"}, and search("z") gives nothing. |
| Recommend.RatedGenres | bookrecommendation.py:90-91 | g is among the collected genres exactly when some catalog book with a rated title has genre g. |
| Recommend.Unrated | bookrecommendation.py:92 | Keeps exactly the catalog books in a collected genre with an unrated title, as an order-preserving subsequence of the catalog, with every copy of such a book kept and no copy of any other. |
| Recommend.GetRecommendations | bookrecommendation.py:86-94 | Gives "no ratings" exactly for a user absent from the ratings, and "no recommendations" exactly when the user is present but no catalog book qualifies. Otherwise gives a non-empty order-preserving subsequence of the catalog. It holds exactly the books that are unrated and share a genre with a book whose title is rated, each as many times as it appears in the catalog. |
| Recommend.RecommendationExcludesRated | bookrecommendation.py:90-92 | No recommended book's title is a rated key. Each recommended book's genre equals that of a catalog book whose title is rated. |
| Recommend.ScenarioDune | bookrecommendation.py:79-97 | With catalog Dune/Foundation (SciFi) and Emma (Romance), after alice rates "Dune": alice is recommended exactly [Foundation], and bob gets "no ratings". |
| Recommend.DuneRecommendations | bookrecommendation.py:86-94 | On any state with the Dune/Foundation/Emma catalog in which only alice has rated, and only "Dune", alice is recommended exactly [Foundation] and bob gets "no ratings". |
| Recommend.RatedBookNotRecommended | bookrecommendation.py:79-92 | After a user rates a title, the user never gets "no ratings", and no book with that title is recommended to them. |

## Left out

- Reading and writing the JSON data file, and creating its directory (bookrecommendation.py:5-20). `Open` receives the loaded catalog and ratings as parameters. The save after each change has no counterpart, since it does not affect the in-memory state.
- All printed output, including `view_books` (bookrecommendation.py:72-77), which only prints the catalog. Operations return values or outcome tags instead.
- The interactive menu loop, `input()` and `int()` parsing, and the book-number range check (bookrecommendation.py:110-159).
- Full Unicode `str.lower()`. Folding is ASCII-only: A-Z become a-z and all other characters are kept. Under Python's rules a few characters change length when lower-cased; that is not modelled.
- The dictionary iteration order of trie children. Children are visited in ascending character order, so the order of hits within one search may differ from the source. The set of hits is the same, and no hit is repeated.
