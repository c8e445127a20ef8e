# Movie recommender: feature composition, query flow and ranking

A Dafny model of the deterministic part of a content-based movie recommender
(a single Streamlit page, `app.py`). The app loads a catalog of movies. It
joins six metadata columns of every movie into one text blob and builds a
cosine-similarity matrix over the TF-IDF vectors of those blobs. When the
user presses "Get Recommendations", it does four things:

- It rejects an empty query.
- It fuzzy-matches the query against the catalog titles.
- It ranks the matched movie's row of the matrix by descending score.
- It shows the first 20 movies as numbered cards (title and genres).

The model has three modules:

- `Features` (features.dfy): the movie record with cells that may be
  missing. `Compose` builds the combined blob. It is proved equal to a
  reference "join with single spaces", with its exact length and the
  position of every cell. The table is a class `MovieFrame` whose
  `FillMissingFeatures` loop overwrites each selected column in place with
  `fillna('')`, as the source does.
- `Ranking` (ranking.dfy): `enumerate` of a similarity row, a stable sort by
  descending score (`sorted(..., reverse=True)`), and `[:20]`. The proofs
  cover four things. The ranking is a permutation of the enumerated row. It
  is ordered by non-increasing score, with ties in ascending column order.
  It is the only sequence with those properties. The first `k` entries are
  the best `k`.
- `Recommender` (recommender.dfy): the outcome of one button press.
  `Respond` is the specification function. The method `GetRecommendations`
  follows the source's branches and its card loop, and is proved to return
  `Respond`'s value. The fuzzy matcher is a parameter. The only thing
  assumed of it is that each candidate it returns is one of the titles it
  was given.

Scores are abstract `real`s given by the caller as the matrix
`similarity: seq<seq<real>>`. Only their order matters. The model assumes,
as a precondition (`WellFormed`), that the dataset's `index` column equals
the row position. The source uses the `index` value of the matched row as a
row number into the matrix (app.py:134, 137). It looks result rows up by the
frame's own positional index (app.py:147-148).

Two behaviours of the code are kept as written:

- `if movie_name:` refuses only the empty string. A query made of blanks
  goes to the matcher (`Respond`: `EmptyInput? <==> query == ""`).
- A card shows the `genres` cell as the frame holds it (`Option<string>`).
  That cell has been filled only on an uncached run. See `GetRecommendations`
  under "Left out".

## Model

| member | source | states |
|---|---|---|
| Features.FillMissing | app.py:97 | definition of `fillna('')` on one cell: a present value is kept, a missing one becomes the empty string |
| Features.FillColumn | app.py:96-97 | after `fillna('')` on a column no cell is missing; present cells are unchanged and missing ones become the empty string |
| Features.FillColumnIdempotent | app.py:97 | filling a column a second time changes nothing |
| Features.Compose | app.py:100-102 | definition of the combined blob; its contract states that it starts with the genres cell followed by a space and ends with a space followed by the overview cell |
| Features.MovieFrame.FillMissingFeatures | app.py:93-97 | the loop over the six selected features overwrites exactly those columns with their filled versions; titles and the index column are unchanged |
| Features.MovieFrame.CombineFeatures | app.py:92-102 | fills the columns in place, then gives one blob per row, equal to `Compose` of the row as it was before filling |
| Features.ComposeIsJoin | app.py:100-102 | the blob is the six filled cells (genres, keywords, tagline, cast, director, overview) joined by single spaces, in that order |
| Features.ComposeLength | app.py:100-102 | the blob's length is the sum of the six filled cell lengths plus 5 |
| Features.ComposeFieldAt | app.py:96-102 | each selected cell can be read back from the blob at its offset: a present value unchanged, a missing one as empty, and a single space after each cell but the last |
| Ranking.Enumerate | app.py:137 | definition of `list(enumerate(row))`: entry j is `(j, row[j])` (the contract restates the definition) |
| Ranking.Insert | app.py:138 | inserting into the sorted prefix adds exactly the one new entry (multiset) |
| Ranking.StableSortByScoreDesc | app.py:138 | the sort is a permutation of its input |
| Ranking.InsertRanked | app.py:138 | inserting an entry after every entry with a score at least its own keeps the order (score descending, ties by index) when its index is the largest so far |
| Ranking.SortRanked | app.py:138 | on an enumerated row (increasing indices) the stable descending sort yields descending scores, with equal scores in ascending index order |
| Ranking.Rank | app.py:137-138 | the ranked row is a permutation of `enumerate(row)`, has non-increasing scores, and lists equal scores by ascending column index |
| Ranking.RankCoversEveryColumn | app.py:137-138 | every column index appears exactly once in the ranking, paired with its own unaltered score |
| Ranking.RankIsUnique | app.py:137-138 | any permutation of the enumerated row that is ordered by score descending and then index ascending equals the ranking |
| Ranking.StrictMaximumRankedFirst | app.py:137-138 | a column scoring strictly above all others is ranked first |
| Ranking.TopK | app.py:145 | `ranked[:k]` has `min(k, N)` entries and is a prefix of the ranking |
| Ranking.TopKHoldsTheBest | app.py:138-145 | any column not in the first `k` is ranked after each of them |
| Ranking.TopKFollowsScores | app.py:137-145 | the first `k` entries carry the row's own scores, non-increasing, ties by ascending column, with no column twice; a column left out scores no more than each kept one |
| Recommender.FirstRowWithTitle | app.py:134 | the row found has the title, and no earlier row has it |
| Recommender.MatchedRow | app.py:132-134 | the matched row is the first row titled like the matcher's first candidate |
| Recommender.Snapshot | app.py:129-148 | definition of the columns the handler reads (title, index, genres), one entry per frame row, equal to that row's title and genres cells |
| Recommender.CardsFor | app.py:145-148 | definition of the card list: one card per ranked entry, numbered from 1, each showing a catalog title |
| Recommender.Respond | app.py:127-160 | empty query if and only if "please enter"; nonempty query with no candidate if and only if "no close match"; otherwise results based on the first candidate, which is a catalog title, with exactly `min(20, N)` cards |
| Recommender.ResultsAreRankedRows | app.py:132-148 | the cards are numbered 1..k in ranked order; card p shows the title and genres of the row at ranked column p of the matched movie's similarity row |
| Recommender.ResultsFollowSimilarity | app.py:137-148 | the cards returned are exactly the top entries of the matched row's ranking (card p shows entry p's row); those entries carry the row's own scores, non-increasing, ties by ascending row, with no movie repeated; every movie not shown scores no more than each shown one |
| Recommender.MatchedMovieFirst | app.py:132-148 | if the matched movie is strictly more similar to itself than to any other movie, the first card is `Card(1, title, genres)` of the matched row itself, even when titles repeat |
| Recommender.EmptyQueryIgnoresMatcher | app.py:127-160 | an empty query gives "please enter" whatever the matcher would answer |
| Recommender.NoMatchIgnoresSimilarity | app.py:130-158 | with no candidates the outcome is "no close match" whatever the similarity matrix holds |
| Recommender.TopRanked | app.py:137-145 | `sorted_similar_movies[:20]` has `min(20, N)` entries, each naming a column of the row |
| Recommender.EmitCards | app.py:145-148 | the card loop gives one card per ranked entry, numbered from 1, with the title and genres of that entry's row |
| Recommender.GetRecommendations | app.py:126-160 | the branches, lookup, ranking and the card loop return exactly `Respond`'s outcome |

## Left out

- TF-IDF vectorisation and cosine similarity (app.py:105-109) are scikit-learn calls on floating point. The similarity matrix is a parameter of abstract reals, assumed to be N x N. Its symmetry and unit diagonal are not modelled.
- The fuzzy matcher `difflib.get_close_matches` (app.py:130) is a library Ratcliff/Obershelp matcher with a floating-point cutoff. It is a function parameter, and the only thing assumed is that its candidates are drawn from the titles it is given.
- Loading the CSV (app.py:86-88) is file I/O. The `MovieFrame` constructor takes the columns as given. An empty dataset makes the vectorizer fail in the source. In the model an empty catalog just gives "no close match".
- `st.cache_data` memoisation (app.py:85, 91) is framework caching and is not modelled.
- GetRecommendations: shows the genres cell as stored, without modelling the caching. The source's `fillna` mutates the frame only on a call that misses the cache. On later reruns the cached matrix is reused with a fresh, unfilled copy of the data, so a missing genres cell is shown as missing rather than as the empty string.
- Page configuration, CSS, layout columns, the text input, the button and the HTML card markup (app.py:9-82, 119-126, 141-156) are UI. A card keeps only its rank, title and genres. The outcome keeps the matched title shown in the subheader.
- The title column is modelled as plain strings. A missing title (NaN) passed to the matcher is not modelled.
- Float NaN scores are not modelled. Scores are totally ordered reals.
