/** The query flow of the app: an empty query is refused, otherwise the
    closest catalog title is looked up, its row of the similarity matrix is
    ranked and the best twenty movies are turned into numbered cards. */
module Recommender {
  import opened Features
  import opened Ranking

  /** The columns of the processed table that the query flow reads. */
  datatype Catalog = Catalog(title: seq<string>, index: seq<int>, genres: seq<Option<string>>)

  /** The shape the query flow relies on: one entry per row in every column,
      the `index` column equal to the row position, and an N x N similarity
      matrix. */
  predicate WellFormed(c: Catalog, similarity: seq<seq<real>>)
  {
    && |c.index| == |c.title|
    && |c.genres| == |c.title|
    && (forall i :: 0 <= i < |c.index| ==> c.index[i] == i)
    && |similarity| == |c.title|
    && (forall i :: 0 <= i < |similarity| ==> |similarity[i]| == |c.title|)
  }

  /** The close-match oracle: given the query and the list of titles, the
      candidate titles, best first. */
  type Matcher = (string, seq<string>) -> seq<string>

  /** Every candidate the oracle returns is one of the titles it was given. */
  ghost predicate SelectsFrom(matcher: Matcher)
  {
    forall query, titles, k :: 0 <= k < |matcher(query, titles)| ==> matcher(query, titles)[k] in titles
  }

  /** One displayed recommendation: its rank (from 1), title and genres cell. */
  datatype Card = Card(rank: nat, title: string, genres: Option<string>)

  datatype Outcome =
    | EmptyInput                                  // "Please enter a movie name."
    | NoMatch                                     // "No close match found. ..."
    | Results(basedOn: string, cards: seq<Card>)  // "Recommendations based on '...'"

  /** `movies_data[movies_data.title == t]` followed by `.values[0]`: the
      first row whose title is `t`. */
  function FirstRowWithTitle(titles: seq<string>, t: string): (row: nat)
    requires t in titles
    ensures row < |titles| && titles[row] == t
    ensures forall j :: 0 <= j < row ==> titles[j] != t
  {
    if titles[0] == t then 0 else 1 + FirstRowWithTitle(titles[1..], t)
  }

  /** The row of the matched movie: the first row titled like the matcher's
      first candidate. */
  function MatchedRow(c: Catalog, matcher: Matcher, query: string): (row: nat)
    requires SelectsFrom(matcher)
    requires matcher(query, c.title) != []
    ensures row < |c.title| && c.title[row] == matcher(query, c.title)[0]
    ensures forall j :: 0 <= j < row ==> c.title[j] != matcher(query, c.title)[0]
  {
    FirstRowWithTitle(c.title, matcher(query, c.title)[0])
  }

  /** The columns of the frame that the handler reads. */
  function Snapshot(frame: MovieFrame): (c: Catalog)
    reads frame
    requires frame.Valid()
    ensures |c.index| == |c.title| == |c.genres| == frame.Rows()
    ensures forall i :: 0 <= i < |c.title| ==> c.title[i] == frame.Row(i).title && c.genres[i] == frame.Row(i).genres
  {
    Catalog(frame.title, frame.index, frame.columns[Genres])
  }

  /** `sorted_similar_movies[:20]` for one row of the similarity matrix. */
  function TopRanked(scores: seq<real>): (top: seq<Scored>)
    ensures |top| == Min(TopCount, |scores|)
    ensures forall p :: 0 <= p < |top| ==> top[p].0 < |scores|
  {
    RankCoversEveryColumn(scores);
    TopK(Rank(scores), TopCount)
  }

  /** One numbered card per entry of `top`, showing that row's title and
      genres. */
  function CardsFor(c: Catalog, top: seq<Scored>): (cards: seq<Card>)
    requires |c.genres| == |c.title|
    requires forall p :: 0 <= p < |top| ==> top[p].0 < |c.title|
    ensures |cards| == |top|
    ensures forall p :: 0 <= p < |cards| ==> cards[p].rank == p + 1
    ensures forall p :: 0 <= p < |cards| ==> cards[p].title in c.title
  {
    seq(|top|, p requires 0 <= p < |top| => Card(p + 1, c.title[top[p].0], c.genres[top[p].0]))
  }

  /** The outcome of pressing the button with `query` in the text box. */
  function Respond(c: Catalog, similarity: seq<seq<real>>, matcher: Matcher, query: string): (o: Outcome)
    requires WellFormed(c, similarity)
    requires SelectsFrom(matcher)
    ensures o.EmptyInput? <==> query == ""
    ensures o.NoMatch? <==> query != "" && matcher(query, c.title) == []
    ensures o.Results? ==> o.basedOn == matcher(query, c.title)[0] && o.basedOn in c.title
    ensures o.Results? ==> |o.cards| == Min(TopCount, |c.title|)
  {
    if query == "" then EmptyInput
    else
      var candidates := matcher(query, c.title);
      if candidates == [] then NoMatch
      else
        var closeMatch := candidates[0];
        var row := FirstRowWithTitle(c.title, closeMatch);
        var movieIndex := c.index[row];
        var top := TopRanked(similarity[movieIndex]);
        Results(closeMatch, CardsFor(c, top))
  }

  /** The cards are numbered 1..k in ranked order, and each shows the title
      and genres of the row at that ranked column of the matched movie's row
      of the similarity matrix; the matched movie is the first row carrying
      the first candidate's title. */
  lemma ResultsAreRankedRows(c: Catalog, similarity: seq<seq<real>>, matcher: Matcher, query: string)
    requires WellFormed(c, similarity)
    requires SelectsFrom(matcher)
    requires query != "" && matcher(query, c.title) != []
    ensures var ranked := Rank(similarity[MatchedRow(c, matcher, query)]);
            var o := Respond(c, similarity, matcher, query);
            && o == Results(matcher(query, c.title)[0], o.cards)
            && |o.cards| == Min(TopCount, |ranked|)
            && forall p :: 0 <= p < |o.cards| ==>
                 ranked[p].0 < |c.title| &&
                 o.cards[p] == Card(p + 1, c.title[ranked[p].0], c.genres[ranked[p].0])
  {
    RankCoversEveryColumn(similarity[MatchedRow(c, matcher, query)]);
  }

  /** The cards follow the similarity to the matched movie: scores never
      increase from one card to the next, equal scores keep ascending row
      order, no movie is shown twice, and any movie not shown is ranked
      after every shown one. */
  lemma ResultsFollowSimilarity(c: Catalog, similarity: seq<seq<real>>, matcher: Matcher, query: string)
    requires WellFormed(c, similarity)
    requires SelectsFrom(matcher)
    requires query != "" && matcher(query, c.title) != []
    ensures var scores := similarity[MatchedRow(c, matcher, query)];
            var top := TopK(Rank(scores), TopCount);
            && (forall p :: 0 <= p < |top| ==> top[p].0 < |scores| && top[p].1 == scores[top[p].0])
            && (forall p, q :: 0 <= p < q < |top| ==> top[p].1 >= top[q].1)
            && (forall p, q :: 0 <= p < q < |top| && top[p].1 == top[q].1 ==> top[p].0 < top[q].0)
            && (forall p, q :: 0 <= p < q < |top| ==> top[p].0 != top[q].0)
            && (forall j :: 0 <= j < |scores| ==>
                 || (exists p :: 0 <= p < |top| && top[p].0 == j)
                 || (forall p :: 0 <= p < |top| ==> scores[j] <= top[p].1))
            && var o := Respond(c, similarity, matcher, query);
               && |o.cards| == |top|
               && forall p :: 0 <= p < |top| ==> o.cards[p] == Card(p + 1, c.title[top[p].0], c.genres[top[p].0])
  {
    var scores := similarity[MatchedRow(c, matcher, query)];
    TopKFollowsScores(scores, TopCount);
    ResultsAreRankedRows(c, similarity, matcher, query);
    var top := TopK(Rank(scores), TopCount);
    var o := Respond(c, similarity, matcher, query);
    forall p | 0 <= p < |top| ensures o.cards[p] == Card(p + 1, c.title[top[p].0], c.genres[top[p].0]) {
      assert top[p] == Rank(scores)[p];
    }
  }

  /** When the matched movie is strictly more similar to itself than to any
      other movie, it is the first card. */
  lemma MatchedMovieFirst(c: Catalog, similarity: seq<seq<real>>, matcher: Matcher, query: string)
    requires WellFormed(c, similarity)
    requires SelectsFrom(matcher)
    requires query != "" && matcher(query, c.title) != []
    requires forall j :: 0 <= j < |c.title| && j != MatchedRow(c, matcher, query) ==>
               similarity[MatchedRow(c, matcher, query)][j] < similarity[MatchedRow(c, matcher, query)][MatchedRow(c, matcher, query)]
    ensures var row := MatchedRow(c, matcher, query);
            var o := Respond(c, similarity, matcher, query);
            o.Results? && |o.cards| > 0 && o.cards[0] == Card(1, c.title[row], c.genres[row])
  {
    var row := MatchedRow(c, matcher, query);
    assert |similarity[row]| == |c.title|;
    StrictMaximumRankedFirst(similarity[row], row);
    ResultsAreRankedRows(c, similarity, matcher, query);
  }

  /** An empty query is answered without consulting the matcher. */
  lemma EmptyQueryIgnoresMatcher(c: Catalog, similarity: seq<seq<real>>, m1: Matcher, m2: Matcher)
    requires WellFormed(c, similarity)
    requires SelectsFrom(m1) && SelectsFrom(m2)
    ensures Respond(c, similarity, m1, "") == Respond(c, similarity, m2, "") == EmptyInput
  {
  }

  /** When the matcher finds no candidate, nothing is ranked: the outcome does
      not depend on the similarity matrix. */
  lemma NoMatchIgnoresSimilarity(c: Catalog, s1: seq<seq<real>>, s2: seq<seq<real>>, matcher: Matcher, query: string)
    requires WellFormed(c, s1) && WellFormed(c, s2)
    requires SelectsFrom(matcher)
    requires query != "" && matcher(query, c.title) == []
    ensures Respond(c, s1, matcher, query) == Respond(c, s2, matcher, query) == NoMatch
  {
  }

  /** The loop `for i, movie in enumerate(sorted_similar_movies[:20], 1)`:
      one card per ranked entry, numbered from 1, with the title and genres
      of the row at that entry's column. */
  method EmitCards(c: Catalog, top: seq<Scored>) returns (cards: seq<Card>)
    requires |c.genres| == |c.title|
    requires forall p :: 0 <= p < |top| ==> top[p].0 < |c.title|
    ensures cards == CardsFor(c, top)
  {
    cards := [];
    var i := 0;
    while i < |top|
      invariant 0 <= i <= |top|
      invariant |cards| == i
      invariant forall p :: 0 <= p < i ==> cards[p] == Card(p + 1, c.title[top[p].0], c.genres[top[p].0])
    {
      var column := top[i].0;
      cards := cards + [Card(i + 1, c.title[column], c.genres[column])];
      i := i + 1;
    }
  }

  /** The button handler of the page: the branches, the title lookup, the
      ranking and the loop that emits one card per recommendation. */
  method GetRecommendations(frame: MovieFrame, similarity: seq<seq<real>>, matcher: Matcher, query: string)
    returns (o: Outcome)
    requires frame.Valid()
    requires WellFormed(Snapshot(frame), similarity)
    requires SelectsFrom(matcher)
    ensures o == Respond(Snapshot(frame), similarity, matcher, query)
  {
    if query == "" {
      return EmptyInput;
    }
    var c := Snapshot(frame);
    var candidates := matcher(query, c.title);
    if candidates == [] {
      return NoMatch;
    }
    var closeMatch := candidates[0];
    var row := FirstRowWithTitle(c.title, closeMatch);
    var movieIndex := c.index[row];
    var top := TopRanked(similarity[movieIndex]);
    var cards := EmitCards(c, top);
    assert Respond(c, similarity, matcher, query) == Results(closeMatch, CardsFor(c, top));
    o := Results(closeMatch, cards);
  }
}
