/** Feature composition: the metadata columns of the movie table are cleaned of
    missing values and joined, per movie, into the one text blob that the
    vectorizer reads. */
module Features {

  /** A table cell that may be missing (a pandas NaN). */
  datatype Option<+T> = None | Some(value: T)

  /** The six metadata columns that take part in the similarity. */
  datatype Feature = Genres | Keywords | Tagline | Cast | Director | Overview

  /** The selected features, in the order in which they are combined. */
  const SelectedFeatures: seq<Feature> := [Genres, Keywords, Tagline, Cast, Director, Overview]

  /** One row of the catalog, with the cells that may be missing. */
  datatype MovieRecord = MovieRecord(
    title: string,
    genres: Option<string>,
    keywords: Option<string>,
    tagline: Option<string>,
    cast: Option<string>,
    director: Option<string>,
    overview: Option<string>)

  function FieldOf(r: MovieRecord, f: Feature): Option<string>
  {
    match f
    case Genres => r.genres
    case Keywords => r.keywords
    case Tagline => r.tagline
    case Cast => r.cast
    case Director => r.director
    case Overview => r.overview
  }

  /** `fillna('')` on one cell. */
  function FillMissing(v: Option<string>): (s: string)
    ensures v.Some? ==> s == v.value
    ensures v.None? ==> s == ""
  {
    match v
    case None => ""
    case Some(s) => s
  }

  /** The combined feature blob of one movie: the six cells, missing ones
      read as empty, joined by single spaces in the fixed order. */
  function Compose(r: MovieRecord): (blob: string)
    ensures |FillMissing(r.genres)| < |blob|
    ensures blob[..|FillMissing(r.genres)|] == FillMissing(r.genres) && blob[|FillMissing(r.genres)|] == ' '
    ensures |FillMissing(r.overview)| < |blob|
    ensures blob[|blob| - |FillMissing(r.overview)|..] == FillMissing(r.overview)
    ensures blob[|blob| - |FillMissing(r.overview)| - 1] == ' '
  {
    FillMissing(r.genres) + " " + FillMissing(r.keywords) + " " +
    FillMissing(r.tagline) + " " + FillMissing(r.cast) + " " +
    FillMissing(r.director) + " " + FillMissing(r.overview)
  }

  /** The filled cells of a movie, in the order of SelectedFeatures. */
  function FilledFields(r: MovieRecord): (parts: seq<string>)
    ensures |parts| == |SelectedFeatures|
    ensures forall k :: 0 <= k < |parts| ==> parts[k] == FillMissing(FieldOf(r, SelectedFeatures[k]))
  {
    [FillMissing(r.genres), FillMissing(r.keywords), FillMissing(r.tagline),
     FillMissing(r.cast), FillMissing(r.director), FillMissing(r.overview)]
  }

  // ---------------------------------------------------------------------
  // A reference definition: joining any number of strings with one space.
  // ---------------------------------------------------------------------

  function JoinWithSpaces(parts: seq<string>): string
  {
    if |parts| == 0 then ""
    else if |parts| == 1 then parts[0]
    else parts[0] + " " + JoinWithSpaces(parts[1..])
  }

  function TotalLength(parts: seq<string>): nat
  {
    if parts == [] then 0 else |parts[0]| + TotalLength(parts[1..])
  }

  /** Where the k-th part starts inside JoinWithSpaces(parts). */
  function Offset(parts: seq<string>, k: nat): nat
    requires k <= |parts|
  {
    TotalLength(parts[..k]) + k
  }

  lemma {:induction false} JoinLength(parts: seq<string>)
    requires |parts| > 0
    ensures |JoinWithSpaces(parts)| == TotalLength(parts) + |parts| - 1
  {
    if |parts| > 1 {
      JoinLength(parts[1..]);
    }
  }

  /** Every part sits, unchanged, at its offset, and is followed by a space
      unless it is the last one. */
  lemma {:induction false} JoinPartAt(parts: seq<string>, k: nat)
    requires k < |parts|
    ensures Offset(parts, k) + |parts[k]| <= |JoinWithSpaces(parts)|
    ensures k + 1 < |parts| ==> Offset(parts, k) + |parts[k]| < |JoinWithSpaces(parts)|
    ensures JoinWithSpaces(parts)[Offset(parts, k)..Offset(parts, k) + |parts[k]|] == parts[k]
    ensures k + 1 < |parts| ==> JoinWithSpaces(parts)[Offset(parts, k) + |parts[k]|] == ' '
  {
    JoinLength(parts);
    if k == 0 {
      assert parts[..0] == [];
    } else {
      var rest := parts[1..];
      JoinPartAt(rest, k - 1);
      assert parts[..k][0] == parts[0];
      assert parts[..k][1..] == rest[..k - 1];
      assert Offset(parts, k) == |parts[0]| + 1 + Offset(rest, k - 1);
      assert JoinWithSpaces(parts) == parts[0] + " " + JoinWithSpaces(rest);
    }
  }

  // ---------------------------------------------------------------------
  // Properties of the combined blob.
  // ---------------------------------------------------------------------

  /** The blob is exactly the space-join of the six filled cells. */
  lemma ComposeIsJoin(r: MovieRecord)
    ensures Compose(r) == JoinWithSpaces(FilledFields(r))
  {
    var p := FilledFields(r);
    assert JoinWithSpaces(p[4..]) == p[4] + " " + p[5];
    assert JoinWithSpaces(p[3..]) == p[3] + " " + JoinWithSpaces(p[4..]);
    assert JoinWithSpaces(p[2..]) == p[2] + " " + JoinWithSpaces(p[3..]);
    assert JoinWithSpaces(p[1..]) == p[1] + " " + JoinWithSpaces(p[2..]);
  }

  /** The blob is as long as the six filled cells together, plus the five
      separating spaces. */
  lemma ComposeLength(r: MovieRecord)
    ensures |Compose(r)| ==
      |FillMissing(r.genres)| + |FillMissing(r.keywords)| + |FillMissing(r.tagline)| +
      |FillMissing(r.cast)| + |FillMissing(r.director)| + |FillMissing(r.overview)| + 5
  {
    var p := FilledFields(r);
    ComposeIsJoin(r);
    JoinLength(p);
    assert p[5..][1..] == [];
    assert TotalLength(p) == |p[0]| + |p[1]| + |p[2]| + |p[3]| + |p[4]| + |p[5]|;
  }

  /** Each selected cell can be read back from the blob at its offset: a
      present cell unchanged, a missing one as the empty string; between two
      cells stands a single space. */
  lemma ComposeFieldAt(r: MovieRecord, k: nat)
    requires k < |SelectedFeatures|
    ensures var p := FilledFields(r);
            var blob := Compose(r);
            var start := Offset(p, k);
            && start + |p[k]| <= |blob|
            && (k + 1 < |SelectedFeatures| ==> start + |p[k]| < |blob|)
            && blob[start..start + |p[k]|] == FillMissing(FieldOf(r, SelectedFeatures[k]))
            && (FieldOf(r, SelectedFeatures[k]).Some? ==> blob[start..start + |p[k]|] == FieldOf(r, SelectedFeatures[k]).value)
            && (FieldOf(r, SelectedFeatures[k]).None? ==> |p[k]| == 0)
            && (k + 1 < |SelectedFeatures| ==> blob[start + |p[k]|] == ' ')
  {
    ComposeIsJoin(r);
    JoinPartAt(FilledFields(r), k);
  }

  // ---------------------------------------------------------------------
  // The movie table, whose feature columns are overwritten in place.
  // ---------------------------------------------------------------------

  /** `Series.fillna('')` on a whole column: no cell is missing afterwards,
      present cells are unchanged and missing ones hold the empty string. */
  function FillColumn(column: seq<Option<string>>): (filled: seq<Option<string>>)
    ensures |filled| == |column|
    ensures forall i :: 0 <= i < |column| ==> filled[i].Some?
    ensures forall i :: 0 <= i < |column| && column[i].Some? ==> filled[i] == column[i]
    ensures forall i :: 0 <= i < |column| && column[i].None? ==> filled[i] == Some("")
  {
    seq(|column|, i requires 0 <= i < |column| => Some(FillMissing(column[i])))
  }

  /** Filling a column twice is the same as filling it once. */
  lemma FillColumnIdempotent(column: seq<Option<string>>)
    ensures FillColumn(FillColumn(column)) == FillColumn(column)
  {
  }

  class MovieFrame {
    var title: seq<string>
    /** The dataset's own `index` column. */
    var index: seq<int>
    var columns: map<Feature, seq<Option<string>>>

    ghost predicate Valid()
      reads this
    {
      && |index| == |title|
      && forall f: Feature :: f in columns && |columns[f]| == |title|
    }

    /** The table as read from the dataset file (the reading is not modelled). */
    constructor (title: seq<string>, index: seq<int>, columns: map<Feature, seq<Option<string>>>)
      requires |index| == |title|
      requires forall f: Feature :: f in columns && |columns[f]| == |title|
      ensures Valid()
      ensures this.title == title && this.index == index && this.columns == columns
    {
      this.title := title;
      this.index := index;
      this.columns := columns;
    }

    function Rows(): nat
      reads this
    {
      |title|
    }

    function Row(i: nat): MovieRecord
      reads this
      requires Valid() && i < Rows()
    {
      MovieRecord(title[i], columns[Genres][i], columns[Keywords][i], columns[Tagline][i],
                  columns[Cast][i], columns[Director][i], columns[Overview][i])
    }

    /** The loop that fills each selected column with `fillna('')`. */
    method FillMissingFeatures()
      requires Valid()
      modifies this
      ensures Valid()
      ensures title == old(title) && index == old(index)
      ensures forall f: Feature :: columns[f] == FillColumn(old(columns[f]))
    {
      var k := 0;
      while k < |SelectedFeatures|
        invariant 0 <= k <= |SelectedFeatures|
        invariant Valid()
        invariant title == old(title) && index == old(index)
        invariant forall f: Feature :: f in SelectedFeatures[..k] ==> columns[f] == FillColumn(old(columns[f]))
        invariant forall f: Feature :: f !in SelectedFeatures[..k] ==> columns[f] == old(columns[f])
      {
        var feature := SelectedFeatures[k];
        assert SelectedFeatures[..k + 1] == SelectedFeatures[..k] + [feature];
        assert feature !in SelectedFeatures[..k];
        columns := columns[feature := FillColumn(columns[feature])];
        k := k + 1;
      }
      assert SelectedFeatures[..k] == SelectedFeatures;
      forall f: Feature ensures f in SelectedFeatures {
        match f
        case Genres => assert SelectedFeatures[0] == f;
        case Keywords => assert SelectedFeatures[1] == f;
        case Tagline => assert SelectedFeatures[2] == f;
        case Cast => assert SelectedFeatures[3] == f;
        case Director => assert SelectedFeatures[4] == f;
        case Overview => assert SelectedFeatures[5] == f;
      }
    }

    /** The feature-combination part of building the similarity matrix:
        fill the selected columns in place, then combine each row. */
    method CombineFeatures() returns (blobs: seq<string>)
      requires Valid()
      modifies this
      ensures Valid()
      ensures title == old(title) && index == old(index)
      ensures forall f: Feature :: columns[f] == FillColumn(old(columns[f]))
      ensures |blobs| == Rows()
      ensures forall i :: 0 <= i < |blobs| ==> blobs[i] == Compose(old(Row(i)))
    {
      FillMissingFeatures();
      blobs := seq(|title|, i reads this requires 0 <= i < |title| && Valid() => Compose(Row(i)));
    }
  }
}
