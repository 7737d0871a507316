/** The query step of GNNQueryInterface.tsx (`handleQuery`): resolve the subject's
    row, score every row against it, keep positions 1 to 5 of the ranking, and
    annotate each neighbour with its name, sector and agreement proportion.

    The similarity metric (cosine similarity in the source) is a parameter
    `metric(row, subject)`; only the order of its values matters here. */
module Query {
  import opened Dataset
  import opened Ranking

  /** One neighbour in the result. */
  datatype SimilarNode = SimilarNode(
    name: string,
    similarity: real,
    sector: string,
    proportionAgreement: Option<real>)

  /** What a query stores for display: the subject's sector and its neighbours. */
  datatype QueryResult = QueryResult(sector: string, similarNodes: seq<SimilarNode>)

  /** `index[selected]` is not a row of a non-empty matrix: the source throws a TypeError. */
  datatype QueryError = SubjectNotIndexed

  datatype Result<T, E> = Ok(value: T) | Err(error: E)

  /** The subject's row: present exactly when `index[selected]` is a row of the matrix. */
  function SubjectRow(d: CompleteData, selected: string): (r: Option<nat>)
    ensures r.Some? <==> RowOf(d.index, selected).Some? && 0 <= RowOf(d.index, selected).value < |d.embeddings|
    ensures r.Some? ==> RowOf(d.index, selected) == Some(r.value as int) && r.value < |d.embeddings|
  {
    match RowOf(d.index, selected)
    case Some(row) => if 0 <= row < |d.embeddings| then Some(row as nat) else None
    case None => None
  }

  /** The scores the source computes, one per row in row order, or None where it throws.
      With no rows at all the subject's embedding is never read, so nothing is thrown. */
  function Scores(d: CompleteData, selected: string, metric: (seq<real>, seq<real>) -> real): (r: Option<seq<real>>)
    ensures r.None? <==> |d.embeddings| > 0 && SubjectRow(d, selected).None?
    ensures r.Some? ==> |r.value| == |d.embeddings|
    ensures r.Some? ==> forall i :: 0 <= i < |r.value| ==>
      r.value[i] == metric(d.embeddings[i], d.embeddings[SubjectRow(d, selected).value])
  {
    if |d.embeddings| == 0 then Some([])
    else
      match SubjectRow(d, selected)
      case None => None
      case Some(row) =>
        var subject := d.embeddings[row];
        Some(seq(|d.embeddings|, i requires 0 <= i < |d.embeddings| => metric(d.embeddings[i], subject)))
  }

  /** Annotate one ranked row. The score is kept; the name is the first key stored with the
      row, or "" when none is; the sector is that of the first node with that name, or "" when
      there is none; the agreement proportion is present exactly when an edge joins the subject
      and that name, and is then the value of the first such edge. */
  function Enrich(d: CompleteData, selected: string, s: Scored): (r: SimilarNode)
    ensures r.similarity == s.similarity
    ensures r.name == "" || exists j :: 0 <= j < |d.index| && d.index[j].key == r.name && d.index[j].row == s.index
    ensures (forall j :: 0 <= j < |d.index| ==> d.index[j].row != s.index) ==> r.name == ""
    ensures r.sector == "" || exists j :: 0 <= j < |d.nodes| && d.nodes[j].name == r.name && d.nodes[j].sector == r.sector
    ensures r.proportionAgreement.Some? <==> exists j :: 0 <= j < |d.edges| && Joins(d.edges[j], selected, r.name)
    ensures forall j ::
      0 <= j < |d.index| && d.index[j].row == s.index && (forall i :: 0 <= i < j ==> d.index[i].row != s.index)
      ==> r.name == d.index[j].key
    ensures forall j ::
      0 <= j < |d.nodes| && d.nodes[j].name == r.name && (forall i :: 0 <= i < j ==> d.nodes[i].name != r.name)
      ==> r.sector == d.nodes[j].sector
    ensures forall j ::
      0 <= j < |d.edges| && Joins(d.edges[j], selected, r.name)
      && (forall i :: 0 <= i < j ==> !Joins(d.edges[i], selected, r.name))
      ==> r.proportionAgreement == Some(d.edges[j].proportionAgreement)
  {
    var name := NameOf(d.index, s.index);
    SimilarNode(name, s.similarity, SectorOf(d.nodes, name), AgreementBetween(d.edges, selected, name))
  }

  /** Annotate a ranked list entry by entry; scores that never increase stay that way. */
  function EnrichAll(d: CompleteData, selected: string, ranked: seq<Scored>): (r: seq<SimilarNode>)
    ensures |r| == |ranked|
    ensures forall k :: 0 <= k < |r| ==> r[k] == Enrich(d, selected, ranked[k])
    ensures NonIncreasing(ranked) ==> forall k, l :: 0 <= k < l < |r| ==> r[k].similarity >= r[l].similarity
  {
    seq(|ranked|, k requires 0 <= k < |ranked| => Enrich(d, selected, ranked[k]))
  }

  /** The computation of `handleQuery` once data is loaded and a name is selected. It fails
      exactly when the matrix has rows and the selected name is not a key of the index or is
      stored with a value that is not one of those rows; otherwise it lists `min(5, N - 1)`
      neighbours (none for no rows) with scores that never increase. */
  function Query(d: CompleteData, selected: string, metric: (seq<real>, seq<real>) -> real): (r: Result<QueryResult, QueryError>)
    ensures r.Err? <==>
      |d.embeddings| > 0
      && (RowOf(d.index, selected).None? || !(0 <= RowOf(d.index, selected).value < |d.embeddings|))
    ensures r.Ok? ==> |r.value.similarNodes| == (if |d.embeddings| == 0 then 0 else Min(TOP_COUNT, |d.embeddings| - 1))
    ensures r.Ok? ==> forall k, l :: 0 <= k < l < |r.value.similarNodes| ==>
      r.value.similarNodes[k].similarity >= r.value.similarNodes[l].similarity
  {
    match Scores(d, selected, metric)
    case None => Err(SubjectNotIndexed)
    case Some(scores) =>
      TopSimilarShape(scores);
      Ok(QueryResult(SectorOf(d.nodes, selected), EnrichAll(d, selected, TopSimilar(scores))))
  }

  /** What a successful query returns: the subject's sector; `min(5, N - 1)` neighbours
      (none for no rows), the k-th one built from sorted position k + 1; scores that never
      increase; and for each neighbour the name of its row, the sector of that name, and the
      agreement proportion of the first edge joining the subject and the neighbour, present
      exactly when such an edge exists. */
  lemma QueryResultShape(d: CompleteData, selected: string, metric: (seq<real>, seq<real>) -> real)
    requires Query(d, selected, metric).Ok?
    ensures var res := Query(d, selected, metric).value;
      var scores := Scores(d, selected, metric).value;
      && |scores| == |d.embeddings|
      && (|d.embeddings| > 0 ==> forall i :: 0 <= i < |scores| ==>
            scores[i] == metric(d.embeddings[i], d.embeddings[SubjectRow(d, selected).value]))
      && res.sector == SectorOf(d.nodes, selected)
      && |res.similarNodes| == (if |d.embeddings| == 0 then 0 else Min(TOP_COUNT, |d.embeddings| - 1))
      && (forall k :: 0 <= k < |res.similarNodes| ==>
            res.similarNodes[k] == Enrich(d, selected, Ranked(scores)[k + 1]))
      && (forall k, l :: 0 <= k < l < |res.similarNodes| ==>
            res.similarNodes[k].similarity >= res.similarNodes[l].similarity)
      && (forall k :: 0 <= k < |res.similarNodes| ==>
            res.similarNodes[k].name == NameOf(d.index, Ranked(scores)[k + 1].index)
            && res.similarNodes[k].sector == SectorOf(d.nodes, res.similarNodes[k].name)
            && res.similarNodes[k].proportionAgreement == AgreementBetween(d.edges, selected, res.similarNodes[k].name)
            && (res.similarNodes[k].proportionAgreement.Some? <==>
                  exists j :: 0 <= j < |d.edges| && Joins(d.edges[j], selected, res.similarNodes[k].name)))
  {
  }

  /** The state change of the Query button: the result on display afterwards. Nothing
      changes when no data is loaded, no name is selected, or the query throws. */
  function HandleQuery(
    data: Option<CompleteData>,
    selected: string,
    metric: (seq<real>, seq<real>) -> real,
    shown: Option<QueryResult>): (next: Option<QueryResult>)
    ensures data.None? || selected == "" ==> next == shown
    ensures data.Some? && selected != "" && Query(data.value, selected, metric).Err? ==> next == shown
    ensures data.Some? && selected != "" && Query(data.value, selected, metric).Ok? ==>
      next == Some(Query(data.value, selected, metric).value)
  {
    if data.None? || selected == "" then shown
    else
      match Query(data.value, selected, metric)
      case Ok(res) => Some(res)
      case Err(_) => shown
  }

  /** The query with the subject's own row removed before the five neighbours are taken. */
  function CorrectedQuery(d: CompleteData, selected: string, metric: (seq<real>, seq<real>) -> real): Result<QueryResult, QueryError>
  {
    match Scores(d, selected, metric)
    case None => Err(SubjectNotIndexed)
    case Some(scores) =>
      var ranked := if |d.embeddings| == 0 then [] else TopSimilarExcluding(scores, SubjectRow(d, selected).value);
      Ok(QueryResult(SectorOf(d.nodes, selected), EnrichAll(d, selected, ranked)))
  }

  /** The corrected query lists `min(5, N - 1)` neighbours, the k-th built from the k-th
      best-ranked row other than the subject's, with scores that never increase, and never
      lists the subject by name. */
  lemma CorrectedQueryExcludesSubject(d: CompleteData, selected: string, metric: (seq<real>, seq<real>) -> real)
    requires DistinctKeys(d.index)
    requires selected != ""
    requires |d.embeddings| == 0 || SubjectRow(d, selected).Some?
    ensures CorrectedQuery(d, selected, metric).Ok?
    ensures var nodes := CorrectedQuery(d, selected, metric).value.similarNodes;
      && |nodes| == (if |d.embeddings| == 0 then 0 else Min(TOP_COUNT, |d.embeddings| - 1))
      && (|d.embeddings| > 0 ==> forall k :: 0 <= k < |nodes| ==>
            nodes[k] == Enrich(d, selected,
              TopSimilarExcluding(Scores(d, selected, metric).value, SubjectRow(d, selected).value)[k]))
      && (forall k, l :: 0 <= k < l < |nodes| ==> nodes[k].similarity >= nodes[l].similarity)
      && forall k :: 0 <= k < |nodes| ==> nodes[k].name != selected
  {
    if |d.embeddings| > 0 {
      var row := SubjectRow(d, selected).value;
      var scores := Scores(d, selected, metric).value;
      TopSimilarExcludingIsCorrect(scores, row);
      var top := TopSimilarExcluding(scores, row);
      var nodes := CorrectedQuery(d, selected, metric).value.similarNodes;
      forall k | 0 <= k < |nodes| ensures nodes[k].name != selected {
        NameIsNotSubject(d.index, selected, row, top[k].index);
      }
    }
  }

  /** With distinct keys, a row other than the subject's never resolves to the subject's name. */
  lemma NameIsNotSubject(m: seq<IndexEntry>, selected: string, row: int, other: int)
    requires DistinctKeys(m)
    requires selected != ""
    requires RowOf(m, selected) == Some(row)
    requires other != row
    ensures NameOf(m, other) != selected
  {
  }

  /** The source as written: when rows 0 and 1 hold the same embedding and the subject is the
      key of row 1, the first neighbour listed is the subject itself, while the corrected
      query lists the name of row 0 first. Cosine similarity gives the subject's own row the
      top score, which is what the third requirement asks of `metric`. */
  lemma QueryListsSubjectFirst(d: CompleteData, selected: string, metric: (seq<real>, seq<real>) -> real)
    requires 2 <= |d.embeddings| && d.embeddings[0] == d.embeddings[1]
    requires RowOf(d.index, selected) == Some(1) && DistinctRows(d.index)
    requires forall i :: 0 <= i < |d.embeddings| ==>
      metric(d.embeddings[i], d.embeddings[1]) <= metric(d.embeddings[1], d.embeddings[1])
    ensures Query(d, selected, metric).Ok?
    ensures |Query(d, selected, metric).value.similarNodes| > 0
    ensures Query(d, selected, metric).value.similarNodes[0].name == selected
    ensures CorrectedQuery(d, selected, metric).Ok?
    ensures |CorrectedQuery(d, selected, metric).value.similarNodes| > 0
    ensures CorrectedQuery(d, selected, metric).value.similarNodes[0].name == NameOf(d.index, 0)
  {
    var scores := Scores(d, selected, metric).value;
    SubjectCanBeItsOwnNeighbour(scores);
    TopSimilarShape(scores);
    NameOfRowOf(d.index, selected);
  }
}
