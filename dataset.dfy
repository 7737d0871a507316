/** The loaded dataset of GNNQueryInterface.tsx and its read-only lookups.

    Every lookup of the query step is an `Array.prototype.find` (or a `find`
    over `Object.keys`): a scan that stops at the first match. They are all
    built here on one find-first function, `FindFirst`, whose contract says
    exactly which position it returns. */
module Dataset {

  datatype Option<T> = None | Some(value: T)

  /** A node of the graph: one parliamentarian. */
  datatype Parliamentarian = Parliamentarian(name: string, sector: string, imageUrl: string)

  /** An edge of the graph, undirected in meaning although its two ends are named in an order. */
  datatype Edge = Edge(parliamentarian1: string, parliamentarian2: string, proportionAgreement: real)

  /** One key of the name-to-row object; the object is a sequence of these in key order. */
  datatype IndexEntry = IndexEntry(key: string, row: int)

  /** The whole dataset as loaded: nodes, edges, the name-to-row object and the embedding matrix. */
  datatype CompleteData = CompleteData(
    nodes: seq<Parliamentarian>,
    edges: seq<Edge>,
    index: seq<IndexEntry>,
    embeddings: seq<seq<real>>)

  /** `j` is the position of the first element of `s` that satisfies `p`. */
  ghost predicate IsFirst<T>(s: seq<T>, p: T -> bool, j: int)
  {
    0 <= j < |s| && p(s[j]) && forall i :: 0 <= i < j ==> !p(s[i])
  }

  /** The position that `find` stops at, or None when nothing matches. */
  function FindFirst<T>(s: seq<T>, p: T -> bool): (r: Option<nat>)
    ensures r.Some? ==> IsFirst(s, p, r.value)
    ensures r.None? ==> forall i :: 0 <= i < |s| ==> !p(s[i])
  {
    if s == [] then None
    else if p(s[0]) then Some(0)
    else
      match FindFirst(s[1..], p)
      case None => None
      case Some(j) =>
        assert forall i :: 1 <= i <= j ==> s[i] == s[1..][i - 1];
        Some(j + 1)
  }

  /** Reading `index[name]`: the row stored under `name`, or None when the key is absent. */
  function RowOf(m: seq<IndexEntry>, name: string): (r: Option<int>)
    ensures r.None? <==> forall j :: 0 <= j < |m| ==> m[j].key != name
    ensures forall j ::
      0 <= j < |m| && m[j].key == name && (forall i :: 0 <= i < j ==> m[i].key != name)
      ==> r == Some(m[j].row)
  {
    match FindFirst(m, (e: IndexEntry) => e.key == name)
    case None => None
    case Some(j) => Some(m[j].row)
  }

  /** The reverse lookup of a neighbour's name: the first key whose row is `row`, or "" when none is. */
  function NameOf(m: seq<IndexEntry>, row: int): (name: string)
    ensures (forall j :: 0 <= j < |m| ==> m[j].row != row) ==> name == ""
    ensures forall j ::
      0 <= j < |m| && m[j].row == row && (forall i :: 0 <= i < j ==> m[i].row != row)
      ==> name == m[j].key
  {
    match FindFirst(m, (e: IndexEntry) => e.row == row)
    case None => ""
    case Some(j) => m[j].key
  }

  /** The sector of the first node called `name`, or "" when no node is. */
  function SectorOf(nodes: seq<Parliamentarian>, name: string): (sector: string)
    ensures (forall j :: 0 <= j < |nodes| ==> nodes[j].name != name) ==> sector == ""
    ensures forall j ::
      0 <= j < |nodes| && nodes[j].name == name && (forall i :: 0 <= i < j ==> nodes[i].name != name)
      ==> sector == nodes[j].sector
  {
    match FindFirst(nodes, (n: Parliamentarian) => n.name == name)
    case None => ""
    case Some(j) => nodes[j].sector
  }

  /** Edge `e` joins `a` and `b`, in either orientation. */
  predicate Joins(e: Edge, a: string, b: string)
  {
    (e.parliamentarian1 == a && e.parliamentarian2 == b)
    || (e.parliamentarian2 == a && e.parliamentarian1 == b)
  }

  /** The agreement proportion of the first edge joining `a` and `b`, absent when no edge does. */
  function AgreementBetween(edges: seq<Edge>, a: string, b: string): (r: Option<real>)
    ensures r.Some? <==> exists j :: 0 <= j < |edges| && Joins(edges[j], a, b)
    ensures forall j ::
      0 <= j < |edges| && Joins(edges[j], a, b) && (forall i :: 0 <= i < j ==> !Joins(edges[i], a, b))
      ==> r == Some(edges[j].proportionAgreement)
  {
    match FindFirst(edges, (e: Edge) => Joins(e, a, b))
    case None => None
    case Some(j) => Some(edges[j].proportionAgreement)
  }

  /** The edge lookup does not depend on which of the two people is the subject. */
  lemma AgreementIsSymmetric(edges: seq<Edge>, a: string, b: string)
    ensures AgreementBetween(edges, a, b) == AgreementBetween(edges, b, a)
  {
  }

  /** No two keys of the object share a row. */
  ghost predicate DistinctRows(m: seq<IndexEntry>)
  {
    forall i, j :: 0 <= i < j < |m| ==> m[i].row != m[j].row
  }

  /** No key occurs twice (true of every JavaScript object). */
  ghost predicate DistinctKeys(m: seq<IndexEntry>)
  {
    forall i, j :: 0 <= i < j < |m| ==> m[i].key != m[j].key
  }

  /** Looking a name up and then reversing the lookup gives the name back,
      provided no two names share a row. */
  lemma NameOfRowOf(m: seq<IndexEntry>, name: string)
    requires DistinctRows(m)
    requires RowOf(m, name).Some?
    ensures NameOf(m, RowOf(m, name).value) == name
  {
  }

  /** Reversing a row to its name and then looking the name up gives the row back. */
  lemma RowOfNameOf(m: seq<IndexEntry>, row: int, j: int)
    requires DistinctKeys(m)
    requires 0 <= j < |m| && m[j].row == row
    ensures RowOf(m, NameOf(m, row)) == Some(row)
  {
  }
}
