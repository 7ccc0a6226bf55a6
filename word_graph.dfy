/**
 * The word lattice the poet reads: for each start position, for each end
 * position, the dictionary entries that cover the input between them. Both
 * levels are ordered maps in the system, so they are modelled as association
 * lists whose keys strictly increase; iterating the list is iterating the map.
 */
module WordGraphs {
  import opened Sentences

  /** The entries found from one start position, keyed by end position. */
  type EndMap = seq<(nat, seq<DictEntry>)>

  /** A lattice as a plain list of (start position, entries by end position). */
  type Lattice = seq<(nat, EndMap)>

  predicate EndsOrdered(ends: EndMap) {
    forall j, k :: 0 <= j < k < |ends| ==> ends[j].0 < ends[k].0
  }

  /** Keys strictly increase at both levels, as in an ordered map. */
  predicate Ordered(g: Lattice) {
    && (forall i, j :: 0 <= i < j < |g| ==> g[i].0 < g[j].0)
    && (forall i :: 0 <= i < |g| ==> EndsOrdered(g[i].1))
  }

  /** `WordGraph`: a map from start to a map from end to a list of entries. */
  type WordGraph = g: Lattice | Ordered(g) witness []

  /** Every edge goes forward: its end lies after its start. */
  predicate Forward(g: Lattice) {
    forall i, j :: 0 <= i < |g| && 0 <= j < |g[i].1| ==> g[i].0 < g[i].1[j].0
  }

  /** One entry of the lattice together with the span it covers. */
  datatype Edge = Edge(start: nat, end: nat, entry: DictEntry)

  ghost predicate EndsHave(ends: EndMap, end: nat, entry: DictEntry) {
    exists j :: 0 <= j < |ends| && ends[j].0 == end && entry in ends[j].1
  }

  ghost predicate HasEdge(g: Lattice, e: Edge) {
    exists i :: 0 <= i < |g| && g[i].0 == e.start && EndsHave(g[i].1, e.end, e.entry)
  }

  /**
   * An edge a sentence may be built from: it is in the lattice and it is
   * not a single word spanning the whole input.
   */
  ghost predicate Usable(g: Lattice, totalLength: nat, e: Edge) {
    HasEdge(g, e) && !(e.start == 0 && e.end == totalLength)
  }

  /** The edges follow one another from position 0 to position `p`. */
  ghost predicate Chain(path: seq<Edge>, p: nat)
    decreases |path|
  {
    if path == [] then p == 0
    else path[|path| - 1].end == p && Chain(path[..|path| - 1], path[|path| - 1].start)
  }

  /** `path` is a way through the lattice from position 0 to position `p`. */
  ghost predicate Reaches(g: Lattice, totalLength: nat, path: seq<Edge>, p: nat) {
    Chain(path, p) && forall k :: 0 <= k < |path| ==> Usable(g, totalLength, path[k])
  }

  lemma ReachesExtend(g: Lattice, totalLength: nat, path: seq<Edge>, e: Edge)
    requires Reaches(g, totalLength, path, e.start) && Usable(g, totalLength, e)
    ensures Reaches(g, totalLength, path + [e], e.end)
  {
    assert (path + [e])[..|path|] == path;
  }

  /**
   * A path to the end of a non-empty input has at least two edges, since the
   * only one-edge path would be the excluded single word.
   */
  lemma AtLeastTwoWords(g: Lattice, totalLength: nat, path: seq<Edge>)
    requires Reaches(g, totalLength, path, totalLength) && totalLength > 0
    ensures |path| >= 2
  {
    var last := path[|path| - 1];
    assert Usable(g, totalLength, last);
    assert Chain(path[..|path| - 1], last.start);
  }

  lemma ForwardEdge(g: Lattice, e: Edge)
    requires Forward(g) && HasEdge(g, e)
    ensures e.start < e.end
  {
    var i :| 0 <= i < |g| && g[i].0 == e.start && EndsHave(g[i].1, e.end, e.entry);
    var j :| 0 <= j < |g[i].1| && g[i].1[j].0 == e.end && e.entry in g[i].1[j].1;
  }

  /** On a chain of forward edges, no edge ends beyond the chain's end. */
  lemma {:induction false} ChainBounded(path: seq<Edge>, p: nat)
    requires Chain(path, p)
    requires forall k :: 0 <= k < |path| ==> path[k].start < path[k].end
    ensures forall k :: 0 <= k < |path| ==> path[k].end <= p
    decreases |path|
  {
    if path != [] {
      var n := |path| - 1;
      ChainBounded(path[..n], path[n].start);
      assert forall k :: 0 <= k < n ==> path[..n][k] == path[k];
    }
  }

  lemma PrefixEdge(g: Lattice, i: nat, e: Edge)
    requires i <= |g| && HasEdge(g[..i], e)
    ensures HasEdge(g, e)
  {
    var m :| 0 <= m < |g[..i]| && g[..i][m].0 == e.start && EndsHave(g[..i][m].1, e.end, e.entry);
    assert g[m] == g[..i][m];
  }

  /**
   * In an ordered lattice, an edge of the first `i + 1` start positions
   * either starts before the `i`-th start position, and then belongs to the
   * first `i`, or starts exactly there and is listed under it.
   */
  lemma SplitPrefixEdge(g: Lattice, i: nat, e: Edge)
    requires Ordered(g) && i < |g| && HasEdge(g[..i + 1], e)
    ensures e.start <= g[i].0
    ensures e.start < g[i].0 ==> HasEdge(g[..i], e)
    ensures e.start == g[i].0 ==> EndsHave(g[i].1, e.end, e.entry)
  {
    var m :| 0 <= m < i + 1 && g[..i + 1][m].0 == e.start && EndsHave(g[..i + 1][m].1, e.end, e.entry);
    assert g[m] == g[..i + 1][m];
    if m < i {
      assert g[m] == g[..i][m];
    }
  }
}
