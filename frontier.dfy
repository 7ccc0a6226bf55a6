/**
 * The dynamic-programming sweep of `Poet::MakeSentence`, stated as functions
 * over the frontier: the map from input position to the one sentence the
 * comparator has kept for it so far. `Sweep`, `RelaxEnds` and `RelaxEntries`
 * follow the method's three nested loops (start positions, end positions,
 * entries); `Offer` is the body of the innermost loop. The lemmas say what
 * every frontier the sweep builds satisfies: each sentence in it is built
 * along a path of the lattice (soundness), and, for a lattice whose edges go
 * forward, every position the lattice reaches gets a sentence (completeness).
 */
module Frontiers {
  import opened Sentences
  import opened WordGraphs

  /** `compare(one, other)` is true when `other` should replace `one`. */
  type Comparator = (Sentence, Sentence) -> bool

  type Frontier = map<nat, Sentence>

  /** What one call of the sweep is given besides the lattice. */
  datatype Params = Params(
    totalLength: nat,
    precedingText: string,
    grammar: Scorer,
    compare: Comparator)

  /**
   * An irreflexive and transitive comparator: no sentence replaces itself,
   * and replacements chain.
   */
  ghost predicate StrictOrder(compare: Comparator) {
    && (forall a :: !compare(a, a))
    && (forall a, b, c :: compare(a, b) && compare(b, c) ==> compare(a, c))
  }

  /** The frontier before the sweep: the empty sentence at position 0. */
  function Initial(): (f: Frontier)
    ensures f.Keys == {0}
    ensures Size(f[0]) == 0 && f[0].end == 0 && WellFormed(f[0])
  {
    map[0 := Empty()]
  }

  /**
   * Store `candidate` at `pos` if that slot is empty or the comparator
   * prefers the candidate to its occupant; leave every other slot alone.
   */
  function Offer(f: Frontier, pos: nat, candidate: Sentence, compare: Comparator): (g: Frontier)
    ensures g.Keys == f.Keys + {pos}
    ensures forall p :: p in f && p != pos ==> g[p] == f[p]
    ensures pos !in f ==> g[pos] == candidate
    ensures pos in f ==> g[pos] == (if compare(f[pos], candidate) then candidate else f[pos])
  {
    if pos !in f || compare(f[pos], candidate) then f[pos := candidate] else f
  }

  /**
   * The sentence for one entry of the edge (start, endPos): a copy of the
   * one at `start`, extended by the entry and scored as the rear of the input
   * exactly when the edge ends at `totalLength`.
   */
  function Candidate(f: Frontier, start: nat, endPos: nat, entry: DictEntry, prm: Params): (c: Sentence)
    requires start in f
    ensures c.components == f[start].components + [entry]
    ensures c.syllableLengths == f[start].syllableLengths + [endPos - f[start].end]
    ensures c.end == endPos
    ensures c.weight == prm.grammar(f[start], entry, endPos == prm.totalLength, prm.precedingText)
    ensures WellFormed(f[start]) ==> WellFormed(c)
  {
    Extend(f[start], entry, endPos, endPos == prm.totalLength, prm.precedingText, prm.grammar)
  }

  /** Offer, one entry after the other, the sentences through the entries from `start` to `endPos`. */
  function RelaxEntries(f: Frontier, start: nat, endPos: nat, entries: seq<DictEntry>,
                        prm: Params): (g: Frontier)
    requires start in f
    ensures g.Keys == f.Keys + (if entries == [] then {} else {endPos})
    decreases |entries|
  {
    if entries == [] then f
    else
      var f' := Offer(f, endPos, Candidate(f, start, endPos, entries[0], prm), prm.compare);
      RelaxEntries(f', start, endPos, entries[1..], prm)
  }

  /** Relax every edge leaving `start`, in order of end position, skipping the single word. */
  function RelaxEnds(f: Frontier, start: nat, ends: EndMap, prm: Params): (g: Frontier)
    requires start in f
    ensures f.Keys <= g.Keys
    decreases |ends|
  {
    if ends == [] then f
    else
      var f' := if start == 0 && ends[0].0 == prm.totalLength then f
                else RelaxEntries(f, start, ends[0].0, ends[0].1, prm);
      RelaxEnds(f', start, ends[1..], prm)
  }

  /** Visit the start positions in order; one not yet reached contributes nothing. */
  function Sweep(f: Frontier, graph: Lattice, prm: Params): (g: Frontier)
    ensures f.Keys <= g.Keys
    decreases |graph|
  {
    if graph == [] then f
    else
      var f' := if graph[0].0 !in f then f else RelaxEnds(f, graph[0].0, graph[0].1, prm);
      Sweep(f', graph[1..], prm)
  }

  /**
   * The frontier when the whole lattice has been swept. Position 0 stays
   * reached, and every sentence in it is well formed and reaches exactly the
   * position it is stored at.
   */
  function Final(graph: Lattice, prm: Params): (f: Frontier)
    ensures 0 in f
    ensures forall p :: p in f ==> WellFormed(f[p]) && f[p].end == p
  {
    var f := Sweep(Initial(), graph, prm);
    assert forall p :: p in f ==> WellFormed(f[p]) && f[p].end == p by {
      InitialDerived(graph, prm);
      SubLatticeReflexive(graph);
      SweepDerived(graph, prm, Initial(), graph);
      forall p | p in f
        ensures WellFormed(f[p]) && f[p].end == p
      {
        var path :| Reaches(graph, prm.totalLength, path, p) && Replay(path, prm) == f[p];
        if path != [] {
          assert Chain(path, p);
        }
      }
    }
    f
  }

  /**
   * The sentence obtained by starting from the empty sentence and extending
   * it along `path`, one edge at a time.
   */
  function Replay(path: seq<Edge>, prm: Params): (s: Sentence)
    ensures WellFormed(s) && Size(s) == |path|
    ensures forall k :: 0 <= k < |path| ==> s.components[k] == path[k].entry
    ensures s.end == if path == [] then 0 else path[|path| - 1].end
    decreases |path|
  {
    if path == [] then Empty()
    else
      var last := path[|path| - 1];
      var s := Replay(path[..|path| - 1], prm);
      Extend(s, last.entry, last.end, last.end == prm.totalLength, prm.precedingText, prm.grammar)
  }

  /** Every sentence in `f` is the replay of a path of `g` to its own position. */
  ghost predicate Derived(g: Lattice, prm: Params, f: Frontier) {
    forall p :: p in f ==> exists path :: Reaches(g, prm.totalLength, path, p) && Replay(path, prm) == f[p]
  }

  /** Every entry of `graph` is an edge of `g`. */
  ghost predicate SubLattice(graph: Lattice, g: Lattice) {
    forall i, j, x :: 0 <= i < |graph| && 0 <= j < |graph[i].1| && x in graph[i].1[j].1 ==>
      HasEdge(g, Edge(graph[i].0, graph[i].1[j].0, x))
  }

  lemma SubLatticeReflexive(g: Lattice)
    ensures SubLattice(g, g)
  {
    forall i, j, x | 0 <= i < |g| && 0 <= j < |g[i].1| && x in g[i].1[j].1
      ensures HasEdge(g, Edge(g[i].0, g[i].1[j].0, x))
    {
      assert EndsHave(g[i].1, g[i].1[j].0, x);
    }
  }

  lemma InitialDerived(g: Lattice, prm: Params)
    ensures Derived(g, prm, Initial())
  {
    assert Reaches(g, prm.totalLength, [], 0);
  }

  /** The candidate built from the sentence at `start` replays the path to `start` plus one edge. */
  lemma CandidateDerived(g: Lattice, prm: Params, f: Frontier, start: nat, endPos: nat, x: DictEntry)
    requires Derived(g, prm, f) && start in f
    requires Usable(g, prm.totalLength, Edge(start, endPos, x))
    ensures exists path :: Reaches(g, prm.totalLength, path, endPos) && Replay(path, prm) == Candidate(f, start, endPos, x, prm)
  {
    var path :| Reaches(g, prm.totalLength, path, start) && Replay(path, prm) == f[start];
    var e := Edge(start, endPos, x);
    ReachesExtend(g, prm.totalLength, path, e);
    assert (path + [e])[..|path|] == path;
    assert Replay(path + [e], prm) == Candidate(f, start, endPos, x, prm);
  }

  lemma OfferDerived(g: Lattice, prm: Params, f: Frontier, pos: nat, c: Sentence)
    requires Derived(g, prm, f)
    requires exists path :: Reaches(g, prm.totalLength, path, pos) && Replay(path, prm) == c
    ensures Derived(g, prm, Offer(f, pos, c, prm.compare))
  {
  }

  lemma {:induction false} RelaxEntriesDerived(g: Lattice, prm: Params, f: Frontier, start: nat,
                                               endPos: nat, entries: seq<DictEntry>)
    requires Derived(g, prm, f) && start in f
    requires !(start == 0 && endPos == prm.totalLength)
    requires forall x :: x in entries ==> HasEdge(g, Edge(start, endPos, x))
    ensures Derived(g, prm, RelaxEntries(f, start, endPos, entries, prm))
    decreases |entries|
  {
    if entries != [] {
      var c := Candidate(f, start, endPos, entries[0], prm);
      CandidateDerived(g, prm, f, start, endPos, entries[0]);
      var f' := Offer(f, endPos, c, prm.compare);
      OfferDerived(g, prm, f, endPos, c);
      RelaxEntriesDerived(g, prm, f', start, endPos, entries[1..]);
    }
  }

  lemma {:induction false} RelaxEndsDerived(g: Lattice, prm: Params, f: Frontier, start: nat, ends: EndMap)
    requires Derived(g, prm, f) && start in f
    requires forall j, x :: 0 <= j < |ends| && x in ends[j].1 ==> HasEdge(g, Edge(start, ends[j].0, x))
    ensures Derived(g, prm, RelaxEnds(f, start, ends, prm))
    decreases |ends|
  {
    if ends != [] {
      if !(start == 0 && ends[0].0 == prm.totalLength) {
        RelaxEntriesDerived(g, prm, f, start, ends[0].0, ends[0].1);
      }
      var f' := if start == 0 && ends[0].0 == prm.totalLength then f
                else RelaxEntries(f, start, ends[0].0, ends[0].1, prm);
      RelaxEndsDerived(g, prm, f', start, ends[1..]);
    }
  }

  lemma {:induction false} SweepDerived(g: Lattice, prm: Params, f: Frontier, graph: Lattice)
    requires Derived(g, prm, f) && SubLattice(graph, g)
    ensures Derived(g, prm, Sweep(f, graph, prm))
    decreases |graph|
  {
    if graph != [] {
      if graph[0].0 in f {
        RelaxEndsDerived(g, prm, f, graph[0].0, graph[0].1);
      }
      var f' := if graph[0].0 !in f then f else RelaxEnds(f, graph[0].0, graph[0].1, prm);
      SweepDerived(g, prm, f', graph[1..]);
    }
  }

  /**
   * Soundness: every sentence the sweep leaves in the frontier is the
   * replay of a path through the lattice to its position that never uses
   * the single word covering the whole input.
   */
  lemma FinalDerived(graph: Lattice, prm: Params)
    ensures Derived(graph, prm, Final(graph, prm))
  {
    InitialDerived(graph, prm);
    SubLatticeReflexive(graph);
    SweepDerived(graph, prm, Initial(), graph);
  }

  /** An edge from a reached start position that is not the single word puts its end in the frontier. */
  lemma {:induction false} RelaxEndsCovers(f: Frontier, start: nat, ends: EndMap, prm: Params, j: nat)
    requires start in f && j < |ends| && ends[j].1 != []
    requires !(start == 0 && ends[j].0 == prm.totalLength)
    ensures ends[j].0 in RelaxEnds(f, start, ends, prm)
    decreases |ends|
  {
    var f' := if start == 0 && ends[0].0 == prm.totalLength then f
              else RelaxEntries(f, start, ends[0].0, ends[0].1, prm);
    if j > 0 {
      RelaxEndsCovers(f', start, ends[1..], prm, j - 1);
    }
  }

  /** Processing the `i`-th start position adds every position reachable through it. */
  lemma StepCovers(g: Lattice, prm: Params, i: nat, f: Frontier, path: seq<Edge>, p: nat)
    requires Ordered(g) && Forward(g) && i < |g|
    requires forall path, p :: Reaches(g[..i], prm.totalLength, path, p) ==> p in f
    requires Reaches(g[..i + 1], prm.totalLength, path, p)
    ensures p in (if g[i].0 !in f then f else RelaxEnds(f, g[i].0, g[i].1, prm))
  {
    var s := g[i].0;
    if path == [] {
      assert Reaches(g[..i], prm.totalLength, path, p);
    } else {
      var n := |path| - 1;
      var last := path[n];
      forall k | 0 <= k < |path| ensures path[k].start < path[k].end && path[k].start <= s {
        assert Usable(g[..i + 1], prm.totalLength, path[k]);
        PrefixEdge(g, i + 1, path[k]);
        ForwardEdge(g, path[k]);
        SplitPrefixEdge(g, i, path[k]);
      }
      assert Chain(path[..n], last.start);
      ChainBounded(path[..n], last.start);
      if last.start < s {
        forall k | 0 <= k < |path| ensures Usable(g[..i], prm.totalLength, path[k]) {
          if k < n {
            assert path[..n][k] == path[k];
          }
          assert Usable(g[..i + 1], prm.totalLength, path[k]);
          SplitPrefixEdge(g, i, path[k]);
        }
        assert Reaches(g[..i], prm.totalLength, path, p);
      } else {
        assert last.start == s;
        forall k | 0 <= k < n ensures Usable(g[..i], prm.totalLength, path[..n][k]) {
          assert path[..n][k] == path[k];
          assert Usable(g[..i + 1], prm.totalLength, path[k]);
          SplitPrefixEdge(g, i, path[k]);
        }
        assert Reaches(g[..i], prm.totalLength, path[..n], s);
        assert s in f;
        assert Usable(g[..i + 1], prm.totalLength, last);
        SplitPrefixEdge(g, i, last);
        var j :| 0 <= j < |g[i].1| && g[i].1[j].0 == last.end && last.entry in g[i].1[j].1;
        RelaxEndsCovers(f, s, g[i].1, prm, j);
      }
    }
  }

  lemma {:induction false} SweepCovers(g: Lattice, prm: Params, i: nat, f: Frontier)
    requires Ordered(g) && Forward(g) && i <= |g|
    requires forall path, p :: Reaches(g[..i], prm.totalLength, path, p) ==> p in f
    ensures forall path, p :: Reaches(g, prm.totalLength, path, p) ==> p in Sweep(f, g[i..], prm)
    decreases |g| - i
  {
    if i == |g| {
      assert g[..i] == g;
      assert g[i..] == [];
    } else {
      var f' := if g[i].0 !in f then f else RelaxEnds(f, g[i].0, g[i].1, prm);
      assert g[i..][1..] == g[i + 1..];
      assert Sweep(f, g[i..], prm) == Sweep(f', g[i + 1..], prm);
      var h := g[..i + 1];
      forall path, p | Reaches(h, prm.totalLength, path, p) ensures p in f' {
        StepCovers(g, prm, i, f, path, p);
      }
      SweepCovers(g, prm, i + 1, f');
    }
  }

  /**
   * Completeness: when the start positions are visited in increasing order
   * and every edge goes forward, each position some path of the lattice
   * reaches has a sentence in the final frontier.
   */
  lemma FinalCovers(graph: Lattice, prm: Params, path: seq<Edge>, p: nat)
    requires Ordered(graph) && Forward(graph)
    requires Reaches(graph, prm.totalLength, path, p)
    ensures p in Final(graph, prm)
  {
    forall path', p' | Reaches(graph[..0], prm.totalLength, path', p') ensures p' in Initial() {
      assert path' == [] || Usable(graph[..0], prm.totalLength, path'[0]);
    }
    SweepCovers(graph, prm, 0, Initial());
    assert graph[0..] == graph;
  }

  /**
   * What the final frontier holds at the end of the input: a well-formed
   * sentence reaching it along a path of the lattice, with at least two
   * components when the input is not empty; and, for an ordered lattice of
   * forward edges, such a sentence exactly when some path reaches the end.
   */
  lemma FinalAtEnd(graph: Lattice, prm: Params)
    ensures var f := Final(graph, prm);
            prm.totalLength in f ==>
              && (exists path :: Reaches(graph, prm.totalLength, path, prm.totalLength)
                                 && Replay(path, prm) == f[prm.totalLength])
              && WellFormed(f[prm.totalLength]) && f[prm.totalLength].end == prm.totalLength
              && (prm.totalLength > 0 ==> Size(f[prm.totalLength]) >= 2)
    ensures Ordered(graph) && Forward(graph) ==>
              (prm.totalLength in Final(graph, prm) <==>
               exists path :: Reaches(graph, prm.totalLength, path, prm.totalLength))
  {
    var f := Final(graph, prm);
    var n := prm.totalLength;
    FinalDerived(graph, prm);
    if n in f {
      var path :| Reaches(graph, n, path, n) && Replay(path, prm) == f[n];
      if n > 0 {
        AtLeastTwoWords(graph, n, path);
      }
    }
    if Ordered(graph) && Forward(graph) && exists path :: Reaches(graph, n, path, n) {
      var path :| Reaches(graph, n, path, n);
      FinalCovers(graph, prm, path, n);
    }
  }

  /** A lattice holding only words that span the whole input yields no sentence. */
  lemma SingleWordIsNoSentence(entries: seq<DictEntry>, prm: Params)
    requires prm.totalLength > 0
    ensures prm.totalLength !in Final([(0, [(prm.totalLength, entries)])], prm)
  {
    var ends: EndMap := [(prm.totalLength, entries)];
    var graph: Lattice := [(0, ends)];
    assert ends[1..] == [] && graph[1..] == [];
    assert RelaxEnds(Initial(), 0, ends, prm) == Initial();
    assert Final(graph, prm) == Sweep(Initial(), graph[1..], prm);
  }

  /**
   * Two words, one from 0 to `k` and one from `k` to the end, make the
   * two-word sentence; only the second is scored as the rear of the input.
   */
  lemma TwoWordSentence(k: nat, a: DictEntry, b: DictEntry, prm: Params)
    requires 0 < k < prm.totalLength
    ensures var f := Final([(0, [(k, [a])]), (k, [(prm.totalLength, [b])])], prm);
            var first := Extend(Empty(), a, k, false, prm.precedingText, prm.grammar);
            prm.totalLength in f &&
            f[prm.totalLength] == Extend(first, b, prm.totalLength, true, prm.precedingText, prm.grammar)
  {
    var n := prm.totalLength;
    var graph: Lattice := [(0, [(k, [a])]), (k, [(n, [b])])];
    var first := Extend(Empty(), a, k, false, prm.precedingText, prm.grammar);
    var f1 := Initial()[k := first];
    assert [a][1..] == [] && graph[0].1[1..] == [];
    assert RelaxEntries(Initial(), 0, k, [a], prm) == RelaxEntries(f1, 0, k, [], prm);
    assert RelaxEnds(Initial(), 0, graph[0].1, prm) == f1;
    var last := Extend(first, b, n, true, prm.precedingText, prm.grammar);
    var f2 := f1[n := last];
    assert [b][1..] == [] && graph[1].1[1..] == [];
    assert RelaxEntries(f1, k, n, [b], prm) == RelaxEntries(f2, k, n, [], prm);
    assert RelaxEnds(f1, k, graph[1].1, prm) == f2;
    assert graph[1..][1..] == [];
    assert Final(graph, prm) == Sweep(f1, graph[1..], prm) == Sweep(f2, [], prm);
  }
}
