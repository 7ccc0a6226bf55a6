/**
 * The poet: its default comparator, `LeftAssociateCompare`, and
 * `MakeSentence`, which sweeps the word lattice keeping, at every position,
 * the one sentence the comparator prefers among those it built there, and
 * returns the one reaching the end of the input, if any.
 */
module Poet {
  import opened Sentences
  import opened Lexicographic
  import opened WordGraphs
  import opened Frontiers

  datatype Option<T> = None | Some(value: T)

  /**
   * True when `other` should replace `one`: a higher weight wins; at equal
   * weight fewer components win; at equal weight and size the sentence whose
   * syllable lengths are lexicographically greater wins.
   */
  function LeftAssociateCompare(one: Sentence, other: Sentence): (b: bool)
    ensures one.weight < other.weight ==> b
    ensures other.weight < one.weight ==> !b
    ensures one.weight == other.weight && Size(one) != Size(other) ==> (b <==> Size(one) > Size(other))
    ensures one.weight == other.weight && Size(one) == Size(other) ==>
              (b <==> LexLessByIndex(one.syllableLengths, other.syllableLengths))
  {
    LexLessMatchesIndex(one.syllableLengths, other.syllableLengths);
    one.weight < other.weight || (
      one.weight == other.weight && (
        Size(one) > Size(other) || (
          Size(one) == Size(other) &&
          LexLess(one.syllableLengths, other.syllableLengths))))
  }

  /** The three keys the comparator looks at. */
  function Key(s: Sentence): (int, nat, seq<int>) {
    (s.weight, Size(s), s.syllableLengths)
  }

  lemma LeftAssociateIrreflexive(s: Sentence)
    ensures !LeftAssociateCompare(s, s)
  {
  }

  lemma LeftAssociateTransitive(a: Sentence, b: Sentence, c: Sentence)
    requires LeftAssociateCompare(a, b) && LeftAssociateCompare(b, c)
    ensures LeftAssociateCompare(a, c)
  {
    if a.weight == b.weight == c.weight && Size(a) == Size(b) == Size(c) {
      LexLessTransitive(a.syllableLengths, b.syllableLengths, c.syllableLengths);
    }
  }

  /**
   * Two sentences that differ in any key are ordered one way or the other,
   * never both; two that agree on all keys are not ordered at all.
   */
  lemma LeftAssociateTrichotomy(a: Sentence, b: Sentence)
    ensures Key(a) != Key(b) ==> (LeftAssociateCompare(a, b) != LeftAssociateCompare(b, a))
    ensures Key(a) == Key(b) ==> !LeftAssociateCompare(a, b) && !LeftAssociateCompare(b, a)
  {
    if a.weight == b.weight && Size(a) == Size(b) {
      if a.syllableLengths != b.syllableLengths {
        LexLessTotal(a.syllableLengths, b.syllableLengths);
        if LexLess(a.syllableLengths, b.syllableLengths) {
          LexLessAsymmetric(a.syllableLengths, b.syllableLengths);
        } else {
          LexLessAsymmetric(b.syllableLengths, a.syllableLengths);
        }
      } else {
        LexLessIrreflexive(a.syllableLengths);
      }
    }
  }

  /** The default comparator is a strict order, so the frontier never gets worse. */
  lemma LeftAssociateIsStrictOrder()
    ensures StrictOrder(LeftAssociateCompare)
  {
    forall a | true
      ensures !LeftAssociateCompare(a, a)
    {
      LeftAssociateIrreflexive(a);
    }
    forall a, b, c | LeftAssociateCompare(a, b) && LeftAssociateCompare(b, c)
      ensures LeftAssociateCompare(a, c)
    {
      LeftAssociateTransitive(a, b, c);
    }
  }

  // A lattice with two readings of the first syllable, `wordA` and `wordA2`,
  // and one of the second, `wordB`; the grammar likes `wordB` only after
  // `wordA2`.
  const wordA := DictEntry(0)
  const wordA2 := DictEntry(1)
  const wordB := DictEntry(2)

  function ExampleGraph(): Lattice {
    [(0, [(1, [wordA, wordA2])]), (1, [(2, [wordB])])]
  }

  function ExampleGrammar(s: Sentence, x: DictEntry, rear: bool, t: string): int {
    if x == wordA then 10 else if x == wordA2 then 5
    else if s.components == [wordA2] then 100 else s.weight
  }

  function ExampleParams(): Params {
    Params(2, "", ExampleGrammar, LeftAssociateCompare)
  }

  /** The path that reads `wordA2`, then `wordB`. */
  function ExamplePath(): seq<Edge> {
    [Edge(0, 1, wordA2), Edge(1, 2, wordB)]
  }

  lemma ExamplePathReaches()
    ensures Reaches(ExampleGraph(), 2, ExamplePath(), 2)
  {
    var graph: Lattice, alt := ExampleGraph(), ExamplePath();
    assert graph[0].1[0].0 == 1 && wordA2 in graph[0].1[0].1;
    assert graph[1].1[0].0 == 2 && wordB in graph[1].1[0].1;
    assert EndsHave(graph[0].1, 1, wordA2) && EndsHave(graph[1].1, 2, wordB);
    assert Usable(graph, 2, alt[0]) && Usable(graph, 2, alt[1]);
    assert alt[..1][..0] == [] && alt[..1] == [alt[0]];
    assert Chain(alt[..1], 1);
  }

  lemma ExamplePathWeight()
    ensures Replay(ExamplePath(), ExampleParams()).weight == 100
  {
    var alt, prm := ExamplePath(), ExampleParams();
    assert alt[..1] == [Edge(0, 1, wordA2)] && alt[..1][..0] == [];
    assert Replay(alt[..1], prm).components == [wordA2];
  }

  lemma ExampleFinal()
    ensures 2 in Final(ExampleGraph(), ExampleParams())
    ensures Final(ExampleGraph(), ExampleParams())[2].weight == 10
  {
    var graph: Lattice, prm := ExampleGraph(), ExampleParams();
    var sa := Extend(Empty(), wordA, 1, false, "", ExampleGrammar);
    var sa2 := Extend(Empty(), wordA2, 1, false, "", ExampleGrammar);
    var f1 := Initial()[1 := sa];
    assert Candidate(Initial(), 0, 1, wordA, prm) == sa;
    assert Candidate(f1, 0, 1, wordA2, prm) == sa2;
    assert !LeftAssociateCompare(sa, sa2);
    assert [wordA, wordA2][1..] == [wordA2] && [wordA2][1..] == [];
    assert RelaxEntries(f1, 0, 1, [wordA2], prm) == RelaxEntries(f1, 0, 1, [], prm);
    assert RelaxEntries(Initial(), 0, 1, [wordA, wordA2], prm) == f1;
    assert graph[0].1[1..] == [];
    assert RelaxEnds(Initial(), 0, graph[0].1, prm) == f1;
    var sb := Extend(sa, wordB, 2, true, "", ExampleGrammar);
    var f2 := f1[2 := sb];
    assert Candidate(f1, 1, 2, wordB, prm) == sb;
    assert [wordB][1..] == [] && graph[1].1[1..] == [];
    assert RelaxEntries(f1, 1, 2, [wordB], prm) == f2;
    assert RelaxEnds(f1, 1, graph[1].1, prm) == f2;
    assert graph[1..][1..] == [];
    assert Final(graph, prm) == Sweep(f1, graph[1..], prm) == f2;
  }

  /**
   * The sweep keeps one sentence per position, and the grammar scores an
   * entry against the sentence it extends, so the sentence it returns need
   * not be the best of all covering sentences. In the lattice above,
   * `wordA` beats `wordA2` at position 1, but the path `wordA2`, `wordB`
   * replays to a sentence the comparator prefers to the result.
   */
  lemma KeepsOnlyOneSentencePerPosition()
    ensures Reaches(ExampleGraph(), 2, ExamplePath(), 2)
    ensures 2 in Final(ExampleGraph(), ExampleParams())
    ensures LeftAssociateCompare(Final(ExampleGraph(), ExampleParams())[2],
                                 Replay(ExamplePath(), ExampleParams()))
  {
    ExamplePathReaches();
    ExamplePathWeight();
    ExampleFinal();
  }

  /**
   * `Poet::MakeSentence`: sweep the lattice by increasing start position;
   * from every reached start position, extend its sentence by every entry of
   * every edge except the single word spanning the whole input, and keep the
   * extension at the edge's end if that slot is empty or `compare` prefers
   * it. The result is the sentence reaching `totalLength`, or `None`.
   */
  method MakeSentence(graph: WordGraph, totalLength: nat, precedingText: string,
                      grammar: Scorer, compare: Comparator) returns (r: Option<Sentence>)
    ensures var f := Final(graph, Params(totalLength, precedingText, grammar, compare));
            r == if totalLength in f then Some(f[totalLength]) else None
    ensures r.Some? ==> exists path :: Reaches(graph, totalLength, path, totalLength) &&
                          Replay(path, Params(totalLength, precedingText, grammar, compare)) == r.value
    ensures r.Some? ==> WellFormed(r.value) && r.value.end == totalLength
    ensures r.Some? && totalLength > 0 ==> Size(r.value) >= 2
    ensures Forward(graph) ==> (r.Some? <==> exists path :: Reaches(graph, totalLength, path, totalLength))
  {
    var prm := Params(totalLength, precedingText, grammar, compare);
    var sentences: Frontier := map[0 := Empty()];
    assert graph[0..] == graph;
    for i := 0 to |graph|
      invariant Sweep(sentences, graph[i..], prm) == Final(graph, prm)
    {
      var (startPos, ends) := graph[i];
      assert graph[i..][1..] == graph[i + 1..];
      if startPos !in sentences {
        continue;
      }
      ghost var atStart := sentences;
      for j := 0 to |ends|
        invariant startPos in sentences
        invariant RelaxEnds(sentences, startPos, ends[j..], prm) == RelaxEnds(atStart, startPos, ends, prm)
      {
        var (endPos, entries) := ends[j];
        assert ends[j..][1..] == ends[j + 1..];
        if startPos == 0 && endPos == totalLength {
          continue;  // a single word is not a sentence
        }
        var isRear := endPos == totalLength;
        ghost var atEnd := sentences;
        for k := 0 to |entries|
          invariant startPos in sentences
          invariant RelaxEntries(sentences, startPos, endPos, entries[k..], prm)
                    == RelaxEntries(atEnd, startPos, endPos, entries, prm)
        {
          assert entries[k..][1..] == entries[k + 1..];
          var newSentence := Extend(sentences[startPos], entries[k], endPos, isRear, precedingText, grammar);
          if endPos !in sentences || compare(sentences[endPos], newSentence) {
            sentences := sentences[endPos := newSentence];
          }
        }
      }
    }
    if totalLength !in sentences {
      r := None;
    } else {
      r := Some(sentences[totalLength]);
    }

    FinalAtEnd(graph, prm);
  }
}
