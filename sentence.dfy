/**
 * A sentence is the composite reading that the poet grows one dictionary
 * entry at a time: the entries chosen so far, the weight the grammar gave
 * the whole, the number of input syllables each entry covers, and the input
 * position the sentence reaches.
 */
module Sentences {

  /** A dictionary entry, opaque to the sentence-maker apart from its identity. */
  datatype DictEntry = DictEntry(id: nat)

  datatype Sentence = Sentence(
    components: seq<DictEntry>,
    weight: int,
    syllableLengths: seq<int>,
    end: nat)

  /**
   * The grammar: given the sentence so far, the entry appended to it, whether
   * the entry ends the input, and the text preceding the input, the weight of
   * the extended sentence. A poet without a grammar uses a default rule, which
   * is just another such function.
   */
  type Scorer = (Sentence, DictEntry, bool, string) -> int

  /** Number of components, `Sentence::size()`. */
  function Size(s: Sentence): nat {
    |s.components|
  }

  function Sum(xs: seq<int>): int {
    if xs == [] then 0 else Sum(xs[..|xs| - 1]) + xs[|xs| - 1]
  }

  /**
   * One syllable length per component, and the lengths add up to the
   * position the sentence reaches.
   */
  predicate WellFormed(s: Sentence) {
    |s.syllableLengths| == |s.components| && Sum(s.syllableLengths) == s.end
  }

  /** The sentence a poet starts from: nothing chosen, reaching position 0. */
  function Empty(): (s: Sentence)
    ensures WellFormed(s) && Size(s) == 0 && s.end == 0
  {
    Sentence([], 0, [], 0)
  }

  /**
   * `Sentence::Extend`: append one entry covering the input up to `endPos`;
   * the syllable length recorded for it is the distance from the old end.
   */
  function Extend(s: Sentence, entry: DictEntry, endPos: nat, isRear: bool,
                  precedingText: string, grammar: Scorer): (r: Sentence)
    ensures r.components == s.components + [entry]
    ensures r.syllableLengths == s.syllableLengths + [endPos - s.end]
    ensures r.end == endPos
    ensures r.weight == grammar(s, entry, isRear, precedingText)
    ensures WellFormed(s) ==> WellFormed(r)
  {
    var r := Sentence(s.components + [entry],
                      grammar(s, entry, isRear, precedingText),
                      s.syllableLengths + [endPos - s.end],
                      endPos);
    assert r.syllableLengths[..|r.syllableLengths| - 1] == s.syllableLengths;
    r
  }
}
