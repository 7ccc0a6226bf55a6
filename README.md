# Sentence-making in the RIME poet, in Dafny

This project models the sentence-making core of RIME's `Poet`
(`src/rime/gear/poet.cc`). The poet receives a word lattice (`WordGraph`),
which maps each start position to end positions, and each end position to
the dictionary entries that span that stretch of the input. It builds one
sentence covering the whole input, keeping at each position only the sentence
the comparator prefers.

`MakeSentence` does this with a dynamic-programming sweep. A frontier maps
each position to the one sentence kept for it so far:

- Position 0 starts with the empty sentence.
- Start positions are visited in increasing order. A start position that has
  not been reached is skipped.
- Every entry of every edge extends the sentence at the edge's start by one
  component. The one exception is a single word spanning the whole input.
- The extended sentence is stored at the edge's end when that slot is empty,
  or when the poet's comparator prefers it to the slot's occupant.

The result is the sentence at the end of the input, or none. The default
comparator, `LeftAssociateCompare`, checks three keys in order: a higher
weight wins; then fewer components win; then the lexicographically greater
sequence of syllable lengths wins.

Layout, one module per file:

- `sentence.dfy` (`Sentences`): dictionary entries, sentences and
  `Sentence::Extend`. The grammar is a total scoring function.
- `lexicographic.dfy` (`Lexicographic`): `std::lexicographical_compare` on
  syllable lengths. Proved equal to the textbook index-based definition, and
  proved to be a strict total order.
- `word_graph.dfy` (`WordGraphs`): the lattice as two levels of ordered
  association lists, its edges, and paths through it.
- `frontier.dfy` (`Frontiers`): the sweep as functions over the frontier.
  The loop body is `Offer`; the three loops are `RelaxEntries`, `RelaxEnds`
  and `Sweep`. Also holds the soundness and completeness lemmas.
- `optimality.dfy` (`Optimality`): for an ordered lattice whose edges all go
  forward, and a comparator that is a strict order, the final frontier is a
  fixed point of relaxation.
- `poet.dfy` (`Poet`): `LeftAssociateCompare` with its order lemmas, and
  `MakeSentence` as a method with three nested loops over a frontier map.
  The method is proved equal to the functional sweep.

## Model

| member | source | states |
|---|---|---|
| `Sentences.Empty` | src/rime/gear/poet.cc:49 | the seed sentence has no components, reaches position 0 and is well formed (its syllable lengths add up to its end) |
| `Sentences.Extend` | src/rime/gear/poet.cc:64-66 | extending appends exactly one component and its syllable length (the distance from the old end to the edge's end), moves the end to the edge's end, takes the grammar's weight, and keeps the sentence well formed |
| `Lexicographic.LexLess` | src/rime/gear/poet.cc:38-41 | a proper prefix is lexicographically smaller than the longer sequence; no sequence is smaller than one of its own prefixes, itself included |
| `Lexicographic.LexLessMatchesIndex` | src/rime/gear/poet.cc:38-41 | the element-by-element walk is true exactly when the sequences agree up to an index where the first is smaller, or the first is a proper prefix of the second |
| `Lexicographic.LexLessIrreflexive` | src/rime/gear/poet.cc:38-41 | no syllable-length sequence is lexicographically less than itself |
| `Lexicographic.LexLessTransitive` | src/rime/gear/poet.cc:38-41 | lexicographic less-than is transitive |
| `Lexicographic.LexLessAsymmetric` | src/rime/gear/poet.cc:38-41 | of two sequences, at most one is lexicographically less than the other |
| `Lexicographic.LexLessTotal` | src/rime/gear/poet.cc:38-41 | any two different sequences are ordered one way or the other |
| `Poet.LeftAssociateCompare` | src/rime/gear/poet.cc:33-42 | a strictly higher weight of `other` makes it true and a strictly lower one false, whatever the sizes; at equal weight, different sizes give true exactly when `one` has more components; at equal weight and size, true exactly when `one`'s syllable lengths are lexicographically smaller (index-based definition) |
| `Poet.LeftAssociateIrreflexive` | src/rime/gear/poet.cc:34-41 | a sentence never replaces itself |
| `Poet.LeftAssociateTransitive` | src/rime/gear/poet.cc:33-42 | if `b` replaces `a` and `c` replaces `b`, then `c` replaces `a` |
| `Poet.LeftAssociateTrichotomy` | src/rime/gear/poet.cc:33-42 | sentences that differ in weight, size or syllable lengths are ordered in exactly one direction; sentences equal on all three are ordered in neither |
| `Poet.LeftAssociateIsStrictOrder` | src/rime/gear/poet.cc:33-42 | the default comparator is irreflexive and transitive |
| `Frontiers.Initial` | src/rime/gear/poet.cc:49 | before the sweep, only position 0 is reached, by the empty, well-formed sentence |
| `Frontiers.Candidate` | src/rime/gear/poet.cc:61-66 | the candidate for an entry is the start's sentence with the entry and its syllable length appended, ending at the edge's end, scored as the rear exactly when the edge ends at total_length, and well formed when the start's sentence is |
| `Frontiers.Offer` | src/rime/gear/poet.cc:67-72 | a frontier slot is filled when empty and replaced only when the comparator prefers the candidate; no other slot changes and no key is removed |
| `Frontiers.RelaxEntries` | src/rime/gear/poet.cc:63-74 | offering the entries of one edge adds the edge's end to the frontier (when there is an entry) and removes nothing |
| `Frontiers.RelaxEnds` | src/rime/gear/poet.cc:56-75 | relaxing the edges from one start position never removes a frontier position |
| `Frontiers.Sweep` | src/rime/gear/poet.cc:51-76 | the sweep over the start positions never removes a frontier position |
| `Frontiers.Final` | src/rime/gear/poet.cc:48-76 | after the whole sweep position 0 is still reached, and every sentence in the frontier is well formed and ends at the position it is stored at |
| `Frontiers.Replay` | src/rime/gear/poet.cc:64-66 | a sentence built along a path has one component per edge, in path order, ends at the path's end and is well formed |
| `Frontiers.FinalDerived` | src/rime/gear/poet.cc:48-76 | every sentence in the final frontier is the replay, from the empty sentence, of a path of lattice edges to its position that never uses the single word (0, total_length) |
| `Frontiers.FinalCovers` | src/rime/gear/poet.cc:51-76 | for an ordered lattice of forward edges, every position some path reaches has a sentence in the final frontier |
| `Frontiers.FinalAtEnd` | src/rime/gear/poet.cc:77-80 | a sentence at total_length is well formed, ends there, is built along a lattice path, and has at least two components when the input is not empty; for forward lattices one exists exactly when a path covers the input |
| `Frontiers.SingleWordIsNoSentence` | src/rime/gear/poet.cc:58-59 | a lattice with only whole-input words yields no sentence |
| `Frontiers.TwoWordSentence` | src/rime/gear/poet.cc:49-80 | words (0, k) and (k, total_length) yield exactly the empty sentence extended by the first word, then by the second; only the second is flagged as the rear |
| `WordGraphs.ReachesExtend` | src/rime/gear/poet.cc:64-66 | a path to an edge's start, followed by that usable edge, is a path to the edge's end |
| `WordGraphs.AtLeastTwoWords` | src/rime/gear/poet.cc:58-59 | every path that covers a non-empty input has at least two edges |
| `Optimality.OfferKeepsSettled` | src/rime/gear/poet.cc:67-72 | with a strict-order comparator, storing a candidate never makes a slot worse than a sentence it already did not lose to |
| `Optimality.SweepKeepsSettled` | src/rime/gear/poet.cc:51-76 | with a strict-order comparator, the rest of the sweep never makes a slot worse |
| `Optimality.FinalSettled` | src/rime/gear/poet.cc:51-76 | for an ordered lattice of forward edges and a strict-order comparator, no usable edge from a reached position, applied to that position's final sentence, beats the final sentence at the edge's end |
| `Poet.KeepsOnlyOneSentencePerPosition` | src/rime/gear/poet.cc:47-72 | on a two-syllable lattice whose grammar favours the second word only after the weaker first word, the returned sentence loses, under the default comparator, to another sentence built along a path that covers the input |
| `Poet.MakeSentence` | src/rime/gear/poet.cc:44-81 | the method returns the final frontier's entry at total_length, or `None` when there is none. Any returned sentence is well formed, ends at total_length, is built along a lattice path avoiding the single whole-input word, and has at least two components when total_length > 0. For forward lattices, a sentence is returned exactly when some path covers the input |

## Left out

- The grammar registry and poet construction (`create_grammar`, `Grammar::Require`, `Config`, the constructor and destructor) are not modelled. The grammar is a total function `Scorer`, and the comparator is a parameter of `MakeSentence`.
- The code of `Sentence::Extend`, of the seed sentence's constructor and of `Grammar` is not part of this model. The model takes the syllable length appended by `Extend` to be `end_pos - end()`, the seed's weight to be 0, and the new weight to be the scorer's result; how a grammar scores is not modelled.
- Weights are integers, not floating-point numbers. The comparator needs only `<` and `==`.
- Syllable lengths are unbounded integers. The source stores them as `size_t`, which wraps on a backward edge; that wrap-around is not modelled.
- The sentence's text, the entry's text and code, and the `Language` pointer are left out. A dictionary entry is an opaque token that carries only an identity.
- `DLOG` logging is left out; it has no behavioural effect.
- Shared-pointer ownership is modelled as value copying (`an<Sentence>`, `New<>`, `std::move`). The copy-then-extend step therefore cannot alias another frontier slot.
- `Poet.MakeSentence`: completeness (every covering path yields a result) is stated only for lattices whose edges go forward. Optimality (`Optimality.FinalSettled`) is additionally stated only for comparators that are strict orders. For other lattices and comparators, the model states what the code does (`Frontiers.Sweep`) but not a completeness or optimality guarantee.
- `Optimality.FinalSettled`: only the fixed point of relaxation is proved, not that the result is the best of all covering sentences. It is not: the sweep keeps one sentence per position while the grammar scores an entry against the sentence it extends, and `Poet.KeepsOnlyOneSentencePerPosition` exhibits a lattice where a better covering sentence exists.
