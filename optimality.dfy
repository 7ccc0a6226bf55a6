/**
 * What the sentence kept at each position means once the sweep is over.
 * When the comparator is a strict order and the lattice is ordered with
 * forward edges, the final frontier is a fixed point of the sweep's
 * relaxation step: for every edge that the sweep may use and whose start it
 * reached, the sentence stored at the edge's end does not lose to the
 * sentence at its start extended by that edge.
 */
module Optimality {
  import opened Sentences
  import opened WordGraphs
  import opened Frontiers

  /** Position `p` holds a sentence that `c` does not beat. */
  ghost predicate Settled(f: Frontier, p: nat, c: Sentence, compare: Comparator) {
    p in f && !compare(f[p], c)
  }

  /** The edge (s, t, x) cannot improve on what `f` holds at `t`. */
  ghost predicate EdgeSettled(f: Frontier, s: nat, t: nat, x: DictEntry, prm: Params) {
    s in f ==> Settled(f, t, Candidate(f, s, t, x, prm), prm.compare)
  }

  /** With a strict order, a slot only ever moves to a sentence that beats its occupant, so it never gets worse. */
  lemma OfferKeepsSettled(f: Frontier, pos: nat, c: Sentence, p: nat, x: Sentence, compare: Comparator)
    requires StrictOrder(compare) && Settled(f, p, x, compare)
    ensures Settled(Offer(f, pos, c, compare), p, x, compare)
  {
  }

  lemma {:induction false} RelaxEntriesKeepsSettled(f: Frontier, start: nat, endPos: nat,
                                                    entries: seq<DictEntry>, prm: Params, p: nat, x: Sentence)
    requires StrictOrder(prm.compare) && start in f && Settled(f, p, x, prm.compare)
    ensures Settled(RelaxEntries(f, start, endPos, entries, prm), p, x, prm.compare)
    decreases |entries|
  {
    if entries != [] {
      var c := Candidate(f, start, endPos, entries[0], prm);
      OfferKeepsSettled(f, endPos, c, p, x, prm.compare);
      RelaxEntriesKeepsSettled(Offer(f, endPos, c, prm.compare), start, endPos, entries[1..], prm, p, x);
    }
  }

  lemma {:induction false} RelaxEndsKeepsSettled(f: Frontier, start: nat, ends: EndMap, prm: Params,
                                                 p: nat, x: Sentence)
    requires StrictOrder(prm.compare) && start in f && Settled(f, p, x, prm.compare)
    ensures Settled(RelaxEnds(f, start, ends, prm), p, x, prm.compare)
    decreases |ends|
  {
    if ends != [] {
      if !(start == 0 && ends[0].0 == prm.totalLength) {
        RelaxEntriesKeepsSettled(f, start, ends[0].0, ends[0].1, prm, p, x);
      }
      var f' := if start == 0 && ends[0].0 == prm.totalLength then f
                else RelaxEntries(f, start, ends[0].0, ends[0].1, prm);
      RelaxEndsKeepsSettled(f', start, ends[1..], prm, p, x);
    }
  }

  lemma {:induction false} SweepKeepsSettled(f: Frontier, graph: Lattice, prm: Params, p: nat, x: Sentence)
    requires StrictOrder(prm.compare) && Settled(f, p, x, prm.compare)
    ensures Settled(Sweep(f, graph, prm), p, x, prm.compare)
    decreases |graph|
  {
    if graph != [] {
      if graph[0].0 in f {
        RelaxEndsKeepsSettled(f, graph[0].0, graph[0].1, prm, p, x);
      }
      var f' := if graph[0].0 !in f then f else RelaxEnds(f, graph[0].0, graph[0].1, prm);
      SweepKeepsSettled(f', graph[1..], prm, p, x);
    }
  }

  /** Relaxing edges into `endPos` leaves every other position as it was. */
  lemma {:induction false} RelaxEntriesElsewhere(f: Frontier, start: nat, endPos: nat,
                                                 entries: seq<DictEntry>, prm: Params, p: nat)
    requires start in f && p in f && p != endPos
    ensures RelaxEntries(f, start, endPos, entries, prm)[p] == f[p]
    decreases |entries|
  {
    if entries != [] {
      var f' := Offer(f, endPos, Candidate(f, start, endPos, entries[0], prm), prm.compare);
      RelaxEntriesElsewhere(f', start, endPos, entries[1..], prm, p);
    }
  }

  /** Relaxing edges that all end after `p` leaves position `p` as it was. */
  lemma {:induction false} RelaxEndsBefore(f: Frontier, start: nat, ends: EndMap, prm: Params, p: nat)
    requires start in f && p in f
    requires forall j :: 0 <= j < |ends| ==> p < ends[j].0
    ensures RelaxEnds(f, start, ends, prm)[p] == f[p]
    decreases |ends|
  {
    if ends != [] {
      if !(start == 0 && ends[0].0 == prm.totalLength) {
        RelaxEntriesElsewhere(f, start, ends[0].0, ends[0].1, prm, p);
      }
      var f' := if start == 0 && ends[0].0 == prm.totalLength then f
                else RelaxEntries(f, start, ends[0].0, ends[0].1, prm);
      RelaxEndsBefore(f', start, ends[1..], prm, p);
    }
  }

  /**
   * Sweeping forward edges whose starts all lie at or after `p` neither
   * adds position `p` nor changes it.
   */
  lemma {:induction false} SweepBefore(f: Frontier, graph: Lattice, prm: Params, p: nat)
    requires Forward(graph)
    requires forall i :: 0 <= i < |graph| ==> p <= graph[i].0
    ensures p in Sweep(f, graph, prm) <==> p in f
    ensures p in f ==> Sweep(f, graph, prm)[p] == f[p]
    decreases |graph|
  {
    if graph != [] {
      var s := graph[0].0;
      var f' := if s !in f then f else RelaxEnds(f, s, graph[0].1, prm);
      assert forall j :: 0 <= j < |graph[0].1| ==> p < graph[0].1[j].0;
      if s in f {
        RelaxEndsAbsent(f, s, graph[0].1, prm, p);
        if p in f {
          RelaxEndsBefore(f, s, graph[0].1, prm, p);
        }
      }
      assert forall i :: 0 <= i < |graph[1..]| ==> graph[1..][i] == graph[i + 1];
      SweepBefore(f', graph[1..], prm, p);
    }
  }

  /** Relaxing edges that all end after `p` does not add position `p`. */
  lemma {:induction false} RelaxEndsAbsent(f: Frontier, start: nat, ends: EndMap, prm: Params, p: nat)
    requires start in f
    requires forall j :: 0 <= j < |ends| ==> p < ends[j].0
    ensures p in RelaxEnds(f, start, ends, prm) <==> p in f
    decreases |ends|
  {
    if ends != [] {
      var f' := if start == 0 && ends[0].0 == prm.totalLength then f
                else RelaxEntries(f, start, ends[0].0, ends[0].1, prm);
      RelaxEndsAbsent(f', start, ends[1..], prm, p);
    }
  }

  /** After relaxing the entries of (start, endPos), each of them is settled there. */
  lemma {:induction false} RelaxEntriesSettles(f: Frontier, start: nat, endPos: nat,
                                               entries: seq<DictEntry>, prm: Params, x: DictEntry)
    requires StrictOrder(prm.compare) && start in f && start != endPos && x in entries
    ensures Settled(RelaxEntries(f, start, endPos, entries, prm), endPos,
                    Candidate(f, start, endPos, x, prm), prm.compare)
    decreases |entries|
  {
    var c := Candidate(f, start, endPos, entries[0], prm);
    var f' := Offer(f, endPos, c, prm.compare);
    assert f'[start] == f[start];
    if x == entries[0] {
      assert Settled(f', endPos, c, prm.compare);
      RelaxEntriesKeepsSettled(f', start, endPos, entries[1..], prm, endPos, c);
    } else {
      RelaxEntriesSettles(f', start, endPos, entries[1..], prm, x);
    }
  }

  /** After relaxing every edge leaving `start`, each one the sweep may use is settled. */
  lemma {:induction false} RelaxEndsSettles(f: Frontier, start: nat, ends: EndMap, prm: Params,
                                            j: nat, x: DictEntry)
    requires StrictOrder(prm.compare) && start in f
    requires forall j' :: 0 <= j' < |ends| ==> start < ends[j'].0
    requires j < |ends| && x in ends[j].1 && !(start == 0 && ends[j].0 == prm.totalLength)
    ensures Settled(RelaxEnds(f, start, ends, prm), ends[j].0,
                    Candidate(f, start, ends[j].0, x, prm), prm.compare)
    decreases |ends|
  {
    var skip := start == 0 && ends[0].0 == prm.totalLength;
    var f' := if skip then f else RelaxEntries(f, start, ends[0].0, ends[0].1, prm);
    if !skip {
      RelaxEntriesElsewhere(f, start, ends[0].0, ends[0].1, prm, start);
    }
    assert f'[start] == f[start];
    if j == 0 {
      RelaxEntriesSettles(f, start, ends[0].0, ends[0].1, prm, x);
      RelaxEndsKeepsSettled(f', start, ends[1..], prm, ends[0].0, Candidate(f, start, ends[0].0, x, prm));
    } else {
      RelaxEndsSettles(f', start, ends[1..], prm, j - 1, x);
    }
  }

  /** Sweeping the start positions from the `i`-th on settles every edge leaving them. */
  lemma {:induction false} SweepSettles(g: Lattice, prm: Params, i: nat, f: Frontier)
    requires Ordered(g) && Forward(g) && StrictOrder(prm.compare) && i <= |g|
    ensures forall i', j, x :: i <= i' < |g| && 0 <= j < |g[i'].1| && x in g[i'].1[j].1 &&
                               !(g[i'].0 == 0 && g[i'].1[j].0 == prm.totalLength) ==>
              EdgeSettled(Sweep(f, g[i..], prm), g[i'].0, g[i'].1[j].0, x, prm)
    decreases |g| - i
  {
    if i < |g| {
      var s := g[i].0;
      var f' := if s !in f then f else RelaxEnds(f, s, g[i].1, prm);
      assert g[i..][1..] == g[i + 1..];
      var F := Sweep(f', g[i + 1..], prm);
      assert Sweep(f, g[i..], prm) == F;
      SweepSettles(g, prm, i + 1, f');
      forall j, x | 0 <= j < |g[i].1| && x in g[i].1[j].1 && !(s == 0 && g[i].1[j].0 == prm.totalLength)
        ensures EdgeSettled(F, s, g[i].1[j].0, x, prm)
      {
        var rest := g[i + 1..];
        assert forall i' :: 0 <= i' < |rest| ==> s <= rest[i'].0;
        SweepBefore(f', rest, prm, s);
        if s in f {
          RelaxEndsBefore(f, s, g[i].1, prm, s);
          RelaxEndsSettles(f, s, g[i].1, prm, j, x);
          SweepKeepsSettled(f', g[i + 1..], prm, g[i].1[j].0, Candidate(f, s, g[i].1[j].0, x, prm));
        }
      }
    }
  }

  /**
   * The final frontier is a fixed point of relaxation: for every edge the
   * sweep may use, whose start it reached, the sentence stored at the
   * edge's end is not beaten by the start's sentence extended along it.
   */
  lemma FinalSettled(graph: Lattice, prm: Params, e: Edge)
    requires Ordered(graph) && Forward(graph) && StrictOrder(prm.compare)
    requires Usable(graph, prm.totalLength, e)
    ensures EdgeSettled(Final(graph, prm), e.start, e.end, e.entry, prm)
  {
    SweepSettles(graph, prm, 0, Initial());
    assert graph[0..] == graph;
    var i :| 0 <= i < |graph| && graph[i].0 == e.start && EndsHave(graph[i].1, e.end, e.entry);
    var j :| 0 <= j < |graph[i].1| && graph[i].1[j].0 == e.end && e.entry in graph[i].1[j].1;
  }
}
