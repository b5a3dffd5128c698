/** The order of the results list and the colour of a score. The list is
    `[...filteredNeighborhoods].sort((a, b) => scoreB - scoreA)`; `sort` is stable, so the
    result is the one order with non-increasing scores in which equal scores keep filter
    order. The model sorts (position, neighbourhood) entries by (score descending, position
    ascending), a total order whose sorted arrangement is exactly that one. */
module Ranking {
  import opened Common
  import opened Filter
  import opened Scoring
  import opened Sorting

  /** `state.neighborhoodScores[name]?.finalScore || 0`. */
  function ScoreOf(scores: map<string, Scored>, name: string): real {
    if name in scores then scores[name].finalScore else 0.0
  }

  /** A filtered neighbourhood with its position in the filter output. */
  type Entry = (nat, Candidate)

  function Indexed(ns: seq<Candidate>): (es: seq<Entry>)
    ensures |es| == |ns|
    ensures forall i :: 0 <= i < |ns| ==> es[i] == (i, ns[i])
  {
    seq(|ns|, i requires 0 <= i < |ns| => (i, ns[i]))
  }

  /** Higher score first; on equal scores, earlier filter position first. */
  function RanksBefore(scores: map<string, Scored>): (Entry, Entry) -> bool {
    (a: Entry, b: Entry) =>
      ScoreOf(scores, a.1.name) > ScoreOf(scores, b.1.name) ||
      (ScoreOf(scores, a.1.name) == ScoreOf(scores, b.1.name) && a.0 <= b.0)
  }

  function RankedEntries(ns: seq<Candidate>, scores: map<string, Scored>): seq<Entry> {
    InsertionSort(Indexed(ns), RanksBefore(scores))
  }

  /** The results list, best first. */
  function Ranked(ns: seq<Candidate>, scores: map<string, Scored>): (rs: seq<Candidate>)
    ensures |rs| == |ns|
  {
    var es := RankedEntries(ns, scores);
    seq(|es|, k requires 0 <= k < |es| => es[k].1)
  }

  lemma RanksBeforeTotal(scores: map<string, Scored>)
    ensures TotalPreorder(RanksBefore(scores))
  {
    var le := RanksBefore(scores);
    forall a: Entry, b: Entry
      ensures le(a, b) || le(b, a)
    {
    }
    forall a: Entry, b: Entry, c: Entry | le(a, b) && le(b, c)
      ensures le(a, c)
    {
    }
  }

  /** The results list holds every filtered neighbourhood exactly once: entry k is the one
      at filter position `es[k].0`, every position appears, and none appears twice. */
  lemma RankingIsPermutation(ns: seq<Candidate>, scores: map<string, Scored>)
    ensures var es := RankedEntries(ns, scores);
      && |es| == |ns|
      && (forall k :: 0 <= k < |es| ==> es[k].0 < |ns| && es[k].1 == ns[es[k].0])
      && (forall i :: 0 <= i < |ns| ==> (i, ns[i]) in es)
      && (forall k, l :: 0 <= k < l < |es| ==> es[k].0 != es[l].0)
  {
    var xs := Indexed(ns);
    var es := RankedEntries(ns, scores);
    forall k | 0 <= k < |es|
      ensures es[k].0 < |ns| && es[k].1 == ns[es[k].0]
    {
      assert es[k] in multiset(xs);
    }
    forall i | 0 <= i < |ns|
      ensures (i, ns[i]) in es
    {
      assert xs[i] in multiset(es);
    }
    assert forall a, b :: 0 <= a < b < |xs| ==> xs[a] != xs[b];
    NoRepeats(es, xs);
  }

  /** Scores never increase down the results list, and neighbourhoods with equal scores keep
      their filter order. */
  lemma RankingOrder(ns: seq<Candidate>, scores: map<string, Scored>)
    ensures var es := RankedEntries(ns, scores);
      forall k, l :: 0 <= k < l < |es| ==>
        ScoreOf(scores, es[k].1.name) > ScoreOf(scores, es[l].1.name) ||
        (ScoreOf(scores, es[k].1.name) == ScoreOf(scores, es[l].1.name) && es[k].0 < es[l].0)
  {
    var le := RanksBefore(scores);
    var es := RankedEntries(ns, scores);
    RanksBeforeTotal(scores);
    InsertionSortSorted(Indexed(ns), le);
    RankingIsPermutation(ns, scores);
    forall k, l | 0 <= k < l < |es|
      ensures ScoreOf(scores, es[k].1.name) > ScoreOf(scores, es[l].1.name) ||
        (ScoreOf(scores, es[k].1.name) == ScoreOf(scores, es[l].1.name) && es[k].0 < es[l].0)
    {
      assert le(es[k], es[l]);
    }
  }

  /** Down the results list scores never increase. */
  lemma RankedScoresDescend(ns: seq<Candidate>, scores: map<string, Scored>)
    ensures var rs := Ranked(ns, scores);
      forall k, l :: 0 <= k < l < |rs| ==> ScoreOf(scores, rs[k].name) >= ScoreOf(scores, rs[l].name)
  {
    RankingOrder(ns, scores);
  }

  // ---------------------------------------------------------------- colour

  const Red: string := "#e74c3c"
  const Orange: string := "#f39c12"
  const Green: string := "#27ae60"

  /** `getScoreColor`: red below 0.33, orange below 0.66, green from 0.66 on. */
  function ScoreColor(score: real): (color: string)
    ensures color in {Red, Orange, Green}
    ensures color == Red <==> score < 0.33
    ensures color == Green <==> score >= 0.66
  {
    if score < 0.33 then Red
    else if score < 0.66 then Orange
    else Green
  }

  /** The rank of a colour band, from worst to best. */
  function Band(color: string): nat {
    if color == Red then 0 else if color == Orange then 1 else 2
  }

  /** A higher score never gets a worse colour. */
  lemma ScoreColorMonotone(s1: real, s2: real)
    requires s1 <= s2
    ensures Band(ScoreColor(s1)) <= Band(ScoreColor(s2))
  {
  }
}
