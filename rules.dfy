/**
 * Status resolution for the competing values of one field (core/rules.py).
 *
 * Every ballot carries the value it is about, its signed vote, whether its
 * author is a valid credential, that credential's trust level, and whether the
 * author is the target person themselves. The scores of all ballots for one
 * value are summed with a weight that depends on who voted, the values are
 * ranked by score, the top one is trusted and the rest are untrusted or, with
 * a negative score, hidden.
 *
 * Trust levels, votes and the anonymous weight 0.1 are exact reals here.
 */
module Rules {
  import opened Wrappers

  /** One tuple `(value, vote, valid, trust_level, is_me)` of the input list. */
  datatype Ballot = Ballot(value: string, vote: real, valid: bool, trustLevel: real, isMe: bool)

  /** The three statuses the function hands out: `True`, `False` and `None`. */
  datatype Status = Trusted | Untrusted | Hidden

  /** One triple `(value, status, score)` of the result list. */
  datatype Entry = Entry(value: string, status: Status, score: real)

  /** Indexing the empty ranking at `vs[0]` raises. */
  datatype Error = IndexError

  /**
   * The weight a ballot adds to its value's score. A zero vote adds nothing,
   * and with a non-negative trust level a ballot never pulls its value's
   * score against the direction of its vote.
   */
  function Contribution(b: Ballot): (r: real)
    ensures b.vote == 0.0 ==> r == 0.0
    ensures b.trustLevel >= 0.0 && r > 0.0 ==> b.vote > 0.0
    ensures b.trustLevel >= 0.0 && r < 0.0 ==> b.vote < 0.0
  {
    if b.isMe then b.vote * b.trustLevel * 10.0      // own edits are trusted a bit more
    else if b.valid then b.vote * b.trustLevel
    else b.vote * 0.1                                 // anonymous
  }

  /** The aggregated score of `value`: the sum of the contributions of its ballots. */
  function Score(ballots: seq<Ballot>, value: string): real
  {
    if ballots == [] then 0.0
    else
      var last := ballots[|ballots| - 1];
      Score(ballots[..|ballots| - 1], value) + (if last.value == value then Contribution(last) else 0.0)
  }

  /** The distinct values mentioned by the ballots. */
  function Values(ballots: seq<Ballot>): set<string>
  {
    set i | 0 <= i < |ballots| :: ballots[i].value
  }

  /** The values in a ranking, in any order. */
  function RankedValues(ranked: seq<(string, real)>): set<string>
  {
    set i | 0 <= i < |ranked| :: ranked[i].0
  }

  predicate DistinctValues(ranked: seq<(string, real)>)
  {
    forall i, j :: 0 <= i < j < |ranked| ==> ranked[i].0 != ranked[j].0
  }

  /** Scores never increase along the ranking. */
  predicate NonIncreasing(ranked: seq<(string, real)>)
  {
    forall i, j :: 0 <= i < j < |ranked| ==> ranked[i].1 >= ranked[j].1
  }

  /** The status rule: the top entry is trusted, later ones are hidden exactly when negative. */
  function StatusAt(rank: nat, score: real): Status
  {
    if rank == 0 then Trusted else if score < 0.0 then Hidden else Untrusted
  }

  /** A value no ballot mentions has score zero. */
  lemma {:induction false} ScoreOfAbsentValue(ballots: seq<Ballot>, value: string)
    requires value !in Values(ballots)
    ensures Score(ballots, value) == 0.0
  {
    if ballots != [] {
      var init := ballots[..|ballots| - 1];
      assert Values(init) <= Values(ballots) by {
        forall v | v in Values(init) ensures v in Values(ballots) {
          var i :| 0 <= i < |init| && init[i].value == v;
          assert ballots[i].value == v;
        }
      }
      ScoreOfAbsentValue(init, value);
      assert ballots[|ballots| - 1].value in Values(ballots);
    }
  }

  /** Scores add up over concatenation of ballot lists. */
  lemma {:induction false} ScoreConcat(a: seq<Ballot>, b: seq<Ballot>, value: string)
    ensures Score(a + b, value) == Score(a, value) + Score(b, value)
  {
    if b != [] {
      var init := b[..|b| - 1];
      assert (a + b)[..|a + b| - 1] == a + init;
      ScoreConcat(a, init, value);
    } else {
      assert a + b == a;
    }
  }

  /**
   * The score of a value does not depend on the order in which the ballots
   * arrive: any two lists holding the same ballots give every value the same
   * score.
   */
  lemma {:induction false} ScoreOrderIndependent(a: seq<Ballot>, b: seq<Ballot>, value: string)
    requires multiset(a) == multiset(b)
    ensures Score(a, value) == Score(b, value)
    decreases |a|
  {
    if a == [] {
      assert |b| == |multiset(b)| == 0;
    } else {
      var init, last := a[..|a| - 1], a[|a| - 1];
      assert a == init + [last];
      assert last in multiset(b) by { assert last in multiset(a); }
      var j :| 0 <= j < |b| && b[j] == last;
      assert b == b[..j] + [last] + b[j + 1..];
      MultisetCancel(init, last, b[..j], b[j + 1..]);
      ScoreOrderIndependent(init, b[..j] + b[j + 1..], value);
      ScoreWithout(b, j, value);
    }
  }

  /** Taking the same ballot out of two lists with the same ballots leaves the same ballots. */
  lemma MultisetCancel(init: seq<Ballot>, last: Ballot, front: seq<Ballot>, back: seq<Ballot>)
    requires multiset(init + [last]) == multiset(front + [last] + back)
    ensures multiset(init) == multiset(front + back)
  {
    assert multiset(init + [last]) == multiset(init) + multiset{last};
    assert multiset(front + [last] + back) == multiset(front) + multiset{last} + multiset(back);
    assert multiset(front + back) == multiset(front) + multiset(back);
    forall x ensures multiset(init)[x] == multiset(front + back)[x] {
      assert (multiset(init) + multiset{last})[x] == (multiset(front) + multiset{last} + multiset(back))[x];
    }
  }

  /** The score with the ballot at `j` is the score without it plus its contribution. */
  lemma ScoreWithout(b: seq<Ballot>, j: nat, value: string)
    requires j < |b|
    ensures Score(b, value) == Score(b[..j] + b[j + 1..], value) + (if b[j].value == value then Contribution(b[j]) else 0.0)
  {
    var front, back := b[..j], b[j + 1..];
    assert b == front + [b[j]] + back;
    ScoreConcat(front, back, value);
    ScoreConcat(front + [b[j]], back, value);
    ScoreConcat(front, [b[j]], value);
    assert [b[j]][..0] == [];
  }

  /**
   * Sums the weighted votes per distinct value, as the first loop of
   * `get_statuses` does with its `Counter`.
   */
  method Aggregate(ballots: seq<Ballot>) returns (scores: map<string, real>)
    ensures scores.Keys == Values(ballots)
    ensures forall v :: v in scores ==> scores[v] == Score(ballots, v)
  {
    scores := map[];
    var i := 0;
    while i < |ballots|
      invariant 0 <= i <= |ballots|
      invariant scores.Keys == Values(ballots[..i])
      invariant forall v :: v in scores ==> scores[v] == Score(ballots[..i], v)
    {
      var b := ballots[i];
      assert ballots[..i + 1][..i] == ballots[..i];
      if b.value !in scores {
        ScoreOfAbsentValue(ballots[..i], b.value);
      }
      var old_score := if b.value in scores then scores[b.value] else 0.0;
      scores := scores[b.value := old_score + Contribution(b)];
      ValuesSnoc(ballots, i);
      i := i + 1;
    }
    assert ballots[..i] == ballots;
  }

  /** The values of one more ballot are the values before it and its own. */
  lemma ValuesSnoc(ballots: seq<Ballot>, i: nat)
    requires i < |ballots|
    ensures Values(ballots[..i + 1]) == Values(ballots[..i]) + {ballots[i].value}
  {
    var p, q := ballots[..i + 1], ballots[..i];
    forall v | v in Values(p) ensures v in Values(q) + {ballots[i].value} {
      var j :| 0 <= j < i + 1 && p[j].value == v;
      if j < i { assert q[j].value == v; }
    }
    forall v | v in Values(q) ensures v in Values(p) {
      var j :| 0 <= j < i && q[j].value == v;
      assert p[j].value == v;
    }
    assert p[i].value == ballots[i].value;
  }

  /** A ballot list mentions no value exactly when it is empty. */
  lemma ValuesEmpty(ballots: seq<Ballot>)
    ensures Values(ballots) == {} <==> ballots == []
  {
    if ballots != [] {
      assert ballots[0].value in Values(ballots);
    }
  }

  /** Puts `x` into a non-increasing ranking in front of the first entry it is at least as large as. */
  function Insert(ranked: seq<(string, real)>, x: (string, real)): (r: seq<(string, real)>)
    ensures multiset(r) == multiset(ranked) + multiset{x}
  {
    if ranked == [] then [x]
    else if x.1 >= ranked[0].1 then [x] + ranked
    else
      assert ranked == [ranked[0]] + ranked[1..];
      [ranked[0]] + Insert(ranked[1..], x)
  }

  /** A ranking holds exactly the values of the pairs it contains. */
  lemma ValuesOfMultiset(r: seq<(string, real)>, s: seq<(string, real)>, x: (string, real))
    requires multiset(r) == multiset(s) + multiset{x}
    ensures RankedValues(r) == RankedValues(s) + {x.0}
  {
    forall v | v in RankedValues(r) ensures v in RankedValues(s) + {x.0} {
      var i :| 0 <= i < |r| && r[i].0 == v;
      assert r[i] in multiset(r);
      if r[i] != x {
        assert r[i] in multiset(s);
        var k :| 0 <= k < |s| && s[k] == r[i];
      }
    }
    forall v | v in RankedValues(s) + {x.0} ensures v in RankedValues(r) {
      if v == x.0 {
        assert x in multiset(r);
        var k :| 0 <= k < |r| && r[k] == x;
      } else {
        var i :| 0 <= i < |s| && s[i].0 == v;
        assert s[i] in multiset(r);
        var k :| 0 <= k < |r| && r[k] == s[i];
      }
    }
  }

  /** Insertion keeps a ranking non-increasing. */
  lemma {:induction false} InsertNonIncreasing(ranked: seq<(string, real)>, x: (string, real))
    requires NonIncreasing(ranked)
    ensures NonIncreasing(Insert(ranked, x))
  {
    if ranked != [] && x.1 < ranked[0].1 {
      var tail := Insert(ranked[1..], x);
      InsertNonIncreasing(ranked[1..], x);
      var r := Insert(ranked, x);
      assert r == [ranked[0]] + tail;
      forall j | 0 < j < |r| ensures r[0].1 >= r[j].1 {
        assert r[j] in multiset(tail);
        if r[j] != x {
          assert r[j] in multiset(ranked[1..]);
          var k :| 0 <= k < |ranked[1..]| && ranked[1..][k] == r[j];
          assert ranked[k + 1] == r[j];
        }
      }
    }
  }

  /** Insertion of a new value keeps the values of a ranking distinct. */
  lemma {:induction false} InsertDistinct(ranked: seq<(string, real)>, x: (string, real))
    requires DistinctValues(ranked) && x.0 !in RankedValues(ranked)
    ensures DistinctValues(Insert(ranked, x))
  {
    var r := Insert(ranked, x);
    if ranked == [] {
    } else if x.1 >= ranked[0].1 {
      forall j | 0 < j < |r| ensures r[0].0 != r[j].0 {
        assert r[j] == ranked[j - 1];
      }
    } else {
      var rest := ranked[1..];
      var tail := Insert(rest, x);
      forall k | 0 <= k < |rest| ensures rest[k].0 != x.0 && rest[k].0 != ranked[0].0 {
        assert rest[k] == ranked[k + 1];
      }
      InsertDistinct(rest, x);
      ValuesOfMultiset(tail, rest, x);
      assert r == [ranked[0]] + tail;
      forall j | 0 < j < |r| ensures r[0].0 != r[j].0 {
        assert r[j].0 in RankedValues(tail);
      }
    }
  }

  /**
   * Sorts the aggregated `(value, score)` pairs by score, highest first, as
   * `sorted(vs.items(), key=…, reverse=True)` does. The `Counter` hands its
   * items out in an order the program does not fix, so each step picks any
   * remaining value; the order of equal scores is therefore not fixed either.
   */
  method RankByScore(scores: map<string, real>) returns (ranked: seq<(string, real)>)
    ensures RankedValues(ranked) == scores.Keys
    ensures DistinctValues(ranked)
    ensures forall i :: 0 <= i < |ranked| ==> ranked[i].0 in scores && ranked[i].1 == scores[ranked[i].0]
    ensures NonIncreasing(ranked)
  {
    ranked := [];
    var remaining := scores.Keys;
    while remaining != {}
      invariant remaining <= scores.Keys
      invariant RankedValues(ranked) == scores.Keys - remaining
      invariant DistinctValues(ranked)
      invariant NonIncreasing(ranked)
      invariant forall i :: 0 <= i < |ranked| ==> ranked[i].0 in scores && ranked[i].1 == scores[ranked[i].0]
      decreases remaining
    {
      var value :| value in remaining;
      var before := ranked;
      ranked := Insert(ranked, (value, scores[value]));
      ValuesOfMultiset(ranked, before, (value, scores[value]));
      InsertNonIncreasing(before, (value, scores[value]));
      InsertDistinct(before, (value, scores[value]));
      forall i | 0 <= i < |ranked| ensures ranked[i].0 in scores && ranked[i].1 == scores[ranked[i].0] {
        assert ranked[i] in multiset(ranked);
        if ranked[i] != (value, scores[value]) {
          assert ranked[i] in multiset(before);
          var k :| 0 <= k < |before| && before[k] == ranked[i];
        }
      }
      remaining := remaining - {value};
    }
  }

  /** As many ranked entries as distinct values. */
  lemma {:induction false} DistinctCount(ranked: seq<(string, real)>)
    requires DistinctValues(ranked)
    ensures |RankedValues(ranked)| == |ranked|
  {
    if ranked != [] {
      var init := ranked[..|ranked| - 1];
      var last := ranked[|ranked| - 1];
      assert RankedValues(ranked) == RankedValues(init) + {last.0} by {
        forall v | v in RankedValues(ranked) ensures v in RankedValues(init) + {last.0} {
          var i :| 0 <= i < |ranked| && ranked[i].0 == v;
          if i < |init| { assert init[i].0 == v; }
        }
        forall v | v in RankedValues(init) ensures v in RankedValues(ranked) {
          var i :| 0 <= i < |init| && init[i].0 == v;
          assert ranked[i].0 == v;
        }
      }
      forall i | 0 <= i < |init| ensures init[i].0 != last.0 {
        assert init[i] == ranked[i];
      }
      DistinctCount(init);
    }
  }

  /**
   * What `get_statuses` promises of its result list: one entry per distinct
   * value, carrying that value's aggregated score, ranked by score; the first
   * entry is trusted whatever its score, every later one is hidden when its
   * score is negative and untrusted otherwise (a score of exactly zero
   * included).
   */
  ghost predicate IsStatusList(ballots: seq<Ballot>, es: seq<Entry>)
  {
    && es != []
    && |es| == |Values(ballots)|
    && (forall v :: v in Values(ballots) <==> exists i :: 0 <= i < |es| && es[i].value == v)
    && (forall i, j :: 0 <= i < j < |es| ==> es[i].value != es[j].value)
    && (forall i :: 0 <= i < |es| ==> es[i].score == Score(ballots, es[i].value))
    && (forall i, j :: 0 <= i < j < |es| ==> es[i].score >= es[j].score)
    && es[0].status == Trusted
    && (forall i :: 0 < i < |es| ==> es[i].status == (if es[i].score < 0.0 then Hidden else Untrusted))
  }

  /**
   * `get_statuses`: an empty ballot list fails when the ranking is indexed
   * at 0; otherwise the result is a status list for the ballots, and its
   * first entry has the highest score of all values.
   */
  method GetStatuses(ballots: seq<Ballot>) returns (r: Result<seq<Entry>, Error>)
    ensures r.Failure? <==> ballots == []
    ensures r.Success? ==> IsStatusList(ballots, r.value)
    ensures r.Success? ==> forall v :: v in Values(ballots) ==> Score(ballots, v) <= r.value[0].score
  {
    var scores := Aggregate(ballots);
    var ranked := RankByScore(scores);
    ValuesEmpty(ballots);
    RankedValuesEmpty(ranked);
    if |ranked| == 0 {
      return Failure(IndexError);
    }
    var result := AssignStatuses(ranked);
    StatusListOfRanking(ballots, scores, ranked, result);
    r := Success(result);
  }

  /** A ranking holds no value exactly when it is empty. */
  lemma RankedValuesEmpty(ranked: seq<(string, real)>)
    ensures RankedValues(ranked) == {} <==> ranked == []
  {
    if ranked != [] {
      assert ranked[0].0 in RankedValues(ranked);
    }
  }

  /**
   * The second loop of `get_statuses`: the top value of the ranking is
   * trusted, every later one hidden when its score is negative and
   * untrusted otherwise; values and scores are copied in ranking order.
   */
  method AssignStatuses(ranked: seq<(string, real)>) returns (result: seq<Entry>)
    requires ranked != []
    ensures |result| == |ranked|
    ensures forall k :: 0 <= k < |result| ==> result[k].value == ranked[k].0 && result[k].score == ranked[k].1
    ensures forall k :: 0 <= k < |result| ==> result[k].status == StatusAt(k, ranked[k].1)
  {
    result := [Entry(ranked[0].0, Trusted, ranked[0].1)];
    var i := 1;
    while i < |ranked|
      invariant 1 <= i <= |ranked|
      invariant |result| == i
      invariant forall k :: 0 <= k < i ==> result[k].value == ranked[k].0 && result[k].score == ranked[k].1
      invariant forall k :: 0 <= k < i ==> result[k].status == StatusAt(k, ranked[k].1)
    {
      var status := if ranked[i].1 < 0.0 then Hidden else Untrusted;
      result := result + [Entry(ranked[i].0, status, ranked[i].1)];
      i := i + 1;
    }
  }

  /** The entries built from a ranking of the aggregated scores form a status list. */
  lemma StatusListOfRanking(ballots: seq<Ballot>, scores: map<string, real>, ranked: seq<(string, real)>, es: seq<Entry>)
    requires scores.Keys == Values(ballots)
    requires forall v :: v in scores ==> scores[v] == Score(ballots, v)
    requires RankedValues(ranked) == scores.Keys && DistinctValues(ranked) && NonIncreasing(ranked)
    requires forall i :: 0 <= i < |ranked| ==> ranked[i].0 in scores && ranked[i].1 == scores[ranked[i].0]
    requires |es| == |ranked| > 0
    requires forall k :: 0 <= k < |es| ==> es[k].value == ranked[k].0 && es[k].score == ranked[k].1
    requires forall k :: 0 <= k < |es| ==> es[k].status == StatusAt(k, ranked[k].1)
    ensures IsStatusList(ballots, es)
    ensures forall v :: v in Values(ballots) ==> Score(ballots, v) <= es[0].score
  {
    DistinctCount(ranked);
    forall v | v in Values(ballots) ensures exists i :: 0 <= i < |es| && es[i].value == v {
      assert v in RankedValues(ranked);
      var k :| 0 <= k < |ranked| && ranked[k].0 == v;
      assert es[k].value == v;
    }
    TopOfRanking(ballots, scores, ranked, es);
  }

  /** The first entry built from a non-increasing ranking of all values holds the highest score. */
  lemma TopOfRanking(ballots: seq<Ballot>, scores: map<string, real>, ranked: seq<(string, real)>, es: seq<Entry>)
    requires forall v :: v in scores ==> scores[v] == Score(ballots, v)
    requires RankedValues(ranked) == scores.Keys == Values(ballots) && NonIncreasing(ranked)
    requires forall i :: 0 <= i < |ranked| ==> ranked[i].0 in scores && ranked[i].1 == scores[ranked[i].0]
    requires |es| == |ranked| > 0
    requires es[0].score == ranked[0].1
    ensures forall v :: v in Values(ballots) ==> Score(ballots, v) <= es[0].score
  {
  }
}
