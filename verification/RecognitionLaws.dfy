/** Recognition does not depend on any reading order, and a clear match survives small changes of the query. */
module RecognitionLaws {
  import opened Base
  import opened FaceVectors
  import opened Lists
  import opened Recognition

  // ----------------------------------------------------------------------------- reading order

  lemma {:induction false} SameImages<A, B, E>(s: seq<A>, x: seq<B>, t: seq<A>, y: seq<B>, f: A -> Result<B, E>)
    requires |s| == |x| && |t| == |y| && multiset(s) == multiset(t)
    requires forall i :: 0 <= i < |s| ==> f(s[i]) == Ok(x[i])
    requires forall i :: 0 <= i < |t| ==> f(t[i]) == Ok(y[i])
    ensures multiset(x) == multiset(y)
    decreases |s|
  {
    SameLength(s, t);
    if s != [] {
      assert s[0] in multiset(t);
      var j :| 0 <= j < |t| && t[j] == s[0];
      RestCounts(s, 0, t, j);
      SameImages(WithoutAt(s, 0), WithoutAt(x, 0), WithoutAt(t, j), WithoutAt(y, j), f);
      WithoutCounts(x, 0);
      WithoutCounts(y, j);
    }
  }

  lemma CollectPermutes<A, B, E>(s: seq<A>, t: seq<A>, f: A -> Result<B, E>)
    requires multiset(s) == multiset(t)
    ensures Collect(s, f).Ok? <==> Collect(t, f).Ok?
    ensures Collect(s, f).Ok? ==> multiset(Collect(s, f).value) == multiset(Collect(t, f).value)
  {
    forall i | 0 <= i < |s| ensures s[i] in t { assert s[i] in multiset(t); }
    forall i | 0 <= i < |t| ensures t[i] in s { assert t[i] in multiset(s); }
    if Collect(s, f).Ok? { SameImages(s, Collect(s, f).value, t, Collect(t, f).value, f); }
  }

  // A teacher's score does not depend on the order the templates were read in.
  lemma AggregateIgnoresOrder(query: Vector, vectors: seq<Vector>, shuffled: seq<Vector>)
    requires multiset(vectors) == multiset(shuffled)
    ensures Aggregate(query, vectors) == Aggregate(query, shuffled)
  {
    var f := (v: Vector) => Similarity(query, v);
    CollectPermutes(vectors, shuffled, f);
    SameLength(vectors, shuffled);
    if Collect(vectors, f).Ok? {
      SortIgnoresOrder(Collect(vectors, f).value, Collect(shuffled, f).value, AtLeast);
    }
  }

  // ------------------------------------------------------------------------------- the ranking

  lemma RankedInOrder(scored: seq<Scored>)
    ensures Sorted(Ranked(scored), Leads)
  {
    SortIsSorted(scored, Leads);
  }

  // ------------------------------------------------------------------------------ the decision

  ghost predicate StaffDiffer(candidates: seq<Candidate>) {
    forall i, j :: 0 <= i < j < |candidates| ==> candidates[i].id != candidates[j].id
  }

  lemma ScoresDiffer(query: Vector, candidates: seq<Candidate>, scored: seq<Scored>)
    requires StaffDiffer(candidates) && |scored| == |candidates|
    requires forall i :: 0 <= i < |scored| ==> Score(query, candidates[i]) == Ok(scored[i])
    ensures Antisymmetric(scored, Leads)
  {
    assert forall i :: 0 <= i < |scored| ==> scored[i].id == candidates[i].id;
    assert forall i, j :: 0 <= i < j < |scored| ==> scored[i].id != scored[j].id;
    forall x, y | x in scored && y in scored && Leads(x, y) && Leads(y, x) ensures x == y {
      var i :| 0 <= i < |scored| && scored[i] == x;
      var j :| 0 <= j < |scored| && scored[j] == y;
      assert i == j;
    }
  }

  // Who is recognised, or why not, does not depend on the order of the candidates.
  lemma RecognizeIgnoresOrder(
    query: Vector, candidates: seq<Candidate>, shuffled: seq<Candidate>, threshold: real, margin: real)
    requires multiset(candidates) == multiset(shuffled) && StaffDiffer(candidates)
    ensures Recognize(query, candidates, threshold, margin).Ok? <==> Recognize(query, shuffled, threshold, margin).Ok?
    ensures Recognize(query, candidates, threshold, margin).Ok? ==>
      Recognize(query, candidates, threshold, margin) == Recognize(query, shuffled, threshold, margin)
  {
    var f := (c: Candidate) => Score(query, c);
    CollectPermutes(candidates, shuffled, f);
    SameLength(candidates, shuffled);
    if Collect(candidates, f).Ok? {
      ScoresDiffer(query, candidates, Collect(candidates, f).value);
      SortIgnoresOrder(Collect(candidates, f).value, Collect(shuffled, f).value, Leads);
    }
  }

  // Position k clears the threshold and leads every other position by at least the margin.
  ghost predicate Clear(scored: seq<Scored>, k: nat, threshold: real, margin: real)
    requires k < |scored|
  {
    && scored[k].score >= threshold
    && forall j :: 0 <= j < |scored| && j != k ==> scored[k].score - scored[j].score >= margin
  }

  lemma RankOf(scored: seq<Scored>, k: nat, j: nat) returns (i: nat)
    requires k < |scored| && j < |scored| && j != k && Ranked(scored)[0] == scored[k]
    ensures 0 < i < |scored| && Ranked(scored)[i] == scored[j]
  {
    RestCounts(Ranked(scored), 0, scored, k);
    var others, rest := WithoutAt(scored, k), WithoutAt(Ranked(scored), 0);
    assert others[if j < k then j else j - 1] == scored[j];
    assert scored[j] in multiset(rest);
    var n :| 0 <= n < |rest| && rest[n] == scored[j];
    i := n + 1;
  }

  lemma SecondLeadsTheRest(r: seq<Scored>, i: nat)
    requires Sorted(r, Leads) && 0 < i < |r|
    ensures r[i].score <= r[1].score
  {
    assert i == 1 || Leads(r[1], r[i]);
  }

  lemma OthersAfterFirst(scored: seq<Scored>, k: nat, j: nat)
    requires k < |scored| && j < |scored| && j != k && Ranked(scored)[0] == scored[k]
    ensures |scored| > 1 && scored[j].score <= Ranked(scored)[1].score
  {
    var i := RankOf(scored, k, j);
    RankedInOrder(scored);
    SecondLeadsTheRest(Ranked(scored), i);
  }

  lemma SecondIsAnother(scored: seq<Scored>, k: nat) returns (j: nat)
    requires k < |scored| && |scored| > 1 && Ranked(scored)[0] == scored[k]
    ensures j < |scored| && j != k && scored[j] == Ranked(scored)[1]
  {
    RestCounts(Ranked(scored), 0, scored, k);
    var others, rest := WithoutAt(scored, k), WithoutAt(Ranked(scored), 0);
    assert rest[0] in multiset(others);
    var i :| 0 <= i < |others| && others[i] == rest[0];
    j := if i < k then i else i + 1;
  }

  lemma FirstLeadsAll(scored: seq<Scored>, k: nat) returns (n: nat)
    requires k < |scored|
    ensures n < |scored| && Ranked(scored)[0] == scored[n] && scored[n].score >= scored[k].score
  {
    var r := Ranked(scored);
    RankedInOrder(scored);
    assert r[0] in multiset(scored) && scored[k] in multiset(r);
    var i :| 0 <= i < |r| && r[i] == scored[k];
    assert i == 0 || Leads(r[0], r[i]);
    n :| 0 <= n < |scored| && scored[n] == r[0];
  }

  // A match names a position that is clear of all others ...
  lemma MatchIsClear(scored: seq<Scored>, threshold: real, margin: real) returns (k: nat)
    requires scored != [] && Decide(Ranked(scored), threshold, margin).decision.Match?
    ensures k < |scored| && Clear(scored, k, threshold, margin) && scored[k] == Ranked(scored)[0]
  {
    var r := Ranked(scored);
    assert r[0] in multiset(scored);
    k :| 0 <= k < |scored| && scored[k] == r[0];
    forall j | 0 <= j < |scored| && j != k ensures scored[k].score - scored[j].score >= margin {
      OthersAfterFirst(scored, k, j);
    }
  }

  // ... and with a positive margin a clear position is matched.
  lemma ClearIsMatch(scored: seq<Scored>, k: nat, threshold: real, margin: real)
    requires k < |scored| && Clear(scored, k, threshold, margin) && margin > 0.0
    ensures Decide(Ranked(scored), threshold, margin).decision == Match(scored[k].id, scored[k].name)
  {
    var n := FirstLeadsAll(scored, k);
    assert n == k;
    if |scored| > 1 { var j := SecondIsAnother(scored, k); }
  }

  lemma BestScoreDecides(scored: seq<Scored>, threshold: real)
    requires scored != []
    ensures Ranked(scored)[0].score < threshold <==> forall i :: 0 <= i < |scored| ==> scored[i].score < threshold
  {
    var n := FirstLeadsAll(scored, 0);
    forall i | 0 <= i < |scored| ensures scored[i].score <= scored[n].score {
      var m := FirstLeadsAll(scored, i);
    }
  }

  // Why nobody is named: no score reaches the threshold, or one does and nobody is clear of the others.
  lemma UnknownNamesItsReason(scored: seq<Scored>, threshold: real, margin: real)
    requires scored != [] && margin > 0.0
    ensures Decide(Ranked(scored), threshold, margin).decision == Unknown(BelowThreshold) <==>
      forall i :: 0 <= i < |scored| ==> scored[i].score < threshold
    ensures Decide(Ranked(scored), threshold, margin).decision == Unknown(Ambiguous) <==>
      && (exists i :: 0 <= i < |scored| && scored[i].score >= threshold)
      && forall k :: 0 <= k < |scored| ==> !Clear(scored, k, threshold, margin)
  {
    var d := Decide(Ranked(scored), threshold, margin).decision;
    BestScoreDecides(scored, threshold);
    if d.Match? { var k := MatchIsClear(scored, threshold, margin); }
    forall k | 0 <= k < |scored| && Clear(scored, k, threshold, margin) ensures d.Match? {
      ClearIsMatch(scored, k, threshold, margin);
    }
  }

  // ----------------------------------------------------------------------- the whole decision

  // Two different templates, none of the others closer to the query than either, give this mean.
  ghost predicate BestTwo(scores: seq<real>, i: nat, j: nat, mean: real) {
    && i < |scores| && j < |scores| && i != j && 2.0 * mean == scores[i] + scores[j]
    && forall m :: 0 <= m < |scores| && m != i && m != j ==> scores[m] <= scores[i] && scores[m] <= scores[j]
  }

  // Another position holds the second of the sorted scores.
  lemma SecondScore(scores: seq<real>, i: nat) returns (j: nat)
    requires |scores| >= 2 && i < |scores| && SortScores(scores)[0] == scores[i]
    ensures j < |scores| && j != i && scores[j] == SortScores(scores)[1]
  {
    RestCounts(SortScores(scores), 0, scores, i);
    var rest, others := WithoutAt(SortScores(scores), 0), WithoutAt(scores, i);
    assert rest[0] in multiset(others);
    var n :| 0 <= n < |others| && others[n] == rest[0];
    j := if n < i then n else n + 1;
  }

  lemma NotAboveSecond(scores: seq<real>, i: nat, m: nat)
    requires |scores| >= 2 && i < |scores| && m < |scores| && m != i && SortScores(scores)[0] == scores[i]
    ensures scores[m] <= SortScores(scores)[1] <= SortScores(scores)[0]
  {
    var r := SortScores(scores);
    SortIsSorted(scores, AtLeast);
    RestCounts(r, 0, scores, i);
    var rest, others := WithoutAt(r, 0), WithoutAt(scores, i);
    assert others[if m < i then m else m - 1] == scores[m];
    assert scores[m] in multiset(rest);
    var x :| 0 <= x < |rest| && rest[x] == scores[m];
    assert AtLeast(r[0], r[1]);
    assert x == 0 || AtLeast(r[1], r[x + 1]);
  }

  lemma TopTwo(scores: seq<real>) returns (i: nat, j: nat)
    requires |scores| >= 2
    ensures BestTwo(scores, i, j, MeanOfBest(SortScores(scores)))
  {
    var r := SortScores(scores);
    assert r[0] in multiset(scores);
    i :| 0 <= i < |scores| && scores[i] == r[0];
    j := SecondScore(scores, i);
    forall m | 0 <= m < |scores| && m != i ensures scores[m] <= r[1] <= r[0] { NotAboveSecond(scores, i, m); }
  }

  /** A teacher's score is the one similarity there is, or the mean of the two best. */
  lemma AggregateIsMeanOfBestTwo(query: Vector, vectors: seq<Vector>) returns (scores: seq<real>)
    requires vectors != [] && forall i :: 0 <= i < |vectors| ==> |vectors[i]| == |query|
    ensures |scores| == |vectors| && Aggregate(query, vectors).Ok?
    ensures forall i :: 0 <= i < |vectors| ==> Similarity(query, vectors[i]) == Ok(scores[i])
    ensures |vectors| == 1 ==> Aggregate(query, vectors).value == scores[0]
    ensures |vectors| > 1 ==> exists i, j :: BestTwo(scores, i, j, Aggregate(query, vectors).value)
  {
    scores := Collect(vectors, v => Similarity(query, v)).value;
    if |vectors| > 1 {
      var i, j := TopTwo(scores);
    } else {
      assert scores[0] in multiset(SortScores(scores));
    }
  }

  // Every candidate has a score.
  ghost predicate Scorable(query: Vector, candidates: seq<Candidate>) {
    candidates != [] && forall i :: 0 <= i < |candidates| ==> Aggregate(query, candidates[i].vectors).Ok?
  }

  ghost function ScoreOf(query: Vector, candidates: seq<Candidate>, i: nat): real
    requires Scorable(query, candidates) && i < |candidates|
  {
    Aggregate(query, candidates[i].vectors).value
  }

  // What is decided on: one scored row per candidate, in their order.
  lemma ScoredAsCollected(query: Vector, candidates: seq<Candidate>, threshold: real, margin: real)
    returns (scored: seq<Scored>)
    requires Scorable(query, candidates)
    ensures scored != [] && |scored| == |candidates|
    ensures Recognize(query, candidates, threshold, margin) == Ok(Decide(Ranked(scored), threshold, margin))
    ensures forall i :: 0 <= i < |scored| ==>
      scored[i] == Scored(ScoreOf(query, candidates, i), candidates[i].id, candidates[i].name)
  {
    scored := Collect(candidates, c => Score(query, c)).value;
  }

  // The candidate reaches the threshold and leads every other by the margin.
  ghost predicate StandsOut(query: Vector, candidates: seq<Candidate>, k: nat, threshold: real, margin: real)
    requires Scorable(query, candidates) && k < |candidates|
  {
    && ScoreOf(query, candidates, k) >= threshold
    && forall j :: 0 <= j < |candidates| && j != k ==>
         ScoreOf(query, candidates, k) - ScoreOf(query, candidates, j) >= margin
  }

  /** Somebody is named exactly when one candidate stands out, and it is that one; otherwise the reason is given. */
  lemma RecognizedIff(query: Vector, candidates: seq<Candidate>, threshold: real, margin: real)
    requires Scorable(query, candidates) && margin > 0.0
    ensures Recognize(query, candidates, threshold, margin).Ok?
    ensures var d := Recognize(query, candidates, threshold, margin).value.decision;
      && (forall k :: 0 <= k < |candidates| && StandsOut(query, candidates, k, threshold, margin) ==>
            d == Match(candidates[k].id, candidates[k].name))
      && (d.Match? ==> exists k :: 0 <= k < |candidates| && StandsOut(query, candidates, k, threshold, margin))
      && (d == Unknown(BelowThreshold) <==>
            forall k :: 0 <= k < |candidates| ==> ScoreOf(query, candidates, k) < threshold)
      && d != Unknown(NoCandidates)
  {
    var scored := ScoredAsCollected(query, candidates, threshold, margin);
    BestScoreDecides(scored, threshold);
    forall k | 0 <= k < |candidates| && StandsOut(query, candidates, k, threshold, margin)
      ensures Recognize(query, candidates, threshold, margin).value.decision
                == Match(candidates[k].id, candidates[k].name)
    {
      ClearIsMatch(scored, k, threshold, margin);
    }
    if Decide(Ranked(scored), threshold, margin).decision.Match? {
      var k := MatchIsClear(scored, threshold, margin);
      assert StandsOut(query, candidates, k, threshold, margin);
    }
    UnknownNamesItsReason(scored, threshold, margin);
  }

  /** The reported score is the best of all, and the runner-up the best of the others, if there are others. */
  lemma ReportsTheTwoBest(query: Vector, candidates: seq<Candidate>, threshold: real, margin: real) returns (k: nat)
    requires Scorable(query, candidates)
    ensures k < |candidates| && Recognize(query, candidates, threshold, margin).Ok?
    ensures var r := Recognize(query, candidates, threshold, margin).value;
      && r.score == ScoreOf(query, candidates, k)
      && (forall j :: 0 <= j < |candidates| ==> ScoreOf(query, candidates, j) <= r.score)
      && (r.runnerUp.None? <==> |candidates| == 1)
      && (r.runnerUp.Some? ==>
            && (exists j :: 0 <= j < |candidates| && j != k && ScoreOf(query, candidates, j) == r.runnerUp.value)
            && forall j :: 0 <= j < |candidates| && j != k ==> ScoreOf(query, candidates, j) <= r.runnerUp.value)
  {
    var scored := ScoredAsCollected(query, candidates, threshold, margin);
    k := TwoBest(scored);
    forall j | 0 <= j < |candidates| ensures ScoreOf(query, candidates, j) == scored[j].score {}
    DecidesOnTheTwoBest(scored, threshold, margin);
    if |scored| > 1 { var j := SecondIsAnother(scored, k); }
  }

  lemma DecidesOnTheTwoBest(scored: seq<Scored>, threshold: real, margin: real)
    requires scored != []
    ensures var r := Decide(Ranked(scored), threshold, margin);
      && r.score == Ranked(scored)[0].score
      && r.runnerUp == if |scored| > 1 then Some(Ranked(scored)[1].score) else None
  {
  }

  lemma TwoBest(scored: seq<Scored>) returns (k: nat)
    requires scored != []
    ensures k < |scored| && Ranked(scored)[0] == scored[k]
    ensures forall j :: 0 <= j < |scored| ==> scored[j].score <= scored[k].score
    ensures forall j :: 0 <= j < |scored| && j != k ==> |scored| > 1 && scored[j].score <= Ranked(scored)[1].score
  {
    k := FirstLeadsAll(scored, 0);
    forall j | 0 <= j < |scored| ensures scored[j].score <= scored[k].score {
      var n := FirstLeadsAll(scored, j);
    }
    forall j | 0 <= j < |scored| && j != k ensures |scored| > 1 && scored[j].score <= Ranked(scored)[1].score {
      OthersAfterFirst(scored, k, j);
    }
  }

  // ---------------------------------------------------------------- small changes of the query

  ghost predicate AtMost(s: seq<real>, t: seq<real>, e: real) {
    |s| == |t| && forall i :: 0 <= i < |s| ==> s[i] <= t[i] + e
  }

  // Scores that rise by at most e keep their sorted list within e.
  lemma {:induction false} InsertShifts(x: real, s: seq<real>, y: real, t: seq<real>, e: real)
    requires Sorted(s, AtLeast) && Sorted(t, AtLeast) && |s| == |t|
    requires x <= y + e && AtMost(s, t, e)
    ensures AtMost(Insert(x, s, AtLeast), Insert(y, t, AtLeast), e)
    decreases |s|
  {
    if s == [] {
    } else if x < s[0] {
      InsertShifts(x, s[1..], if y < t[0] then y else t[0], t[1..], e);
      if y >= t[0] { InsertHead(t); }
      ConsAtMost(s[0], Insert(x, s[1..], AtLeast), Insert(y, t, AtLeast), e);
    } else if y < t[0] {
      InsertShifts(s[0], s[1..], y, t[1..], e);
      InsertHead(s);
      ConsAtMost(x, s, Insert(y, t, AtLeast), e);
    } else {
      ConsAtMost(x, s, [y] + t, e);
    }
  }

  lemma ConsAtMost(x: real, rest: seq<real>, t: seq<real>, e: real)
    requires t != [] && x <= t[0] + e && AtMost(rest, t[1..], e)
    ensures AtMost([x] + rest, t, e)
  {}

  lemma InsertHead(s: seq<real>)
    requires Sorted(s, AtLeast) && s != []
    ensures Insert(s[0], s[1..], AtLeast) == s
  {}

  lemma {:induction false} SortShifts(s: seq<real>, t: seq<real>, e: real)
    requires AtMost(s, t, e)
    ensures AtMost(SortScores(s), SortScores(t), e)
    decreases |s|
  {
    if s != [] {
      SortShifts(s[1..], t[1..], e);
      SortIsSorted(s[1..], AtLeast);
      SortIsSorted(t[1..], AtLeast);
      InsertShifts(s[0], SortScores(s[1..]), t[0], SortScores(t[1..]), e);
    }
  }

  // Templates that are normalised and of the query's dimension, at least one of them.
  ghost predicate Comparable(q: Vector, vectors: seq<Vector>) {
    vectors != [] && forall i :: 0 <= i < |vectors| ==> |vectors[i]| == |q| && Unit(vectors[i])
  }

  lemma AggregateShifts(q: Vector, r: Vector, vectors: seq<Vector>, e: real)
    requires |q| == |r| && Unit(q) && Unit(r) && Comparable(q, vectors)
    requires e >= 0.0 && Apart(q, r) <= e * e
    ensures Aggregate(q, vectors).Ok? && Aggregate(r, vectors).Ok?
    ensures -e <= Aggregate(q, vectors).value - Aggregate(r, vectors).value <= e
  {
    var a, b := Collect(vectors, v => Similarity(q, v)), Collect(vectors, v => Similarity(r, v));
    forall i | 0 <= i < |vectors|
      ensures Similarity(q, vectors[i]).Ok? && Similarity(r, vectors[i]).Ok?
      ensures -e <= Similarity(q, vectors[i]).value - Similarity(r, vectors[i]).value <= e
    {
      SimilarityIsLipschitz(q, r, vectors[i], e);
    }
    SortShifts(a.value, b.value, e);
    SortShifts(b.value, a.value, e);
  }

  ghost predicate Enrolled(q: Vector, candidates: seq<Candidate>) {
    forall i :: 0 <= i < |candidates| ==> Comparable(q, candidates[i].vectors)
  }

  // The scores of one query and of another, position by position.
  lemma ScoresShift(q: Vector, r: Vector, candidates: seq<Candidate>, e: real) returns (a: seq<Scored>, b: seq<Scored>)
    requires |q| == |r| && Unit(q) && Unit(r) && Enrolled(q, candidates)
    requires e >= 0.0 && Apart(q, r) <= e * e
    ensures Collect(candidates, c => Score(q, c)) == Ok(a) && Collect(candidates, c => Score(r, c)) == Ok(b)
    ensures |a| == |b| == |candidates|
    ensures forall i :: 0 <= i < |a| ==> a[i].id == b[i].id == candidates[i].id && a[i].name == b[i].name
    ensures forall i :: 0 <= i < |a| ==> -e <= a[i].score - b[i].score <= e
  {
    forall i | 0 <= i < |candidates|
      ensures Aggregate(q, candidates[i].vectors).Ok? && Aggregate(r, candidates[i].vectors).Ok?
      ensures -e <= Aggregate(q, candidates[i].vectors).value - Aggregate(r, candidates[i].vectors).value <= e
    {
      AggregateShifts(q, r, candidates[i].vectors, e);
    }
    a := Collect(candidates, c => Score(q, c)).value;
    b := Collect(candidates, c => Score(r, c)).value;
  }

  lemma ClearMatchShifts(a: seq<Scored>, b: seq<Scored>, threshold: real, margin: real, e: real)
    requires |a| == |b| && a != [] && e >= 0.0 && margin > 0.0
    requires forall i :: 0 <= i < |a| ==> a[i].id == b[i].id && a[i].name == b[i].name
    requires forall i :: 0 <= i < |a| ==> -e <= a[i].score - b[i].score <= e
    requires Decide(Ranked(a), threshold + e, margin + 2.0 * e).decision.Match?
    ensures Decide(Ranked(b), threshold, margin).decision
      == Decide(Ranked(a), threshold, margin).decision
      == Decide(Ranked(a), threshold + e, margin + 2.0 * e).decision
  {
    var k := MatchIsClear(a, threshold + e, margin + 2.0 * e);
    ClearIsMatch(a, k, threshold, margin);
    ClearIsMatch(b, k, threshold, margin);
  }

  // A match that clears the threshold by e and the margin by 2e is the same match for every query within e.
  lemma MatchSurvives(q: Vector, r: Vector, candidates: seq<Candidate>, threshold: real, margin: real, e: real)
    requires |q| == |r| && Unit(q) && Unit(r) && Enrolled(q, candidates)
    requires e >= 0.0 && Apart(q, r) <= e * e && margin > 0.0
    ensures Recognize(q, candidates, threshold, margin).Ok? && Recognize(r, candidates, threshold, margin).Ok?
    ensures var clear := Recognize(q, candidates, threshold + e, margin + 2.0 * e);
      && clear.Ok?
      && (clear.value.decision.Match? ==>
            Recognize(r, candidates, threshold, margin).value.decision
              == Recognize(q, candidates, threshold, margin).value.decision
              == clear.value.decision)
  {
    var a, b := ScoresShift(q, r, candidates, e);
    if a != [] && Decide(Ranked(a), threshold + e, margin + 2.0 * e).decision.Match? {
      ClearMatchShifts(a, b, threshold, margin, e);
    }
  }

  // Whatever the thresholds let through, two queries less than the margin apart never match different people.
  lemma NearQueriesAgree(q: Vector, r: Vector, candidates: seq<Candidate>, threshold: real, margin: real, e: real)
    requires |q| == |r| && Unit(q) && Unit(r) && Enrolled(q, candidates)
    requires 0.0 <= e < margin && Apart(q, r) <= e * e
    ensures Recognize(q, candidates, threshold, margin).Ok? && Recognize(r, candidates, threshold, margin).Ok?
    ensures
      var x, y := Recognize(q, candidates, threshold, margin).value, Recognize(r, candidates, threshold, margin).value;
      x.decision.Match? && y.decision.Match? ==> x.decision == y.decision
  {
    var a, b := ScoresShift(q, r, candidates, e);
    if a != [] { NearMatchesAgree(a, b, threshold, margin, e); }
  }

  lemma SameLeader(a: seq<Scored>, k: nat, b: seq<Scored>, m: nat, threshold: real, margin: real, e: real)
    requires |a| == |b| && k < |a| && m < |b| && e < margin
    requires Clear(a, k, threshold, margin) && Clear(b, m, threshold, margin)
    requires forall i :: 0 <= i < |a| ==> -e <= a[i].score - b[i].score <= e
    ensures k == m
  {}

  lemma NearMatchesAgree(a: seq<Scored>, b: seq<Scored>, threshold: real, margin: real, e: real)
    requires |a| == |b| && a != [] && 0.0 <= e < margin
    requires forall i :: 0 <= i < |a| ==> a[i].id == b[i].id && a[i].name == b[i].name
    requires forall i :: 0 <= i < |a| ==> -e <= a[i].score - b[i].score <= e
    ensures var x, y := Decide(Ranked(a), threshold, margin).decision, Decide(Ranked(b), threshold, margin).decision;
      x.Match? && y.Match? ==> x == y
  {
    if Decide(Ranked(a), threshold, margin).decision.Match? && Decide(Ranked(b), threshold, margin).decision.Match? {
      var k := MatchIsClear(a, threshold, margin);
      var m := MatchIsClear(b, threshold, margin);
      SameLeader(a, k, b, m, threshold, margin, e);
    }
  }
}
