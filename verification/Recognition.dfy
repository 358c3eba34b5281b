/** The recognition decision: who the query is, or a refusal to name anyone. */
module Recognition {
  import opened Base
  import opened FaceVectors
  import opened Lists

  datatype Candidate = Candidate(id: Id, name: string, vectors: seq<Vector>)

  datatype UnknownReason = NoCandidates | BelowThreshold | Ambiguous

  datatype Decision = Match(id: Id, name: string) | Unknown(reason: UnknownReason)

  datatype Recognized = Recognized(decision: Decision, score: real, runnerUp: Option<real>)

  // `f` of every element, or the first failure.
  function Collect<A, B, E>(s: seq<A>, f: A -> Result<B, E>): (r: Result<seq<B>, E>)
    ensures r.Ok? <==> forall i :: 0 <= i < |s| ==> f(s[i]).Ok?
    ensures r.Ok? ==> |r.value| == |s| && forall i :: 0 <= i < |s| ==> f(s[i]) == Ok(r.value[i])
    ensures r.Err? ==> exists i :: 0 <= i < |s| && f(s[i]) == Err(r.error)
  {
    if s == [] then Ok([])
    else
      var n := |s| - 1;
      var before := Collect(s[..n], f);
      if before.Err? then before
      else
        match f(s[n])
        case Err(e) => Err(e)
        case Ok(x) => Ok(before.value + [x])
  }

  // --------------------------------------------------------------------- one teacher's score

  predicate AtLeast(x: real, y: real) { x >= y }

  // Descending.
  function SortScores(scores: seq<real>): (r: seq<real>)
    ensures |r| == |scores| && multiset(r) == multiset(scores)
  {
    Sort(scores, AtLeast)
  }

  function MeanOfBest(sorted: seq<real>): real
    requires sorted != []
  {
    if |sorted| == 1 then sorted[0] else (sorted[0] + sorted[1]) / 2.0
  }

  function Aggregate(query: Vector, vectors: seq<Vector>): Result<real, TemplateError> {
    var scores := Collect(vectors, v => Similarity(query, v));
    if scores.Err? then Err(scores.error)
    else if scores.value == [] then Err(NoTemplates)
    else Ok(MeanOfBest(SortScores(scores.value)))
  }

  // ----------------------------------------------------------------------------- the decision

  datatype Scored = Scored(score: real, id: Id, name: string)

  function Score(query: Vector, c: Candidate): Result<Scored, TemplateError> {
    match Aggregate(query, c.vectors)
    case Err(e) => Err(e)
    case Ok(score) => Ok(Scored(score, c.id, c.name))
  }

  // Higher score first; equal scores by staff id.
  predicate Leads(a: Scored, b: Scored) { a.score > b.score || (a.score == b.score && a.id <= b.id) }

  function Ranked(scored: seq<Scored>): (r: seq<Scored>)
    ensures multiset(r) == multiset(scored) && |r| == |scored|
  {
    Sort(scored, Leads)
  }

  function Decide(ranked: seq<Scored>, threshold: real, margin: real): Recognized
    requires ranked != []
  {
    var best := ranked[0];
    var runnerUp := if |ranked| > 1 then Some(ranked[1].score) else None;
    if best.score < threshold then Recognized(Unknown(BelowThreshold), best.score, runnerUp)
    else if runnerUp.Some? && best.score - runnerUp.value < margin
    then Recognized(Unknown(Ambiguous), best.score, runnerUp)
    else Recognized(Match(best.id, best.name), best.score, runnerUp)
  }

  function Recognize(query: Vector, candidates: seq<Candidate>, threshold: real, margin: real)
    : Result<Recognized, TemplateError>
  {
    if candidates == [] then Ok(Recognized(Unknown(NoCandidates), 0.0, None))
    else
      var scored := Collect(candidates, c => Score(query, c));
      if scored.Err? then Err(scored.error)
      else Ok(Decide(Ranked(scored.value), threshold, margin))
  }
}
