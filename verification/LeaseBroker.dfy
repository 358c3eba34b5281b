/** The broker's use of the registry to open one session, while other sessions come and go. */
module LeaseBroker {
  import opened Base
  import opened Lists
  import opened LeaseModel
  import opened LeaseInvariants
  import opened LeaseRuns

  // ---------------------------------------------------------------- creating a provider session

  datatype Response = Opened(session: Option<Id>) | Ambiguous | Unauthorized | Failed

  // One WHEP POST: what the provider answered, and, hidden from the broker, whether a session was left there.
  datatype Post = Post(answer: Response, leaves: bool)

  // What an answer proves: an opened session exists and none stands behind a definite 401. After any other
  // answer either may be the case.
  predicate Possible(p: Post) { (p.answer.Opened? ==> p.leaves) && (p.answer.Unauthorized? ==> !p.leaves) }

  // The POSTs made, in order: `tokens` says whether each credential was obtained, `replies` what each would meet.
  function PostsMade(tokens: (bool, bool), replies: (Post, Post)): seq<Post> {
    if !tokens.0 then []
    else if replies.0.answer != Unauthorized || !tokens.1 then [replies.0]
    else [replies.0, replies.1]
  }

  // What the call returns, or None when it raises.
  function CreateProviderSession(tokens: (bool, bool), replies: (Post, Post)): Option<Option<Id>> {
    if !tokens.0 then None
    else
      match replies.0.answer
      case Opened(session) => Some(session)
      case Unauthorized =>
        if tokens.1 && replies.1.answer.Opened? then Some(replies.1.answer.session) else None
      case _ => None
  }

  function SessionsLeft(posts: seq<Post>): nat {
    if posts == [] then 0 else SessionsLeft(posts[..|posts| - 1]) + if posts[|posts| - 1].leaves then 1 else 0
  }

  // The last POST left a session behind an answer that was neither a session nor a definite 401.
  predicate LeftUnseen(posts: seq<Post>) {
    && posts != [] && posts[|posts| - 1].leaves
    && (posts[|posts| - 1].answer.Ambiguous? || posts[|posts| - 1].answer.Failed?)
  }

  /**
    An attempt leaves at most one session at the provider: one if it returns, and otherwise one exactly when its
    last POST left one behind an answer that was neither a session nor a definite 401.
   */
  lemma AtMostOneProviderSession(tokens: (bool, bool), replies: (Post, Post))
    requires Possible(replies.0) && Possible(replies.1)
    ensures var posts := PostsMade(tokens, replies);
      var returned := CreateProviderSession(tokens, replies);
      && SessionsLeft(posts) <= 1
      && (returned.Some? ==> SessionsLeft(posts) == 1)
      && (returned.None? && SessionsLeft(posts) == 1 <==> LeftUnseen(posts))
  {
    assert [replies.0][..0] == [];
    assert SessionsLeft([replies.0]) == if replies.0.leaves then 1 else 0;
    assert [replies.0, replies.1][..1] == [replies.0];
  }

  /** A second POST is made exactly after a definite 401 with a new credential, and it is the last. */
  lemma PostedAgainIff(tokens: (bool, bool), replies: (Post, Post))
    ensures var posts := PostsMade(tokens, replies);
      && (posts == [] <==> !tokens.0)
      && (|posts| == 2 <==> tokens.0 && replies.0.answer.Unauthorized? && tokens.1)
      && (|posts| >= 1 ==> posts[0] == replies.0) && (|posts| == 2 ==> posts[1] == replies.1) && |posts| <= 2
    ensures CreateProviderSession(tokens, replies) ==
      var posts := PostsMade(tokens, replies);
      if posts != [] && posts[|posts| - 1].answer.Opened? then Some(posts[|posts| - 1].answer.session) else None
  {
  }

  // ------------------------------------------------------------------ tearing a session down

  datatype Reply = Gone | Denied | Unsure

  // One DELETE: the provider's answer, and, hidden from the broker, whether it ended the session.
  datatype Delete = Delete(answer: Reply, ends: bool)

  // Success and 404 mean that the session is gone, a definite 401 that the request did nothing.
  predicate Plausible(d: Delete) { (d.answer.Gone? ==> d.ends) && (d.answer.Denied? ==> !d.ends) }

  // The DELETEs made for a session: none without a resource to name, and a second one only after a definite 401.
  function DeletesMade(session: Option<Id>, tokens: (bool, bool), replies: (Delete, Delete)): seq<Delete> {
    if session.None? || !tokens.0 then []
    else if replies.0.answer != Denied || !tokens.1 then [replies.0]
    else [replies.0, replies.1]
  }

  // Whether the broker believes that nothing is left to tear down.
  function ReleaseProviderSession(session: Option<Id>, tokens: (bool, bool), replies: (Delete, Delete)): bool {
    if session.None? then true
    else if !tokens.0 then false
    else
      match replies.0.answer
      case Gone => true
      case Denied => tokens.1 && replies.1.answer.Gone?
      case Unsure => false
  }

  predicate Ended(deletes: seq<Delete>) { exists i :: 0 <= i < |deletes| && deletes[i].ends }

  // A teardown that reports success has ended the session whenever there was a resource to name.
  lemma DeletedAgainIff(session: Option<Id>, tokens: (bool, bool), replies: (Delete, Delete))
    ensures var made := DeletesMade(session, tokens, replies);
      && (made == [] <==> session.None? || !tokens.0)
      && (|made| == 2 <==> session.Some? && tokens.0 && replies.0.answer.Denied? && tokens.1)
      && (|made| >= 1 ==> made[0] == replies.0) && (|made| == 2 ==> made[1] == replies.1) && |made| <= 2
    ensures Plausible(replies.0) && Plausible(replies.1) ==>
      var made := DeletesMade(session, tokens, replies);
      Ended(made) <==> made != [] && made[|made| - 1].ends
    ensures ReleaseProviderSession(session, tokens, replies) <==>
      var made := DeletesMade(session, tokens, replies);
      session.None? || (made != [] && made[|made| - 1].answer.Gone?)
  {
  }

  lemma ReportedReleaseEnds(session: Option<Id>, tokens: (bool, bool), replies: (Delete, Delete))
    requires Plausible(replies.0) && Plausible(replies.1)
    ensures ReleaseProviderSession(session, tokens, replies) ==>
      session.None? || Ended(DeletesMade(session, tokens, replies))
  {
    var made := DeletesMade(session, tokens, replies);
    if session.Some? && ReleaseProviderSession(session, tokens, replies) {
      assert made[|made| - 1].ends;
    }
  }

  // -------------------------------------------------------- what other calls cannot do to this one

  predicate Settles(op: Op, reservation: nat) {
    (op.OpCancel? || op.OpCommit?) && op.reservation == reservation
  }

  lemma StepKeepsHeld(b: Bounds, s: Registry, op: Op, r: nat)
    requires Counted(s) && r in s.held && !Settles(op, r)
    ensures r in Step(b, s, op).state.held && Step(b, s, op).state.held[r] == s.held[r]
  {
    assert r < s.issued;
  }

  lemma {:induction false} StaysHeld(b: Bounds, s: Registry, ops: seq<Op>, r: nat)
    requires ValidBounds(b) && Inv(b, s) && r in s.held
    requires forall i :: 0 <= i < |ops| ==> !Settles(ops[i], r)
    ensures r in Run(b, s, ops).state.held && Run(b, s, ops).state.held[r] == s.held[r]
  {
    if ops != [] {
      var n := |ops| - 1;
      assert forall i :: 0 <= i < n ==> ops[..n][i] == ops[i];
      StaysHeld(b, s, ops[..n], r);
      RunKeepsInv(b, s, ops[..n]);
      StepKeepsHeld(b, Run(b, s, ops[..n]).state, ops[n], r);
    }
  }

  lemma StepKeepsSettled(b: Bounds, s: Registry, op: Op, r: nat)
    requires r < s.issued && r !in s.held
    ensures r < Step(b, s, op).state.issued && r !in Step(b, s, op).state.held
  {}

  lemma {:induction false} StaysSettled(b: Bounds, s: Registry, ops: seq<Op>, r: nat)
    requires r < s.issued && r !in s.held
    ensures r < Run(b, s, ops).state.issued && r !in Run(b, s, ops).state.held
  {
    if ops != [] {
      StaysSettled(b, s, ops[..|ops| - 1], r);
      StepKeepsSettled(b, Run(b, s, ops[..|ops| - 1]).state, ops[|ops| - 1], r);
    }
  }

  // The id is not drawn again.
  ghost predicate Redrawn(ops: seq<Op>, id: Id) { exists i :: 0 <= i < |ops| && ops[i].OpCommit? && ops[i].id == id }

  ghost predicate OnlyLease(leases: seq<Lease>, l: Lease) {
    forall i :: 0 <= i < |leases| && leases[i].id == l.id ==> leases[i] == l
  }

  lemma RetiredFromRest(leases: seq<Lease>, now: Time)
    ensures forall x :: x in Unexpired(leases, now) ==> x in leases
  {
    SplitMembers(leases, now);
  }

  lemma StepKeepsOnlyLease(b: Bounds, s: Registry, op: Op, l: Lease)
    requires OnlyLease(s.leases, l) && !(op.OpCommit? && op.id == l.id)
    ensures OnlyLease(Step(b, s, op).state.leases, l)
  {
    match op
    case OpPopExpired(now) =>
      RetiredFromRest(s.leases, now);
      forall i | 0 <= i < |Unexpired(s.leases, now)| && Unexpired(s.leases, now)[i].id == l.id
        ensures Unexpired(s.leases, now)[i] == l
      {
        assert Unexpired(s.leases, now)[i] in s.leases;
      }
    case _ =>
  }

  lemma {:induction false} RunKeepsOnlyLease(b: Bounds, s: Registry, ops: seq<Op>, l: Lease)
    requires OnlyLease(s.leases, l) && !Redrawn(ops, l.id)
    ensures OnlyLease(Run(b, s, ops).state.leases, l)
  {
    if ops != [] {
      var n := |ops| - 1;
      assert forall i :: 0 <= i < n ==> ops[..n][i] == ops[i];
      RunKeepsOnlyLease(b, s, ops[..n], l);
      StepKeepsOnlyLease(b, Run(b, s, ops[..n]).state, ops[n], l);
    }
  }

  // Releasing under the owner's name leaves no live lease of that id.
  lemma ReleaseEnds(b: Bounds, s: Registry, l: Lease, now: Time)
    requires Inv(b, s) && OnlyLease(s.leases, l)
    ensures var (after, _, handed) := ReleaseOwned(b, s, l.id, l.owner, now);
      && !LeaseIdIn(after.leases, l.id)
      && (LeaseIdIn(s.leases, l.id) ==> handed == Some(l))
  {
    var i := IndexOf(s.leases, LeaseId, l.id);
    if i < |s.leases| {
      assert s.leases[i] == l;
      assert forall k :: 0 <= k < |s.leases| && k != i ==> s.leases[k].id != l.id;
    }
  }

  // ------------------------------------------------------------------------ opening one session

  // How one attempt goes: what it is told, the id it draws and the calls of others during its two waits.
  datatype Attempt = Attempt(
    node: Node, authorized: bool, session: Option<Option<Id>>, audited: bool,
    id: Id, camera: Id, connection: Id, now: Time, undone: Time,
    negotiating: seq<Op>, auditing: seq<Op>)

  // The registry when the reservation is committed or given up, and when the audit has ended.
  function Negotiated(b: Bounds, s: Registry, a: Attempt): Registry {
    Run(b, Reserve(b, s, a.node).0, a.negotiating).state
  }

  function Committed(b: Bounds, s: Registry, a: Attempt): Option<(Registry, Lease)> {
    var r := Reserve(b, s, a.node).1;
    if r.None? || !a.authorized || a.session.None? then None
    else Commit(b, Negotiated(b, s, a), r.value, a.id, a.camera, a.connection, a.session.value, a.now)
  }

  // Reserve, wait for authorization and negotiation, commit, wait for the audit; each failure undoes what went
  // before.
  function OpenSession(b: Bounds, s: Registry, a: Attempt): (Registry, Option<Lease>) {
    var (s1, r) := Reserve(b, s, a.node);
    if r.None? then (s1, None)
    else if !a.authorized || a.session.None? then (Cancel(Negotiated(b, s, a), r.value), None)
    else
      match Committed(b, s, a)
      case None => (Negotiated(b, s, a), None)
      case Some((s2, l)) =>
        var s3 := Run(b, s2, a.auditing).state;
        if a.audited then (s3, Some(l)) else (ReleaseOwned(b, s3, l.id, a.node, a.undone).0, None)
  }

  // The others hold their own reservations, and drawn ids do not repeat.
  ghost predicate Apart(b: Bounds, s: Registry, a: Attempt) {
    var r := Reserve(b, s, a.node).1;
    && (r.Some? ==> forall i :: 0 <= i < |a.negotiating| ==> !Settles(a.negotiating[i], r.value))
    && Drawable(Negotiated(b, s, a), a.id)
    && !Redrawn(a.auditing, a.id)
  }

  lemma NegotiatedHolds(b: Bounds, s: Registry, a: Attempt)
    requires ValidBounds(b) && Inv(b, s) && Apart(b, s, a) && Reserve(b, s, a.node).1.Some?
    ensures Inv(b, Negotiated(b, s, a))
    ensures var r := Reserve(b, s, a.node).1.value;
      r in Negotiated(b, s, a).held && Negotiated(b, s, a).held[r] == a.node
  {
    ReserveKeepsInv(b, s, a.node);
    var (s1, r) := Reserve(b, s, a.node);
    RunKeepsInv(b, s1, a.negotiating);
    StaysHeld(b, s1, a.negotiating, r.value);
  }

  lemma CommittedHolds(b: Bounds, s: Registry, a: Attempt)
    requires ValidBounds(b) && Inv(b, s) && Apart(b, s, a) && Committed(b, s, a).Some?
    ensures var (s2, l) := Committed(b, s, a).value;
      && Inv(b, s2) && Reserve(b, s, a.node).1.value !in s2.held && Reserve(b, s, a.node).1.value < s2.issued
      && l.id == a.id && l.owner == a.node && s2.leases == Negotiated(b, s, a).leases + [l] && OnlyLease(s2.leases, l)
  {
    NegotiatedHolds(b, s, a);
    CommitKeepsInv(b, Negotiated(b, s, a), Reserve(b, s, a.node).1.value, a.id, a.camera, a.connection,
                   a.session.value, a.now);
  }

  /**
    Whatever the other sessions do while this one waits: an attempt ends with the registry's accounting intact
    and its reservation settled. It yields a lease exactly when there was a slot and every stage succeeded; that
    lease is the node's, and it is live unless somebody else has handed it back since. A failed attempt leaves no
    live lease of its id.
   */
  lemma OpenSessionAmongOthers(b: Bounds, s: Registry, a: Attempt)
    requires ValidBounds(b) && Inv(b, s) && Apart(b, s, a)
    ensures var (after, lease) := OpenSession(b, s, a);
      var r := Reserve(b, s, a.node).1;
      && Inv(b, after)
      && (r.Some? ==> r.value !in after.held)
      && (lease.Some? <==> r.Some? && a.authorized && a.session.Some? && a.audited)
      && (lease.None? && r.Some? ==> !LeaseIdIn(after.leases, a.id))
      && (lease.Some? ==>
            && lease.value.id == a.id && lease.value.owner == a.node
            && (lease.value in after.leases || lease.value in Run(b, Committed(b, s, a).value.0, a.auditing).handed))
  {
    var r := Reserve(b, s, a.node).1;
    if r.Some? {
      NegotiatedHolds(b, s, a);
      if !a.authorized || a.session.None? {
        CancelKeepsInv(b, Negotiated(b, s, a), r.value);
      } else {
        CommittedHolds(b, s, a);
        AuditedHolds(b, s, a);
      }
    }
  }

  lemma UndoneHolds(b: Bounds, s: Registry, l: Lease, now: Time)
    requires ValidBounds(b) && Inv(b, s) && OnlyLease(s.leases, l)
    ensures var undone := ReleaseOwned(b, s, l.id, l.owner, now).0;
      Inv(b, undone) && undone.held == s.held && !LeaseIdIn(undone.leases, l.id)
  {
    ReleaseEnds(b, s, l, now);
    ReleaseKeepsInv(b, s, l.id, l.owner, now);
  }

  lemma AuditedHolds(b: Bounds, s: Registry, a: Attempt)
    requires ValidBounds(b) && Inv(b, s) && Apart(b, s, a) && Committed(b, s, a).Some?
    ensures var (s2, l) := Committed(b, s, a).value;
      var e := Run(b, s2, a.auditing);
      var undone := ReleaseOwned(b, e.state, l.id, a.node, a.undone).0;
      && Inv(b, e.state) && Inv(b, undone)
      && Reserve(b, s, a.node).1.value !in e.state.held && undone.held == e.state.held
      && (l in e.state.leases || l in e.handed)
      && !LeaseIdIn(undone.leases, a.id)
  {
    CommittedHolds(b, s, a);
    var (s2, l) := Committed(b, s, a).value;
    var e := Run(b, s2, a.auditing);
    RunKeepsInv(b, s2, a.auditing);
    StaysSettled(b, s2, a.auditing, Reserve(b, s, a.node).1.value);
    RunKeepsOnlyLease(b, s2, a.auditing, l);
    UndoneHolds(b, e.state, l, a.undone);
    assert s2.leases[|s2.leases| - 1] == l;
    LiveOrHanded(b, s2, a.auditing, l);
  }

  lemma LiveOrHanded(b: Bounds, s: Registry, ops: seq<Op>, l: Lease)
    requires l in s.leases
    ensures l in Run(b, s, ops).state.leases || l in Run(b, s, ops).handed
  {
    var e := Run(b, s, ops);
    RunConserves(b, s, ops);
    assert l in multiset(s.leases);
    assert l in multiset(e.state.leases) + multiset(e.handed);
  }

  lemma ReserveThenCancel(b: Bounds, s: Registry, node: Node)
    requires ValidBounds(b) && Inv(b, s) && Reserve(b, s, node).1.Some?
    ensures var (s1, r) := Reserve(b, s, node);
      r.value !in s.held && s1.held - {r.value} == s.held && Decrement(s1.perNode, node) == s.perNode
  {
    var (s1, r) := Reserve(b, s, node);
    assert r.value !in s.held;
    assert s1.held - {r.value} == s.held;
    if node in s.perNode {
      assert s.perNode[node := s.perNode[node] + 1][node := s.perNode[node]] == s.perNode;
    } else {
      assert s1.perNode - {node} == s.perNode;
    }
  }

  lemma FindLastLease(leases: seq<Lease>, l: Lease)
    requires !LeaseIdIn(leases, l.id)
    ensures IndexOf(leases + [l], LeaseId, l.id) == |leases|
    ensures WithoutAt(leases + [l], |leases|) == leases
  {
    assert (leases + [l])[|leases|] == l;
  }

  /**
    Left alone, an attempt that ends without a lease, at whatever stage it failed, gives back exactly what it
    took: every lease, counter and reservation is as it was.
   */
  lemma FailedOpenLeaksNothing(b: Bounds, s: Registry, a: Attempt)
    requires ValidBounds(b) && Inv(b, s) && Drawable(s, a.id) && a.negotiating == a.auditing == []
    ensures var (after, lease) := OpenSession(b, s, a);
      && after.pending == s.pending && after.held == s.held
      && (lease.None? ==> after.leases == s.leases && after.perNode == s.perNode)
      && (lease.Some? ==> after.leases == s.leases + [lease.value] && after.tombstones == s.tombstones)
  {
    var (s1, r) := Reserve(b, s, a.node);
    assert Negotiated(b, s, a) == s1;
    if r.Some? {
      ReserveThenCancel(b, s, a.node);
      if a.authorized && a.session.Some? {
        var (s2, l) := Committed(b, s, a).value;
        FindLastLease(s.leases, l);
        assert Run(b, s2, a.auditing).state == s2;
      }
    }
  }

  // ------------------------------------------------------------ the attempt and the provider

  // What the provider and the credentials do during one attempt.
  datatype Provider = Provider(
    tokens: (bool, bool), posts: (Post, Post), undoing: (bool, bool), deletes: (Delete, Delete))

  ghost predicate Consistent(a: Attempt, p: Provider) {
    && a.session == CreateProviderSession(p.tokens, p.posts)
    && Possible(p.posts.0) && Possible(p.posts.1) && Plausible(p.deletes.0) && Plausible(p.deletes.1)
  }

  function PostsOf(b: Bounds, s: Registry, a: Attempt, p: Provider): seq<Post> {
    if Reserve(b, s, a.node).1.None? || !a.authorized then [] else PostsMade(p.tokens, p.posts)
  }

  // The undone attempt tears its session down.
  function DeletesOf(b: Bounds, s: Registry, a: Attempt, p: Provider): seq<Delete> {
    if Committed(b, s, a).None? || a.audited then []
    else DeletesMade(Committed(b, s, a).value.1.session, p.undoing, p.deletes)
  }

  // The sessions that the attempt created and did not end itself.
  function SessionsStanding(b: Bounds, s: Registry, a: Attempt, p: Provider): int {
    SessionsLeft(PostsOf(b, s, a, p)) - if Ended(DeletesOf(b, s, a, p)) then 1 else 0
  }

  // An opened session has no resource to name, or its teardown did not end it.
  predicate TeardownFailed(posts: seq<Post>, deletes: seq<Delete>) {
    && posts != [] && posts[|posts| - 1].answer.Opened?
    && (posts[|posts| - 1].answer.session.None? || !Ended(deletes))
  }

  /**
    A session outlives a failed attempt exactly behind an ambiguous last POST or a failed teardown; a successful
    attempt stands for one session, whose resource its lease records. There is never a second one.
   */
  lemma SessionOutlivesIff(b: Bounds, s: Registry, a: Attempt, p: Provider)
    requires ValidBounds(b) && Inv(b, s) && Apart(b, s, a) && Consistent(a, p)
    ensures var posts, deletes := PostsOf(b, s, a, p), DeletesOf(b, s, a, p);
      var lease := OpenSession(b, s, a).1;
      && 0 <= SessionsStanding(b, s, a, p) <= 1
      && (posts != [] <==> Reserve(b, s, a.node).1.Some? && a.authorized && p.tokens.0)
      && (lease.Some? ==> SessionsStanding(b, s, a, p) == 1 && Some(lease.value.session) == a.session)
      && (lease.None? ==> (SessionsStanding(b, s, a, p) == 1 <==> LeftUnseen(posts) || TeardownFailed(posts, deletes)))
  {
    OpenSessionAmongOthers(b, s, a);
    AtMostOneProviderSession(p.tokens, p.posts);
    if Reserve(b, s, a.node).1.Some? {
      NegotiatedHolds(b, s, a);
      PostedAgainIff(p.tokens, p.posts);
    }
  }
}
