/** What every run of atomic recruitment requests keeps (services/community.py). */
module RecruitmentRuns {
  import opened Wrappers
  import opened Recruitment

  datatype Request =
    | CreateRequest(userId: int, title: string, content: string, capacity: int, deadline: int,
                    meetingDate: Option<int>, planId: Option<int>)
    | UpdateRequest(postId: int, userId: int, update: PostUpdate)
    | DeleteRequest(postId: int, userId: int)
    | AdminDeleteRequest(postId: int)
    | ApplyRequest(postId: int, userId: int, now: int, today: int)
    | CancelRequest(postId: int, userId: int, status: ParticipantStatus)
    | DecideRequest(postId: int, participantId: int, organizerId: int, status: ParticipantStatus, now: int)

  /** What looking up the user's application to the post may find. */
  predicate Finds(s: Store, postId: int, userId: int, existing: Option<int>) {
    if existing.Some? then IsApplication(s, existing.value, postId, userId) else !HasApplied(s, postId, userId)
  }

  predicate LooksUp(s: Store, r: Request, existing: Option<int>) {
    match r
    case ApplyRequest(postId, userId, _, _) => Finds(s, postId, userId, existing)
    case CancelRequest(postId, userId, _) => Finds(s, postId, userId, existing)
    case _ => existing.None?
  }

  function Handle(s: Store, r: Request, existing: Option<int>): Outcome
    requires LooksUp(s, r, existing)
  {
    match r
    case CreateRequest(userId, title, content, capacity, deadline, meetingDate, planId) =>
      CreatePost(s, userId, title, content, capacity, deadline, meetingDate, planId)
    case UpdateRequest(postId, userId, update) => UpdatePost(s, postId, userId, update)
    case DeleteRequest(postId, userId) => DeletePost(s, postId, userId)
    case AdminDeleteRequest(postId) => DeletePostAsAdmin(s, postId)
    case ApplyRequest(postId, userId, now, today) => Apply(s, postId, userId, existing, now, today)
    case CancelRequest(_, _, status) => Cancel(s, existing, status)
    case DecideRequest(postId, participantId, organizerId, status, now) =>
        Decide(s, postId, participantId, organizerId, status, now)
  }

  /** A request commits its outcome or, on an error, changes nothing. */
  ghost predicate Next(s: Store, r: Request, s': Store) {
    exists existing :: LooksUp(s, r, existing) &&
        s' == (if Handle(s, r, existing).Ok? then Handle(s, r, existing).value else s)
  }

  /** A run from the empty store; states[i + 1] follows states[i] by requests[i]. */
  ghost predicate IsRun(states: seq<Store>, requests: seq<Request>, plans: set<int>) {
    && |states| == |requests| + 1
    && states[0] == Store(map[], map[], 1, 1, plans)
    && forall i :: 0 <= i < |requests| ==> Next(states[i], requests[i], states[i + 1])
  }

  // ---------- The invariant ----------

  predicate IsTimed(p: Participant) {
    (p.status == Applied ==> p.respondedAt.None?) && (p.status == Accepted || p.status == Rejected ==>
        p.respondedAt.Some?)
  }

  ghost predicate IsSound(s: Store, id: int)
    requires id in s.participants
  {
    var p := s.participants[id];
    && id < s.nextParticipantId && IsTimed(p)
    && p.postId in s.posts && s.posts[p.postId].userId != p.userId
  }

  /** One row per post and user. */
  ghost predicate OneApplicationEach(s: Store) {
    forall i, j :: i in s.participants && j in s.participants && i != j ==>
      s.participants[i].postId != s.participants[j].postId || s.participants[i].userId != s.participants[j].userId
  }

  ghost predicate WithinCapacity(s: Store) {
    forall postId :: postId in s.posts ==> CountAccepted(s, postId) <= s.posts[postId].capacity
  }

  ghost predicate Valid(s: Store) {
    && (forall id :: id in s.participants ==> IsSound(s, id))
    && (forall postId :: postId in s.posts ==> postId < s.nextPostId)
    && OneApplicationEach(s)
    && WithinCapacity(s)
  }

  // ---------- How requests change the accepted ----------

  lemma AcceptedAfterChange(s: Store, id: int, p: Participant, postId: int)
    ensures AcceptedIds(WithParticipant(s, id, p), postId)
         == AcceptedIds(s, postId) - {id} + (if p.postId == postId && p.status == Accepted then {id} else {})
  {
  }

  lemma FewerWithout(ids: set<int>, id: int)
    ensures |ids - {id}| <= |ids|
  {
    assert ids == (ids - {id}) + (ids * {id});
  }

  /** Changing a row to a status other than accepted never raises a count. */
  lemma CountAfterNonAcceptance(s: Store, id: int, p: Participant, postId: int)
    requires p.status != Accepted
    ensures CountAccepted(WithParticipant(s, id, p), postId) <= CountAccepted(s, postId)
  {
    AcceptedAfterChange(s, id, p, postId);
    hide AcceptedIds, WithParticipant;
    FewerWithout(AcceptedIds(s, postId), id);
  }

  lemma CountAfterAcceptance(s: Store, id: int, p: Participant, postId: int)
    requires id in s.participants && s.participants[id].status != Accepted && s.participants[id].postId == p.postId
    requires p.status == Accepted
    ensures CountAccepted(WithParticipant(s, id, p), postId) == CountAccepted(s, postId)
            + (if p.postId == postId then 1 else 0)
  {
    AcceptedAfterChange(s, id, p, postId);
    assert id !in AcceptedIds(s, postId);
    assert AcceptedIds(s, postId) - {id} == AcceptedIds(s, postId);
  }

  /** How a change of one row changes the number accepted. */
  lemma CountAfterChange(s: Store, id: int, s': Store, postId: int)
    requires id in s'.participants && s'.participants == s.participants[id := s'.participants[id]]
    ensures CountAccepted(s', postId)
            == CountAccepted(s, postId)
               - (if id in AcceptedIds(s, postId) then 1 else 0) + (if id in AcceptedIds(s', postId) then 1 else 0)
  {
    var p := s'.participants[id];
    AcceptedAfterChange(s, id, p, postId);
    AcceptedOfNewPost(WithParticipant(s, id, p), s', postId);
    assert AcceptedIds(s, postId) - {id} == AcceptedIds(s', postId) - {id};
    SizeWithout(AcceptedIds(s, postId), id);
    SizeWithout(AcceptedIds(s', postId), id);
  }

  lemma SizeWithout(ids: set<int>, id: int)
    ensures |ids - {id}| == |ids| - (if id in ids then 1 else 0)
  {
    if id !in ids {
      assert ids - {id} == ids;
    }
  }

  lemma AcceptedOfNewPost(s: Store, s': Store, postId: int)
    requires s'.participants == s.participants
    ensures AcceptedIds(s', postId) == AcceptedIds(s, postId)
  {
  }

  lemma NoneAcceptedOnFreshPost(s: Store)
    requires Valid(s)
    ensures AcceptedIds(s, s.nextPostId) == {}
  {
    forall id | id in s.participants
      ensures s.participants[id].postId != s.nextPostId
    {
      assert IsSound(s, id);
    }
  }

  lemma AcceptedWithoutPost(s: Store, gone: int, postId: int)
    requires postId != gone
    ensures AcceptedIds(WithoutPost(s, gone), postId) == AcceptedIds(s, postId)
  {
  }

  // ---------- Every request keeps the invariant ----------

  lemma ParticipantChangeKeepsValid(s: Store, id: int, p: Participant, nextParticipantId: int)
    requires Valid(s) && nextParticipantId >= s.nextParticipantId && id < nextParticipantId
    requires IsTimed(p) && p.postId in s.posts && s.posts[p.postId].userId != p.userId
    requires forall other :: other in s.participants && other != id ==>
               s.participants[other].postId != p.postId || s.participants[other].userId != p.userId
    requires forall postId :: postId in s.posts ==>
               CountAccepted(WithParticipant(s, id, p), postId) <= s.posts[postId].capacity
    ensures Valid(WithParticipant(s, id, p).(nextParticipantId := nextParticipantId))
  {
    var s' := WithParticipant(s, id, p).(nextParticipantId := nextParticipantId);
    forall other | other in s'.participants
      ensures IsSound(s', other)
    {
      if other != id {
        assert IsSound(s, other);
      }
    }
    forall postId | postId in s'.posts
      ensures CountAccepted(s', postId) <= s'.posts[postId].capacity
    {
      AcceptedOfNewPost(WithParticipant(s, id, p), s', postId);
    }
  }

  lemma ApplyKeepsValid(s: Store, postId: int, userId: int, existing: Option<int>, now: int, today: int)
    requires Valid(s) && Finds(s, postId, userId, existing)
    ensures var outcome := Apply(s, postId, userId, existing, now, today); outcome.Ok? ==> Valid(outcome.value)
  {
    hide AcceptedIds, Valid;
    if Apply(s, postId, userId, existing, now, today).Ok? {
      var id := if existing.Some? then existing.value else s.nextParticipantId;
      var p := Participant(postId, userId, Applied, now, None);
      OtherApplications(s, postId, userId, existing, id);
      CountsStayWithin(s, id, p);
      ParticipantChangeKeepsValid(s, id, p, if existing.Some? then s.nextParticipantId else id + 1);
    }
  }

  lemma CountsStayWithin(s: Store, id: int, p: Participant)
    requires Valid(s) && p.status != Accepted
    ensures forall postId :: postId in s.posts ==>
              CountAccepted(WithParticipant(s, id, p), postId) <= s.posts[postId].capacity
  {
    forall postId | postId in s.posts
      ensures CountAccepted(WithParticipant(s, id, p), postId) <= s.posts[postId].capacity
    {
      CountAfterNonAcceptance(s, id, p, postId);
    }
  }

  lemma OtherApplications(s: Store, postId: int, userId: int, existing: Option<int>, id: int)
    requires Valid(s) && Finds(s, postId, userId, existing)
    requires id == (if existing.Some? then existing.value else s.nextParticipantId)
    ensures existing.Some? ==> id < s.nextParticipantId
    ensures forall other :: other in s.participants && other != id ==>
              s.participants[other].postId != postId || s.participants[other].userId != userId
  {
    if existing.Some? {
      assert IsSound(s, id);
    } else {
      assert forall other :: other in s.participants ==> !IsApplication(s, other, postId, userId);
    }
  }

  lemma CancelKeepsValid(s: Store, existing: Option<int>, status: ParticipantStatus)
    requires Valid(s) && (existing.Some? ==> existing.value in s.participants)
    ensures var outcome := Cancel(s, existing, status); outcome.Ok? ==> Valid(outcome.value)
  {
    hide AcceptedIds;
    if Cancel(s, existing, status).Ok? {
      var id := existing.value;
      assert IsSound(s, id);
      var p := s.participants[id].(status := Canceled);
      CountsStayWithin(s, id, p);
      ParticipantChangeKeepsValid(s, id, p, s.nextParticipantId);
    }
  }

  lemma ClosingKeepsValid(s: Store, postId: int, status: RecruitStatus)
    requires Valid(s) && postId in s.posts
    ensures Valid(s.(posts := s.posts[postId := s.posts[postId].(status := status)]))
  {
    var s' := s.(posts := s.posts[postId := s.posts[postId].(status := status)]);
    forall id | id in s'.participants
      ensures IsSound(s', id)
    {
      assert IsSound(s, id);
    }
    forall other | other in s'.posts
      ensures CountAccepted(s', other) <= s'.posts[other].capacity
    {
      AcceptedOfNewPost(s, s', other);
    }
  }

  lemma DecideKeepsValid(s: Store, postId: int, participantId: int, organizerId: int, status: ParticipantStatus,
                         now: int)
    requires Valid(s)
    ensures var outcome := Decide(s, postId, participantId, organizerId, status, now); outcome.Ok? ==>
              Valid(outcome.value)
  {
    hide AcceptedIds;
    if Decide(s, postId, participantId, organizerId, status, now).Ok? {
      assert IsSound(s, participantId);
      var p := s.participants[participantId].(status := status, respondedAt := Some(now));
      if status == Accepted {
        forall other | other in s.posts
          ensures CountAccepted(WithParticipant(s, participantId, p), other) <= s.posts[other].capacity
        {
          CountAfterAcceptance(s, participantId, p, other);
        }
      } else {
        CountsStayWithin(s, participantId, p);
      }
      ParticipantChangeKeepsValid(s, participantId, p, s.nextParticipantId);
      ClosingKeepsValid(WithParticipant(s, participantId, p), postId, Closed);
    }
  }

  lemma CreateKeepsValid(s: Store, post: Post)
    requires Valid(s) && post.capacity >= 1
    ensures Valid(s.(posts := s.posts[s.nextPostId := post], nextPostId := s.nextPostId + 1))
  {
    var s' := s.(posts := s.posts[s.nextPostId := post], nextPostId := s.nextPostId + 1);
    NoneAcceptedOnFreshPost(s);
    forall id | id in s'.participants
      ensures IsSound(s', id)
    {
      assert IsSound(s, id);
    }
    forall postId | postId in s'.posts
      ensures CountAccepted(s', postId) <= s'.posts[postId].capacity
    {
      AcceptedOfNewPost(s, s', postId);
    }
  }

  lemma UpdateKeepsValid(s: Store, postId: int, userId: int, u: PostUpdate)
    requires Valid(s)
    ensures var outcome := UpdatePost(s, postId, userId, u); outcome.Ok? ==> Valid(outcome.value)
  {
    var outcome := UpdatePost(s, postId, userId, u);
    if outcome.Ok? {
      var s' := outcome.value;
      forall id | id in s'.participants
        ensures IsSound(s', id)
      {
        assert IsSound(s, id);
      }
      forall other | other in s'.posts
        ensures CountAccepted(s', other) <= s'.posts[other].capacity
      {
        AcceptedOfNewPost(s, s', other);
      }
    }
  }

  lemma DeletionKeepsValid(s: Store, postId: int)
    requires Valid(s)
    ensures Valid(WithoutPost(s, postId))
  {
    var s' := WithoutPost(s, postId);
    forall id | id in s'.participants
      ensures IsSound(s', id)
    {
      assert IsSound(s, id);
    }
    forall other | other in s'.posts
      ensures CountAccepted(s', other) <= s'.posts[other].capacity
    {
      AcceptedWithoutPost(s, postId, other);
    }
  }

  lemma NextKeepsValid(s: Store, r: Request, s': Store)
    requires Valid(s) && Next(s, r, s')
    ensures Valid(s')
  {
    hide Valid, Apply, Cancel, Decide, UpdatePost, WithoutPost, HasApplied;
    var existing :| LooksUp(s, r, existing) &&
        s' == (if Handle(s, r, existing).Ok? then Handle(s, r, existing).value else s);
    match r {
      case CreateRequest(userId, title, content, capacity, deadline, meetingDate, planId) =>
        if s' != s {
          CreateKeepsValid(s, Post(userId, title, content, capacity, deadline, Recruiting, meetingDate, planId));
        }
      case UpdateRequest(postId, userId, update) => UpdateKeepsValid(s, postId, userId, update);
      case DeleteRequest(postId, userId) => DeletionKeepsValid(s, postId);
      case AdminDeleteRequest(postId) => DeletionKeepsValid(s, postId);
      case ApplyRequest(postId, userId, now, today) => ApplyKeepsValid(s, postId, userId, existing, now, today);
      case CancelRequest(postId, userId, status) => CancelKeepsValid(s, existing, status);
      case DecideRequest(postId, participantId, organizerId, status, now) =>
        DecideKeepsValid(s, postId, participantId, organizerId, status, now);
    }
  }

  /** In every state of every run: accepted participants never exceed the capacity, each user has at most one row per
      post and none on their own, and the response time is set exactly as the status demands. */
  lemma {:induction false} RunsStayValid(states: seq<Store>, requests: seq<Request>, plans: set<int>, n: nat)
    requires IsRun(states, requests, plans) && n < |states|
    ensures Valid(states[n])
  {
    hide Next, IsSound, OneApplicationEach;
    if n == 0 {
      NoParticipantsYet(states[0]);
    } else {
      RunsStayValid(states, requests, plans, n - 1);
      NextKeepsValid(states[n - 1], requests[n - 1], states[n]);
    }
  }

  lemma NoParticipantsYet(s: Store)
    requires s.participants == map[] && s.posts == map[]
    ensures Valid(s)
  {
  }

  // ---------- How an application moves ----------

  /** The moves one request can make with an application that exists before and after it. */
  predicate IsMove(before: ParticipantStatus, after: ParticipantStatus) {
    match before
    case Applied => true
    case Accepted => after == Accepted || after == Canceled
    case Rejected => after == Rejected || after == Applied
    case Canceled => after == Canceled || after == Applied
  }

  /** Applications keep their post and user and move only along the allowed steps; new ones start as applied under a
      fresh id. */
  lemma RequestsMakeMoves(s: Store, r: Request, s': Store, id: int)
    requires Valid(s) && Next(s, r, s') && id in s'.participants
    ensures id in s.participants ==>
      && s'.participants[id].postId == s.participants[id].postId &&
          s'.participants[id].userId == s.participants[id].userId
      && IsMove(s.participants[id].status, s'.participants[id].status)
    ensures id !in s.participants ==> id == s.nextParticipantId && s'.participants[id].status == Applied
    ensures s.nextParticipantId <= s'.nextParticipantId
  {
    hide AcceptedIds, HasApplied, OneApplicationEach, WithinCapacity;
  }

  lemma RunsNeverReuseIds(states: seq<Store>, requests: seq<Request>, plans: set<int>, n: nat, id: int)
    requires IsRun(states, requests, plans) && n < |requests| && id < states[n].nextParticipantId
    requires id in states[n + 1].participants
    ensures id in states[n].participants
  {
    hide Valid;
    RunsStayValid(states, requests, plans, n);
    RequestsMakeMoves(states[n], requests[n], states[n + 1], id);
  }

  /** An application that was rejected or canceled and is accepted later was applied again in between. */
  lemma {:induction false} AcceptedOnlyThroughApplied(states: seq<Store>, requests: seq<Request>, plans: set<int>,
                                                      i: nat, j: nat, id: int)
    returns (k: nat)
    requires IsRun(states, requests, plans) && i <= j < |states|
    requires id in states[i].participants && id in states[j].participants
    requires states[i].participants[id].status == Rejected || states[i].participants[id].status == Canceled
    requires states[j].participants[id].status == Accepted
    ensures i < k < j && id in states[k].participants && states[k].participants[id].status == Applied
    decreases j
  {
    hide Valid, Next;
    RunsStayValid(states, requests, plans, j - 1);
    NextIdsGrow(states, requests, plans, i, j - 1, id);
    RunsNeverReuseIds(states, requests, plans, j - 1, id);
    RequestsMakeMoves(states[j - 1], requests[j - 1], states[j], id);
    if states[j - 1].participants[id].status == Applied {
      k := j - 1;
    } else {
      k := AcceptedOnlyThroughApplied(states, requests, plans, i, j - 1, id);
    }
  }

  lemma {:induction false} NextIdsGrow(states: seq<Store>, requests: seq<Request>, plans: set<int>, i: nat, j: nat,
                                       id: int)
    requires IsRun(states, requests, plans) && i <= j < |states| && id in states[i].participants
    ensures id < states[j].nextParticipantId
    decreases j
  {
    hide Next;
    if i == j {
      RunsStayValid(states, requests, plans, i);
      assert IsSound(states[i], id);
    } else {
      NextIdsGrow(states, requests, plans, i, j - 1, id);
      IdCounterGrows(states[j - 1], requests[j - 1], states[j]);
    }
  }

  lemma IdCounterGrows(s: Store, r: Request, s': Store)
    requires Next(s, r, s')
    ensures s.nextParticipantId <= s'.nextParticipantId
  {
    hide AcceptedIds, HasApplied;
  }

  // ---------- Full posts ----------

  ghost predicate FullPostsAreClosed(s: Store) {
    forall postId :: postId in s.posts && CountAccepted(s, postId) >= s.posts[postId].capacity ==>
        s.posts[postId].status == Closed
  }

  /** Without updates a full post is closed: acceptance closes it, and nothing else fills it. */
  lemma NextKeepsFullPostsClosed(s: Store, r: Request, s': Store)
    requires Valid(s) && FullPostsAreClosed(s) && Next(s, r, s') && !r.UpdateRequest?
    ensures FullPostsAreClosed(s')
  {
    forall postId | postId in s'.posts && CountAccepted(s', postId) >= s'.posts[postId].capacity
      ensures s'.posts[postId].status == Closed
    {
      FullPostIsClosed(s, r, s', postId);
    }
  }

  lemma FullPostIsClosed(s: Store, r: Request, s': Store, postId: int)
    requires Valid(s) && FullPostsAreClosed(s) && Next(s, r, s') && !r.UpdateRequest?
    requires postId in s'.posts && CountAccepted(s', postId) >= s'.posts[postId].capacity
    ensures s'.posts[postId].status == Closed
  {
    hide AcceptedIds, HasApplied, Valid;
    var existing :| LooksUp(s, r, existing) &&
        s' == (if Handle(s, r, existing).Ok? then Handle(s, r, existing).value else s);
    if s' != s {
      match r {
        case CreateRequest(userId, title, content, capacity, deadline, meetingDate, planId) =>
          NoneAcceptedOnFreshPost(s);
          AcceptedOfNewPost(s, s', postId);
        case DeleteRequest(gone, userId) => AcceptedWithoutPost(s, gone, postId);
        case AdminDeleteRequest(gone) => AcceptedWithoutPost(s, gone, postId);
        case ApplyRequest(_, userId, now, today) =>
          var id := if existing.Some? then existing.value else s.nextParticipantId;
          CountAfterNonAcceptance(s, id, s'.participants[id], postId);
          AcceptedOfNewPost(WithParticipant(s, id, s'.participants[id]), s', postId);
        case CancelRequest(_, _, status) => CountAfterNonAcceptance(s, existing.value,
                                                                    s'.participants[existing.value], postId);
        case DecideRequest(decided, id, organizerId, status, now) =>
          var p := s'.participants[id];
          AcceptedOfNewPost(WithParticipant(s, id, p), s', postId);
          if status == Accepted {
            CountAfterAcceptance(s, id, p, postId);
          } else {
            CountAfterNonAcceptance(s, id, p, postId);
          }
      }
    }
  }

  /** In a run without updates every full post is closed in every state. */
  lemma {:induction false} FullPostsStayClosed(states: seq<Store>, requests: seq<Request>, plans: set<int>, n: nat)
    requires IsRun(states, requests, plans) && n < |states|
    requires forall i :: 0 <= i < n ==> !requests[i].UpdateRequest?
    ensures FullPostsAreClosed(states[n])
  {
    hide Next, Valid;
    if n > 0 {
      FullPostsStayClosed(states, requests, plans, n - 1);
      RunsStayValid(states, requests, plans, n - 1);
      NextKeepsFullPostsClosed(states[n - 1], requests[n - 1], states[n]);
    }
  }

  /** Only an update reopens a closed post, even when a cancellation frees a place. */
  lemma ClosedStaysClosed(s: Store, r: Request, s': Store, postId: int)
    requires Valid(s) && Next(s, r, s') && !r.UpdateRequest?
    requires postId in s.posts && s.posts[postId].status == Closed && postId in s'.posts
    ensures s'.posts[postId].status == Closed && s'.posts[postId].capacity == s.posts[postId].capacity
  {
    hide AcceptedIds, HasApplied, OneApplicationEach, WithinCapacity;
  }

  /** A post that is closed stays closed as long as it exists and nobody updates a post. */
  lemma {:induction false} ClosedPostsStayClosed(states: seq<Store>, requests: seq<Request>, plans: set<int>, i: nat,
                                                 j: nat, postId: int)
    requires IsRun(states, requests, plans) && i <= j < |states|
    requires postId in states[i].posts && states[i].posts[postId].status == Closed && postId in states[j].posts
    requires forall k :: i <= k < j ==> !requests[k].UpdateRequest?
    ensures states[j].posts[postId].status == Closed
    decreases j
  {
    if i < j {
      hide Valid, Next;
      RunsStayValid(states, requests, plans, j - 1);
      PostExistedBefore(states, requests, plans, i, j, postId);
      ClosedPostsStayClosed(states, requests, plans, i, j - 1, postId);
      ClosedStaysClosed(states[j - 1], requests[j - 1], states[j], postId);
    }
  }

  /** Post ids are not used twice: a post that is there again never went. */
  lemma {:induction false} PostExistedBefore(states: seq<Store>, requests: seq<Request>, plans: set<int>, i: nat,
                                             j: nat, postId: int)
    requires IsRun(states, requests, plans) && i < j < |states|
    requires postId in states[i].posts && postId in states[j].posts
    ensures postId in states[j - 1].posts
  {
    hide Next;
    RunsStayValid(states, requests, plans, i);
    PostIdsGrow(states, requests, plans, i, j - 1);
    PostIdIsFresh(states[j - 1], requests[j - 1], states[j], postId);
  }

  lemma {:induction false} PostIdsGrow(states: seq<Store>, requests: seq<Request>, plans: set<int>, i: nat, j: nat)
    requires IsRun(states, requests, plans) && i <= j < |states|
    ensures states[i].nextPostId <= states[j].nextPostId
    decreases j
  {
    if i < j {
      PostIdsGrow(states, requests, plans, i, j - 1);
      hide AcceptedIds, HasApplied;
      assert Next(states[j - 1], requests[j - 1], states[j - 1 + 1]);
    }
  }

  lemma PostIdIsFresh(s: Store, r: Request, s': Store, postId: int)
    requires Next(s, r, s') && postId in s'.posts
    ensures postId in s.posts || postId == s.nextPostId
  {
    hide AcceptedIds, HasApplied;
  }

  /** An update keeps full posts closed exactly when it leaves its own post closed or with a free place. */
  lemma UpdateKeepsFullPostsClosedExactly(s: Store, postId: int, userId: int, u: PostUpdate)
    requires FullPostsAreClosed(s) && UpdatePost(s, postId, userId, u).Ok?
    ensures FullPostsAreClosed(UpdatePost(s, postId, userId, u).value)
            <==> (Kept(u.status, s.posts[postId].status) == Closed
                  || CountAccepted(s, postId) < Kept(u.capacity, s.posts[postId].capacity))
  {
    var s' := UpdatePost(s, postId, userId, u).value;
    forall other
      ensures CountAccepted(s', other) == CountAccepted(s, other)
    {
      AcceptedOfNewPost(s, s', other);
    }
    assert postId in s'.posts;
  }

  /** Lowering the capacity to the number accepted leaves a full post recruiting. */
  lemma UpdateCanLeaveAFullPostRecruiting(s: Store, postId: int)
    requires Valid(s) && postId in s.posts && s.posts[postId].status == Recruiting
    requires 1 <= CountAccepted(s, postId) < s.posts[postId].capacity
    ensures exists u :: UpdatePost(s, postId, s.posts[postId].userId, u).Ok?
                     && !FullPostsAreClosed(UpdatePost(s, postId, s.posts[postId].userId, u).value)
  {
    var u := PostUpdate(Unset, Unset, Given(CountAccepted(s, postId)), Unset, Unset, Unset, Unset);
    var s' := UpdatePost(s, postId, s.posts[postId].userId, u).value;
    AcceptedOfNewPost(s, s', postId);
    assert postId in s'.posts && CountAccepted(s', postId) >= s'.posts[postId].capacity;
  }
}
