/** The recruitment service itself (services/community.py): each of its methods takes one step of a run, so that all
    that holds of runs holds of it. */
module CommunityService {
  import opened Wrappers
  import opened Recruitment
  import opened RecruitmentRuns

  /** The user is the post's author. */
  predicate IsOwn(posts: map<int, Post>, postId: int, userId: int) {
    postId in posts && posts[postId].userId == userId
  }

  /** Somebody else's post, which recruits and whose deadline has not passed. */
  predicate IsOpenTo(posts: map<int, Post>, postId: int, userId: int, today: int) {
    && postId in posts && posts[postId].userId != userId
    && posts[postId].status == Recruiting && today <= posts[postId].deadline
  }

  /** The user has a row for the post that is applied or accepted. */
  predicate IsTakingPart(participants: map<int, Participant>, postId: int, userId: int) {
    exists id :: id in participants && IsRow(participants[id], postId, userId)
              && (participants[id].status == Applied || participants[id].status == Accepted)
  }

  predicate IsRow(p: Participant, postId: int, userId: int) {
    p.postId == postId && p.userId == userId
  }

  predicate HasRow(participants: map<int, Participant>, postId: int, userId: int) {
    exists id :: id in participants && IsRow(participants[id], postId, userId)
  }

  predicate IsDecision(status: ParticipantStatus) {
    status == Accepted || status == Rejected
  }

  predicate IsPending(participants: map<int, Participant>, id: int, postId: int) {
    id in participants && participants[id].postId == postId && participants[id].status == Applied
  }

  predicate IsSubmittable(title: string, content: string, capacity: int) {
    1 <= |title| <= 100 && |content| >= 1 && capacity >= 1
  }

  /** What is given could be the title, content and capacity of a post. */
  predicate IsSubmittableUpdate(u: PostUpdate) {
    && (u.title.Given? ==> 1 <= |u.title.value| <= 100)
    && (u.content.Given? ==> |u.content.value| >= 1)
    && (u.capacity.Given? ==> u.capacity.value >= 1)
  }

  /** No column is set to null that must have a value. */
  predicate KeepsRequired(u: PostUpdate) {
    !u.title.Null? && !u.content.Null? && !u.capacity.Null? && !u.deadline.Null? && !u.status.Null?
  }

  /** A field that is given replaces the stored value; one that is left out keeps it. */
  predicate Replaces<T(==)>(field: Field<T>, before: T, after: T) {
    (field.Given? ==> after == field.value) && (field.Unset? ==> after == before)
  }

  /** Null empties the column. */
  predicate ReplacesOrClears<T(==)>(field: Field<T>, before: Option<T>, after: Option<T>) {
    && (field.Given? ==> after == Some(field.value)) && (field.Unset? ==> after == before)
    && (field.Null? ==> after.None?)
  }

  predicate IsUpdateOf(before: Post, u: PostUpdate, after: Post) {
    && after.userId == before.userId
    && Replaces(u.title, before.title, after.title) && Replaces(u.content, before.content, after.content)
    && Replaces(u.capacity, before.capacity, after.capacity) && Replaces(u.deadline, before.deadline, after.deadline)
    && Replaces(u.status, before.status, after.status)
    && ReplacesOrClears(u.meetingDate, before.meetingDate, after.meetingDate)
    && ReplacesOrClears(u.planId, before.planId, after.planId)
  }

  class CommunityService {
    var posts: map<int, Post>
    var participants: map<int, Participant>
    var nextPostId: int
    var nextParticipantId: int
    const plans: set<int>

    /** The requests served so far, and the states before, between and after them. */
    ghost var requests: seq<Request>
    ghost var states: seq<Store>

    function State(): Store
      reads this
    {
      Store(posts, participants, nextPostId, nextParticipantId, plans)
    }

    /** The service's history is a run that ends in its present state. */
    ghost predicate Valid()
      reads this
    {
      IsRun(states, requests, plans) && states[|requests|] == State()
    }

    constructor (plans: set<int>)
      ensures Valid() && this.plans == plans && requests == [] && posts == map[] && participants == map[]
    {
      this.plans := plans;
      posts, participants, nextPostId, nextParticipantId := map[], map[], 1, 1;
      requests, states := [], [Store(map[], map[], 1, 1, plans)];
    }

    /** What every state of the service satisfies. */
    lemma ValidState()
      requires Valid()
      ensures RecruitmentRuns.Valid(State())
    {
      RunsStayValid(states, requests, plans, |requests|);
    }

    /** Adds the step to the history. */
    ghost method Took(r: Request)
      requires IsRun(states, requests, plans) && Next(states[|requests|], r, State())
      modifies this`requests, this`states
      ensures Valid() && requests == old(requests) + [r]
    {
      requests, states := requests + [r], states + [State()];
      hide Next;
      forall i | 0 <= i < |requests|
        ensures Next(states[i], requests[i], states[i + 1])
      {
      }
    }

    /** The application of the user to the post: there is at most one. */
    method FindParticipant(postId: int, userId: int) returns (found: Option<int>)
      requires Valid()
      ensures Finds(State(), postId, userId, found)
      ensures forall id :: IsApplication(State(), id, postId, userId) <==> found == Some(id)
    {
      ValidState();
      if id :| id in participants && IsApplication(State(), id, postId, userId) {
        return Some(id);
      }
      assert !HasApplied(State(), postId, userId);
      return None;
    }

    /** A post is stored as requested under a fresh id, recruiting and with nobody accepted. */
    method Create(userId: int, title: string, content: string, capacity: int, deadline: int,
                  meetingDate: Option<int>, planId: Option<int>)
      returns (r: Result<int, Error>)
      requires Valid()
      modifies this
      ensures Valid()
      ensures requests == old(requests)
                          + [CreateRequest(userId, title, content, capacity, deadline, meetingDate, planId)]
      ensures r.Err? ==> State() == old(State())
      ensures r.Ok? <==> IsSubmittable(title, content, capacity) && (planId.Some? ==> planId.value in plans)
      ensures r == Err(ValidationFailed) <==> !IsSubmittable(title, content, capacity)
      ensures r == Err(PlanNotFound) <==>
                IsSubmittable(title, content, capacity) && planId.Some? && planId.value !in plans
      ensures r.Ok? ==>
                && r.value !in old(posts) && participants == old(participants)
                && posts == old(posts)[r.value := Post(userId, title, content, capacity, deadline, Recruiting,
                                                       meetingDate, planId)]
                && CountAccepted(State(), r.value) == 0 < posts[r.value].capacity
    {
      ghost var before := State();
      ghost var request := CreateRequest(userId, title, content, capacity, deadline, meetingDate, planId);
      ValidState();
      NoneAcceptedOnFreshPost(before);
      hide CountAccepted;
      if capacity < 1 || !IsTitle(title) || content == "" {
        TakesStep(before, request, None);
        Took(request);
        return Err(ValidationFailed);
      }
      if planId.Some? && planId.value !in plans {
        TakesStep(before, request, None);
        Took(request);
        return Err(PlanNotFound);
      }
      var id := nextPostId;
      posts := posts[id := Post(userId, title, content, capacity, deadline, Recruiting, meetingDate, planId)];
      nextPostId := id + 1;
      TakesStep(before, request, None);
      AcceptedOfNewPost(before, State(), id);
      Took(request);
      return Ok(id);
    }

    /** The owner's update of the fields that are given; a post never gets a capacity below the number accepted. */
    method Update(postId: int, userId: int, u: PostUpdate) returns (r: Result<int, Error>)
      requires Valid()
      modifies this`posts, this`requests, this`states
      ensures Valid() && requests == old(requests) + [UpdateRequest(postId, userId, u)]
      ensures r.Err? ==> State() == old(State())
      ensures r == Err(ValidationFailed) <==> !IsSubmittableUpdate(u)
      ensures r == Err(PostNotFound) <==> IsSubmittableUpdate(u) && postId !in old(posts)
      ensures r == Err(PostForbidden) <==>
                IsSubmittableUpdate(u) && postId in old(posts) && old(posts)[postId].userId != userId
      ensures r == Err(PlanNotFound) <==>
                && IsSubmittableUpdate(u) && IsOwn(old(posts), postId, userId)
                && u.planId.Given? && u.planId.value !in plans
      ensures r == Err(CapacityTooLow) <==>
                && IsSubmittableUpdate(u) && IsOwn(old(posts), postId, userId)
                && (u.planId.Given? ==> u.planId.value in plans)
                && u.capacity.Given? && u.capacity.value < CountAccepted(old(State()), postId)
      ensures r == Err(DatabaseRejected) <==>
                && IsSubmittableUpdate(u) && IsOwn(old(posts), postId, userId)
                && (u.planId.Given? ==> u.planId.value in plans)
                && (u.capacity.Given? ==> u.capacity.value >= CountAccepted(old(State()), postId))
                && !KeepsRequired(u)
      ensures r.Ok? <==>
                && IsSubmittableUpdate(u) && IsOwn(old(posts), postId, userId)
                && (u.planId.Given? ==> u.planId.value in plans)
                && (u.capacity.Given? ==> u.capacity.value >= CountAccepted(old(State()), postId))
                && KeepsRequired(u)
      ensures r.Ok? ==>
                && r.value == postId && postId in posts && posts == old(posts)[postId := posts[postId]]
                && IsUpdateOf(old(posts)[postId], u, posts[postId])
                && CountAccepted(State(), postId) <= posts[postId].capacity
    {
      ghost var before := State();
      ghost var request := UpdateRequest(postId, userId, u);
      TakesStep(before, request, None);
      hide CountAccepted;
      if !IsWellFormed(u) {
        Took(request);
        return Err(ValidationFailed);
      }
      if postId !in posts {
        Took(request);
        return Err(PostNotFound);
      }
      var post := posts[postId];
      if post.userId != userId {
        Took(request);
        return Err(PostForbidden);
      }
      if u.planId.Given? && u.planId.value !in plans {
        Took(request);
        return Err(PlanNotFound);
      }
      if u.capacity.Given? {
        var acceptedCount := CountAccepted(State(), postId);
        if u.capacity.value < acceptedCount {
          Took(request);
          return Err(CapacityTooLow);
        }
      }
      if ClearsRequired(u) {
        Took(request);
        return Err(DatabaseRejected);
      }
      posts := posts[postId := Updated(post, u)];
      Took(request);
      ValidState();
      return Ok(postId);
    }

    /** The user's one row for the post is applied, and no other changes; a place is free and the post recruits. */
    method ApplyToPost(postId: int, userId: int, now: int, today: int) returns (r: Result<int, Error>)
      requires Valid()
      modifies this`participants, this`nextParticipantId, this`requests, this`states
      ensures Valid() && requests == old(requests) + [ApplyRequest(postId, userId, now, today)]
      ensures r.Err? ==> State() == old(State())
      ensures r.Ok? ==>
                && IsApplication(State(), r.value, postId, userId)
                && participants == old(participants)[r.value := Participant(postId, userId, Applied, now, None)]
                && (r.value in old(participants) <==> HasRow(old(participants), postId, userId))
                && CountAccepted(State(), postId) == CountAccepted(old(State()), postId)
      ensures r == Err(PostNotFound) <==> postId !in posts
      ensures r == Err(CannotApplyOwnPost) <==> IsOwn(posts, postId, userId)
      ensures r == Err(RecruitClosed) <==>
                && postId in posts && posts[postId].userId != userId
                && (posts[postId].status == Closed || posts[postId].deadline < today)
      ensures r == Err(RecruitFull) <==>
                && IsOpenTo(posts, postId, userId, today)
                && CountAccepted(old(State()), postId) >= posts[postId].capacity
      ensures r == Err(ParticipantAlreadyExists) <==>
                && IsOpenTo(posts, postId, userId, today)
                && CountAccepted(old(State()), postId) < posts[postId].capacity
                && IsTakingPart(old(participants), postId, userId)
      ensures r.Ok? <==>
                && IsOpenTo(posts, postId, userId, today)
                && CountAccepted(old(State()), postId) < posts[postId].capacity
                && !IsTakingPart(old(participants), postId, userId)
    {
      ghost var before := State();
      ghost var request := ApplyRequest(postId, userId, now, today);
      ValidState();
      var found := FindParticipant(postId, userId);
      RowIsFound(before, postId, userId, found);
      hide IsTakingPart, HasRow;
      TakesStep(before, request, found);
      hide CountAccepted;
      if postId !in posts {
        Took(request);
        return Err(PostNotFound);
      }
      var post := posts[postId];
      if post.userId == userId {
        Took(request);
        return Err(CannotApplyOwnPost);
      }
      if post.status != Recruiting || post.deadline < today {
        Took(request);
        return Err(RecruitClosed);
      }
      var acceptedCount := CountAccepted(State(), postId);
      if acceptedCount >= post.capacity {
        Took(request);
        return Err(RecruitFull);
      }
      if found.Some? {
        var p := participants[found.value];
        if p.status == Applied || p.status == Accepted {
          Took(request);
          return Err(ParticipantAlreadyExists);
        }
        participants := participants[found.value := p.(status := Applied, appliedAt := now, respondedAt := None)];
        CountAfterChange(before, found.value, State(), postId);
        Took(request);
        return Ok(found.value);
      }
      var id := nextParticipantId;
      participants := participants[id := Participant(postId, userId, Applied, now, None)];
      nextParticipantId := id + 1;
      ValidRows(before);
      CountAfterChange(before, id, State(), postId);
      Took(request);
      return Ok(id);
    }

    /** The user's open application is canceled; a place is freed exactly if it was accepted, and the post stays as it
        was. */
    method CancelMyApplication(postId: int, userId: int, status: ParticipantStatus) returns (r: Result<int, Error>)
      requires Valid()
      modifies this`participants, this`requests, this`states
      ensures Valid() && requests == old(requests) + [CancelRequest(postId, userId, status)]
      ensures r.Err? ==> State() == old(State())
      ensures r == Err(InvalidParticipantStatus) <==> status != Canceled
      ensures r == Err(ParticipantNotFound) <==> status == Canceled && !HasRow(old(participants), postId, userId)
      ensures r == Err(ParticipantNotCancelable) <==>
                && status == Canceled && HasRow(old(participants), postId, userId)
                && !IsTakingPart(old(participants), postId, userId)
      ensures r.Ok? <==> status == Canceled && IsTakingPart(old(participants), postId, userId)
      ensures r.Ok? ==>
                && IsApplication(old(State()), r.value, postId, userId)
                && participants == old(participants)[r.value := old(participants)[r.value].(status := Canceled)]
                && CountAccepted(State(), postId)
                   == CountAccepted(old(State()), postId)
                      - (if old(participants)[r.value].status == Accepted then 1 else 0)
    {
      ghost var before := State();
      ghost var request := CancelRequest(postId, userId, status);
      var found := FindParticipant(postId, userId);
      RowIsFound(before, postId, userId, found);
      hide IsTakingPart, HasRow;
      TakesStep(before, request, found);
      hide CountAccepted;
      if status != Canceled {
        Took(request);
        return Err(InvalidParticipantStatus);
      }
      if found.None? {
        Took(request);
        return Err(ParticipantNotFound);
      }
      var p := participants[found.value];
      if p.status != Applied && p.status != Accepted {
        Took(request);
        return Err(ParticipantNotCancelable);
      }
      participants := participants[found.value := p.(status := Canceled)];
      CountAfterChange(before, found.value, State(), postId);
      Took(request);
      return Ok(found.value);
    }

    /** An open application is decided. Acceptance takes one place, never more than there are, and closes the post with
        the last of them; rejection takes none. */
    method DecideParticipant(postId: int, participantId: int, organizerId: int, status: ParticipantStatus, now: int)
      returns (r: Result<int, Error>)
      requires Valid()
      modifies this`participants, this`posts, this`requests, this`states
      ensures Valid() && requests == old(requests) + [DecideRequest(postId, participantId, organizerId, status, now)]
      ensures r.Err? ==> State() == old(State())
      ensures r == Err(InvalidParticipantStatus) <==> status == Applied || status == Canceled
      ensures r == Err(PostNotFound) <==> IsDecision(status) && postId !in old(posts)
      ensures r == Err(PostForbidden) <==>
                IsDecision(status) && postId in old(posts) && old(posts)[postId].userId != organizerId
      ensures r == Err(ParticipantNotFound) <==>
                && IsDecision(status) && IsOwn(old(posts), postId, organizerId)
                && (participantId in old(participants) ==> old(participants)[participantId].postId != postId)
      ensures r == Err(ParticipantNotPending) <==>
                && IsDecision(status) && IsOwn(old(posts), postId, organizerId)
                && participantId in old(participants) && old(participants)[participantId].postId == postId
                && old(participants)[participantId].status != Applied
      ensures r == Err(RecruitFull) <==>
                && status == Accepted && IsOwn(old(posts), postId, organizerId)
                && IsPending(old(participants), participantId, postId)
                && CountAccepted(old(State()), postId) == old(posts)[postId].capacity
      ensures r.Ok? <==>
                && IsDecision(status) && IsOwn(old(posts), postId, organizerId)
                && IsPending(old(participants), participantId, postId)
                && (status == Accepted ==> CountAccepted(old(State()), postId) < old(posts)[postId].capacity)
      ensures r.Ok? ==>
                && r.value == participantId
                && participants == old(participants)[participantId := old(participants)[participantId].(
                     status := status, respondedAt := Some(now))]
                && CountAccepted(State(), postId)
                   == CountAccepted(old(State()), postId) + (if status == Accepted then 1 else 0)
                && posts == (if status == Accepted && CountAccepted(State(), postId) == old(posts)[postId].capacity
                             then old(posts)[postId := old(posts)[postId].(status := Closed)] else old(posts))
    {
      ghost var before := State();
      ghost var request := DecideRequest(postId, participantId, organizerId, status, now);
      ValidState();
      TakesStep(before, request, None);
      hide CountAccepted;
      if status != Accepted && status != Rejected {
        Took(request);
        return Err(InvalidParticipantStatus);
      }
      if postId !in posts {
        Took(request);
        return Err(PostNotFound);
      }
      var post := posts[postId];
      if post.userId != organizerId {
        Took(request);
        return Err(PostForbidden);
      }
      if participantId !in participants || participants[participantId].postId != postId {
        Took(request);
        return Err(ParticipantNotFound);
      }
      var p := participants[participantId];
      if p.status != Applied {
        Took(request);
        return Err(ParticipantNotPending);
      }
      if status == Accepted {
        var acceptedCount := CountAccepted(State(), postId);
        if acceptedCount >= post.capacity {
          Took(request);
          return Err(RecruitFull);
        }
        participants := participants[participantId := p.(status := Accepted, respondedAt := Some(now))];
        if acceptedCount + 1 >= post.capacity {
          posts := posts[postId := post.(status := Closed)];
        }
      } else {
        participants := participants[participantId := p.(status := Rejected, respondedAt := Some(now))];
      }
      CountAfterChange(before, participantId, State(), postId);
      Took(request);
      return Ok(participantId);
    }

    /** The owner's deletion takes exactly the post and its applications. */
    method Delete(postId: int, userId: int) returns (r: Result<int, Error>)
      requires Valid()
      modifies this`posts, this`participants, this`requests, this`states
      ensures Valid() && requests == old(requests) + [DeleteRequest(postId, userId)]
      ensures r.Ok? <==> IsOwn(old(posts), postId, userId)
      ensures r == Err(PostNotFound) <==> postId !in old(posts)
      ensures r == Err(PostForbidden) <==> postId in old(posts) && old(posts)[postId].userId != userId
      ensures r.Err? ==> State() == old(State())
      ensures r.Ok? ==>
                && posts == old(posts) - {postId}
                && (forall id :: id in participants <==>
                      id in old(participants) && old(participants)[id].postId != postId)
                && (forall id :: id in participants ==> participants[id] == old(participants)[id])
    {
      ghost var before := State();
      ghost var request := DeleteRequest(postId, userId);
      TakesStep(before, request, None);
      if postId !in posts {
        Took(request);
        return Err(PostNotFound);
      }
      if posts[postId].userId != userId {
        Took(request);
        return Err(PostForbidden);
      }
      posts := posts - {postId};
      participants := map id | id in participants && participants[id].postId != postId :: participants[id];
      Took(request);
      return Ok(postId);
    }

    /** An administrator deletes any post in the same way. */
    method DeleteAsAdmin(postId: int) returns (r: Result<int, Error>)
      requires Valid()
      modifies this`posts, this`participants, this`requests, this`states
      ensures Valid() && requests == old(requests) + [AdminDeleteRequest(postId)]
      ensures r.Ok? <==> postId in old(posts)
      ensures r.Err? <==> r == Err(PostNotFound)
      ensures r.Err? ==> State() == old(State())
      ensures r.Ok? ==>
                && posts == old(posts) - {postId}
                && (forall id :: id in participants <==>
                      id in old(participants) && old(participants)[id].postId != postId)
                && (forall id :: id in participants ==> participants[id] == old(participants)[id])
    {
      TakesStep(State(), AdminDeleteRequest(postId), None);
      if postId !in posts {
        Took(AdminDeleteRequest(postId));
        return Err(PostNotFound);
      }
      posts := posts - {postId};
      participants := map id | id in participants && participants[id].postId != postId :: participants[id];
      Took(AdminDeleteRequest(postId));
      return Ok(postId);
    }
  }

  /** Handling a request, with what was looked up for it, is a step. */
  lemma TakesStep(s: Store, r: Request, existing: Option<int>)
    requires LooksUp(s, r, existing)
    ensures Next(s, r, if Handle(s, r, existing).Ok? then Handle(s, r, existing).value else s)
  {
  }

  /** The user's one row is the one that was found. */
  lemma RowIsFound(s: Store, postId: int, userId: int, found: Option<int>)
    requires forall id :: IsApplication(s, id, postId, userId) <==> found == Some(id)
    ensures HasRow(s.participants, postId, userId) <==> found.Some?
    ensures found.Some? ==> found.value in s.participants
    ensures IsTakingPart(s.participants, postId, userId)
       <==> (found.Some? && var status := s.participants[found.value].status; status == Applied || status == Accepted)
  {
    assert forall id :: id in s.participants && IsRow(s.participants[id], postId, userId) ==>
        IsApplication(s, id, postId, userId);
    assert found.Some? ==> IsApplication(s, found.value, postId, userId);
  }

  lemma ValidRows(s: Store)
    ensures RecruitmentRuns.Valid(s) ==> s.nextParticipantId !in s.participants
  {
    if RecruitmentRuns.Valid(s) {
      assert forall id :: id in s.participants ==> IsSound(s, id);
    }
  }
}
