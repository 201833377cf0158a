/** The recruitment board: posts with a capacity and the applications to them (services/community.py).
    Each request is one atomic transaction; a request that fails leaves the store unchanged. */
module Recruitment {
  import opened Wrappers

  datatype RecruitStatus = Recruiting | Closed

  datatype ParticipantStatus = Applied | Accepted | Rejected | Canceled

  datatype Post = Post(userId: int, title: string, content: string, capacity: int, deadline: int, status: RecruitStatus,
                       meetingDate: Option<int>, planId: Option<int>)

  datatype Participant = Participant(postId: int, userId: int, status: ParticipantStatus, appliedAt: int,
                                     respondedAt: Option<int>)

  /** The tables, their next ids, and the ids of the existing travel plans. */
  datatype Store = Store(posts: map<int, Post>, participants: map<int, Participant>, nextPostId: int,
                         nextParticipantId: int, plans: set<int>)

  datatype Error =
    | ValidationFailed | DatabaseRejected
    | PostNotFound | PostForbidden | PlanNotFound | CapacityTooLow
    | CannotApplyOwnPost | RecruitClosed | RecruitFull
    | ParticipantAlreadyExists | ParticipantNotFound | ParticipantNotCancelable | ParticipantNotPending
    | InvalidParticipantStatus

  type Outcome = Result<Store, Error>

  /** A field of a partial update: left out, explicitly null, or given. */
  datatype Field<T> = Unset | Null | Given(value: T)

  datatype PostUpdate = PostUpdate(title: Field<string>, content: Field<string>, capacity: Field<int>,
                                   deadline: Field<int>, meetingDate: Field<int>, status: Field<RecruitStatus>,
                                   planId: Field<int>)

  // ---------- Queries ----------

  function AcceptedIds(s: Store, postId: int): set<int> {
    set id | id in s.participants && s.participants[id].postId == postId && s.participants[id].status == Accepted
  }

  /** The number of accepted participants: an aggregate, not a stored column. */
  function CountAccepted(s: Store, postId: int): nat {
    |AcceptedIds(s, postId)|
  }

  predicate IsApplication(s: Store, id: int, postId: int, userId: int) {
    id in s.participants && s.participants[id].postId == postId && s.participants[id].userId == userId
  }

  predicate HasApplied(s: Store, postId: int, userId: int) {
    exists id :: id in s.participants && IsApplication(s, id, postId, userId)
  }

  // ---------- What each request does ----------

  predicate IsTitle(title: string) {
    1 <= |title| <= 100
  }

  function CreatePost(s: Store, userId: int, title: string, content: string, capacity: int, deadline: int,
                      meetingDate: Option<int>, planId: Option<int>): Outcome {
    if capacity < 1 || !IsTitle(title) || content == "" then Err(ValidationFailed)
    else if planId.Some? && planId.value !in s.plans then Err(PlanNotFound)
    else
      var post := Post(userId, title, content, capacity, deadline, Recruiting, meetingDate, planId);
      Ok(s.(posts := s.posts[s.nextPostId := post], nextPostId := s.nextPostId + 1))
  }

  function Kept<T>(field: Field<T>, before: T): T {
    if field.Given? then field.value else before
  }

  function KeptOrCleared<T>(field: Field<T>, before: Option<T>): Option<T> {
    match field case Unset => before case Null => None case Given(value) => Some(value)
  }

  function Updated(post: Post, u: PostUpdate): Post {
    Post(post.userId, Kept(u.title, post.title), Kept(u.content, post.content), Kept(u.capacity, post.capacity),
         Kept(u.deadline, post.deadline), Kept(u.status, post.status),
         KeptOrCleared(u.meetingDate, post.meetingDate), KeptOrCleared(u.planId, post.planId))
  }

  /** Null is refused by the columns that must not be null. */
  predicate ClearsRequired(u: PostUpdate) {
    u.title.Null? || u.content.Null? || u.capacity.Null? || u.deadline.Null? || u.status.Null?
  }

  predicate IsWellFormed(u: PostUpdate) {
    && (u.capacity.Given? ==> u.capacity.value >= 1)
    && (u.title.Given? ==> IsTitle(u.title.value))
    && (u.content.Given? ==> u.content.value != "")
  }

  function UpdatePost(s: Store, postId: int, userId: int, u: PostUpdate): Outcome {
    if !IsWellFormed(u) then Err(ValidationFailed)
    else if postId !in s.posts then Err(PostNotFound)
    else if s.posts[postId].userId != userId then Err(PostForbidden)
    else if u.planId.Given? && u.planId.value !in s.plans then Err(PlanNotFound)
    else if u.capacity.Given? && u.capacity.value < CountAccepted(s, postId) then Err(CapacityTooLow)
    else if ClearsRequired(u) then Err(DatabaseRejected)
    else Ok(s.(posts := s.posts[postId := Updated(s.posts[postId], u)]))
  }

  /** Deleting a post deletes its applications with it. */
  function WithoutPost(s: Store, postId: int): Store {
    s.(posts := s.posts - {postId},
       participants := map id | id in s.participants && s.participants[id].postId != postId :: s.participants[id])
  }

  function DeletePost(s: Store, postId: int, userId: int): Outcome {
    if postId !in s.posts then Err(PostNotFound)
    else if s.posts[postId].userId != userId then Err(PostForbidden)
    else Ok(WithoutPost(s, postId))
  }

  function DeletePostAsAdmin(s: Store, postId: int): Outcome {
    if postId !in s.posts then Err(PostNotFound) else Ok(WithoutPost(s, postId))
  }

  function WithParticipant(s: Store, id: int, p: Participant): Store {
    s.(participants := s.participants[id := p])
  }

  /** An earlier application of the same user is applied again; otherwise a new one is added. */
  function Apply(s: Store, postId: int, userId: int, existing: Option<int>, now: int, today: int): Outcome
    requires existing.Some? ==> existing.value in s.participants
  {
    if postId !in s.posts then Err(PostNotFound)
    else
      var post := s.posts[postId];
      if post.userId == userId then Err(CannotApplyOwnPost)
      else if post.status != Recruiting || post.deadline < today then Err(RecruitClosed)
      else if CountAccepted(s, postId) >= post.capacity then Err(RecruitFull)
      else if existing.Some? then
        var p := s.participants[existing.value];
        if p.status == Applied || p.status == Accepted then Err(ParticipantAlreadyExists)
        else Ok(WithParticipant(s, existing.value, p.(status := Applied, appliedAt := now, respondedAt := None)))
      else
        var id := s.nextParticipantId;
        Ok(WithParticipant(s, id, Participant(postId, userId, Applied, now, None)).(nextParticipantId := id + 1))
  }

  function Cancel(s: Store, existing: Option<int>, status: ParticipantStatus): Outcome
    requires existing.Some? ==> existing.value in s.participants
  {
    if status != Canceled then Err(InvalidParticipantStatus)
    else if existing.None? then Err(ParticipantNotFound)
    else
      var p := s.participants[existing.value];
      if p.status != Applied && p.status != Accepted then Err(ParticipantNotCancelable)
      else Ok(WithParticipant(s, existing.value, p.(status := Canceled)))
  }

  function Decide(s: Store, postId: int, participantId: int, organizerId: int, status: ParticipantStatus,
                  now: int): Outcome
  {
    if status != Accepted && status != Rejected then Err(InvalidParticipantStatus)
    else if postId !in s.posts then Err(PostNotFound)
    else if s.posts[postId].userId != organizerId then Err(PostForbidden)
    else if participantId !in s.participants || s.participants[participantId].postId != postId
    then Err(ParticipantNotFound)
    else
      var post, p := s.posts[postId], s.participants[participantId];
      if p.status != Applied then Err(ParticipantNotPending)
      else if status == Rejected
      then Ok(WithParticipant(s, participantId, p.(status := Rejected, respondedAt := Some(now))))
      else
        var count := CountAccepted(s, postId);
        if count >= post.capacity then Err(RecruitFull)
        else
          var s' := WithParticipant(s, participantId, p.(status := Accepted, respondedAt := Some(now)));
          Ok(if count + 1 >= post.capacity then s'.(posts := s.posts[postId := post.(status := Closed)]) else s')
  }
}
