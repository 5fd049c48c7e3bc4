/**
 * The exchange-request workflow of RequestsService: a user offers one of
 * their own skills for someone else's, the receiver accepts or rejects,
 * and each step pushes one notification to the other party.
 */
module Requests {
  import opened Common
  import opened Entities
  import opened Store
  import opened Ordering

  const OfferedNotFound := "Предлагаемый навык не найден"
  const OfferedNoOwner := "У предлагаемого навыка не указан владелец"
  const NotOwnSkill := "Вы можете отправлять заявки только от своих навыков"
  const RequestedNotFound := "Запрашиваемый навык не найден"
  const RequestedNoOwner := "У запрашиваемого навыка не указан владелец"
  const RequestNotFound := "Заявка не найдена"
  const NotIncoming := "Можно обновлять только входящие заявки"
  const BadStatus := "Обновлять статус можно только на accepted или rejected"

  /** The TypeError JavaScript raises when a payload reads `name` of a relation that is null. */
  const NullName := "Cannot read properties of null (reading 'name')"

  /** The TypeError for `offeredSkill.category` read on a null offered skill. */
  const NullCategory := "Cannot read properties of null (reading 'category')"

  /** The TypeError for `receiver.id` or `sender.id` read on a null user. */
  const NullId := "Cannot read properties of null (reading 'id')"

  datatype CreateRequestDto = CreateRequestDto(offeredSkillId: Id, requestedSkillId: Id)

  /** The owner relation of a skill, loaded: null when the skill has no owner or the user row is gone. */
  function OwnerOf(users: Table<User>, s: Skill): (r: Option<User>)
    ensures r.Some? <==> s.owner.Some? && s.owner.value in users.rows
    ensures r.Some? ==> r.value == users.rows[s.owner.value]
  {
    Load(users, s.owner)
  }

  /** `skill.category.name`, when the category relation is not null. */
  function CategoryName(categories: Table<Category>, s: Skill): (r: Option<string>)
    ensures r.Some? <==> s.category.Some? && s.category.value in categories.rows
    ensures r.Some? ==> r.value == categories.rows[s.category.value].name
  {
    var c := Load(categories, s.category);
    if c.Some? then Some(c.value.name) else None
  }

  /**
   * The checks of create, in order: the offered skill exists, has an
   * owner, and that owner is the caller; the requested skill exists and
   * has an owner. On success: (sender, receiver), the two owners.
   */
  function CreateParties(users: Table<User>, skills: Table<Skill>, dto: CreateRequestDto, currentUserId: Id)
    : (r: Result<(User, User)>)
    ensures dto.offeredSkillId !in skills.rows ==> r == Err(NotFound(OfferedNotFound))
    ensures dto.offeredSkillId in skills.rows ==>
      var sender := OwnerOf(users, skills.rows[dto.offeredSkillId]);
      && (sender.None? ==> r == Err(BadRequest(OfferedNoOwner)))
      && (sender.Some? && sender.value.id != currentUserId ==> r == Err(Forbidden(NotOwnSkill)))
      && (sender.Some? && sender.value.id == currentUserId ==>
            && (dto.requestedSkillId !in skills.rows ==> r == Err(NotFound(RequestedNotFound)))
            && (dto.requestedSkillId in skills.rows ==>
                  var receiver := OwnerOf(users, skills.rows[dto.requestedSkillId]);
                  && (receiver.None? ==> r == Err(BadRequest(RequestedNoOwner)))
                  && (receiver.Some? ==> r == Ok((sender.value, receiver.value)))))
  {
    if dto.offeredSkillId !in skills.rows then Err(NotFound(OfferedNotFound))
    else
      var sender := OwnerOf(users, skills.rows[dto.offeredSkillId]);
      if sender.None? then Err(BadRequest(OfferedNoOwner))
      else if sender.value.id != currentUserId then Err(Forbidden(NotOwnSkill))
      else if dto.requestedSkillId !in skills.rows then Err(NotFound(RequestedNotFound))
      else
        var receiver := OwnerOf(users, skills.rows[dto.requestedSkillId]);
        if receiver.None? then Err(BadRequest(RequestedNoOwner))
        else Ok((sender.value, receiver.value))
  }

  /** The parties of an accepted create: the caller sends, and both skills' owners are the parties. */
  lemma CreatePartiesOwnSkills(users: Table<User>, skills: Table<Skill>, dto: CreateRequestDto, currentUserId: Id)
    requires CreateParties(users, skills, dto, currentUserId).Ok?
    ensures var (sender, receiver) := CreateParties(users, skills, dto, currentUserId).value;
      && sender.id == currentUserId
      && dto.offeredSkillId in skills.rows && skills.rows[dto.offeredSkillId].owner.Some?
      && dto.requestedSkillId in skills.rows && skills.rows[dto.requestedSkillId].owner.Some?
      && sender == users.rows[skills.rows[dto.offeredSkillId].owner.value]
      && receiver == users.rows[skills.rows[dto.requestedSkillId].owner.value]
  {
  }

  /** The record create saves: a new request is pending and unread. */
  function Opened(id: Id, createdAt: int, sender: Id, receiver: Id, dto: CreateRequestDto): Request {
    Request(id, createdAt, sender, receiver, Pending, dto.offeredSkillId, dto.requestedSkillId, false)
  }

  /**
   * create. The request is saved once every check passes; the notification
   * is built afterwards, so a requested skill whose category is null leaves
   * the request saved, sends nothing and fails with a TypeError. `now` is
   * the database's creation timestamp.
   */
  method Create(db: Db, dto: CreateRequestDto, currentUserId: Id, now: int) returns (r: Result<Request>)
    requires db.Valid()
    modifies db`requests, db`notifications
    ensures db.Valid()
    ensures var parties := CreateParties(db.users, db.skills, dto, currentUserId);
      && (parties.Err? ==>
            r == Err(parties.error) && db.requests == old(db.requests) && db.notifications == old(db.notifications))
      && (parties.Ok? ==>
            var (sender, receiver) := parties.value;
            var q := Opened(old(db.requests.nextId), now, sender.id, receiver.id, dto);
            var skillName := CategoryName(db.categories, db.skills.rows[dto.requestedSkillId]);
            && db.requests == old(db.requests).Insert(q)
            && (skillName.Some? ==>
                  && r == Ok(q)
                  && db.notifications == old(db.notifications)
                       + [Notification(receiver.id, NewRequest, skillName.value, sender.id, sender.name, q.id)])
            && (skillName.None? ==> r == Err(Internal(NullName)) && db.notifications == old(db.notifications)))
  {
    var parties := CreateParties(db.users, db.skills, dto, currentUserId);
    if parties.Err? {
      return Err(parties.error);
    }
    var (sender, receiver) := parties.value;
    var q := Opened(db.requests.nextId, now, sender.id, receiver.id, dto);
    db.requests := db.requests.Insert(q);
    var skillName := CategoryName(db.categories, db.skills.rows[dto.requestedSkillId]);
    if skillName.None? {
      return Err(Internal(NullName));
    }
    db.notifications := db.notifications
      + [Notification(receiver.id, NewRequest, skillName.value, sender.id, sender.name, q.id)];
    r := Ok(q);
  }

  /** The statuses the incoming and outgoing views show. */
  predicate Open(q: Request) {
    q.status == Pending || q.status == InProgress
  }

  /** The open statuses are exactly those that no answer or completion has reached. */
  lemma OpenIsUnanswered(q: Request)
    ensures Open(q) <==> q.status != Accepted && q.status != Rejected && q.status != Done
  {
  }

  function CreatedAtKey(q: Request): SortKey {
    Num(q.createdAt)
  }

  /** findIncoming: the caller's received requests that are still open, newest first. */
  function FindIncoming(requests: Table<Request>, currentUserId: Id): (r: seq<Request>)
    ensures OrderedBy(r, CreatedAtKey, true)
    ensures forall i :: 0 <= i < |r| ==>
      r[i] in requests.rows.Values && r[i].receiver == currentUserId && Open(r[i])
    ensures requests.Bounded() ==> forall k :: k in requests.rows ==>
      (requests.rows[k] in r <==> requests.rows[k].receiver == currentUserId && Open(requests.rows[k]))
    ensures forall q :: multiset(r)[q] == if q.receiver == currentUserId && Open(q) then multiset(requests.Rows())[q] else 0
  {
    var matching := Filter(requests.Rows(), (q: Request) => q.receiver == currentUserId && Open(q));
    FilterMultiplicity(requests.Rows(), (q: Request) => q.receiver == currentUserId && Open(q));
    SortByKeepsRows(matching, CreatedAtKey, true);
    SortBy(matching, CreatedAtKey, true)
  }

  /** findOutgoing: the caller's sent requests that are still open, newest first. */
  function FindOutgoing(requests: Table<Request>, currentUserId: Id): (r: seq<Request>)
    ensures OrderedBy(r, CreatedAtKey, true)
    ensures forall i :: 0 <= i < |r| ==>
      r[i] in requests.rows.Values && r[i].sender == currentUserId && Open(r[i])
    ensures requests.Bounded() ==> forall k :: k in requests.rows ==>
      (requests.rows[k] in r <==> requests.rows[k].sender == currentUserId && Open(requests.rows[k]))
    ensures forall q :: multiset(r)[q] == if q.sender == currentUserId && Open(q) then multiset(requests.Rows())[q] else 0
  {
    var matching := Filter(requests.Rows(), (q: Request) => q.sender == currentUserId && Open(q));
    FilterMultiplicity(requests.Rows(), (q: Request) => q.sender == currentUserId && Open(q));
    SortByKeepsRows(matching, CreatedAtKey, true);
    SortBy(matching, CreatedAtKey, true)
  }

  /** The incoming view lists each of the caller's open received requests once. */
  lemma IncomingOnce(requests: Table<Request>, currentUserId: Id)
    requires requests.Bounded() && RequestIds(requests.rows)
    ensures Distinct(FindIncoming(requests, currentUserId))
    ensures |FindIncoming(requests, currentUserId)| ==
      |set q | q in requests.rows.Values && q.receiver == currentUserId && Open(q)|
  {
    var r := FindIncoming(requests, currentUserId);
    SelectedOnce(requests, (q: Request) => q.id, (q: Request) => q.receiver == currentUserId && Open(q), r);
    DistinctCount(r, set q | q in requests.rows.Values && q.receiver == currentUserId && Open(q));
  }

  /** The outgoing view lists each of the caller's open sent requests once. */
  lemma OutgoingOnce(requests: Table<Request>, currentUserId: Id)
    requires requests.Bounded() && RequestIds(requests.rows)
    ensures Distinct(FindOutgoing(requests, currentUserId))
    ensures |FindOutgoing(requests, currentUserId)| ==
      |set q | q in requests.rows.Values && q.sender == currentUserId && Open(q)|
  {
    var r := FindOutgoing(requests, currentUserId);
    SelectedOnce(requests, (q: Request) => q.id, (q: Request) => q.sender == currentUserId && Open(q), r);
    DistinctCount(r, set q | q in requests.rows.Values && q.sender == currentUserId && Open(q));
  }

  /** A request that create has just stored shows in the receiver's incoming and the sender's outgoing view. */
  lemma OpenedIsListed(requests: Table<Request>, createdAt: int, sender: Id, receiver: Id, dto: CreateRequestDto)
    requires requests.Bounded()
    ensures var q := Opened(requests.nextId, createdAt, sender, receiver, dto);
      q in FindIncoming(requests.Insert(q), receiver) && q in FindOutgoing(requests.Insert(q), sender)
  {
    var q := Opened(requests.nextId, createdAt, sender, receiver, dto);
    var t := requests.Insert(q);
    assert t.rows[requests.nextId] == q;
  }

  /** The status an answer sets, and isRead: nothing else of the request changes. */
  function Answer(q: Request, status: RequestStatus): (a: Request)
    ensures a.status == status && a.isRead
    ensures a.(status := q.status, isRead := q.isRead) == q
  {
    q.(status := status, isRead := true)
  }

  /**
   * The checks of updateStatus, in order: the request exists, its receiver
   * relation is loaded (reading `receiver.id` on null is a TypeError), the
   * caller is that receiver, and the new status is accepted or rejected.
   * On success: the request as loaded, with its receiver.
   */
  function Answerable(users: Table<User>, requests: Table<Request>, id: Id, status: RequestStatus, currentUserId: Id)
    : (r: Result<(Request, User)>)
    ensures id !in requests.rows ==> r == Err(NotFound(RequestNotFound))
    ensures id in requests.rows ==>
      var receiver := Load(users, Some(requests.rows[id].receiver));
      && (receiver.None? ==> r == Err(Internal(NullId)))
      && (receiver.Some? && receiver.value.id != currentUserId ==> r == Err(Forbidden(NotIncoming)))
      && (receiver.Some? && receiver.value.id == currentUserId && status != Accepted && status != Rejected ==>
            r == Err(BadRequest(BadStatus)))
      && (r.Ok? <==> receiver.Some? && receiver.value.id == currentUserId && (status == Accepted || status == Rejected))
      && (r.Ok? ==> r.value == (requests.rows[id], receiver.value))
  {
    if id !in requests.rows then Err(NotFound(RequestNotFound))
    else
      var receiver := Load(users, Some(requests.rows[id].receiver));
      if receiver.None? then Err(Internal(NullId))
      else if receiver.value.id != currentUserId then Err(Forbidden(NotIncoming))
      else if status != Accepted && status != Rejected then Err(BadRequest(BadStatus))
      else Ok((requests.rows[id], receiver.value))
  }

  /** The notification an answer sends: REQUEST_ACCEPTED or REQUEST_REJECTED. */
  function AnswerKind(status: RequestStatus): (k: NotificationType)
    requires status == Accepted || status == Rejected
    ensures k == RequestAccepted <==> status == Accepted
    ensures k == RequestRejected <==> status == Rejected
  {
    if status == Accepted then RequestAccepted else RequestRejected
  }

  /**
   * updateStatus. The answered request is saved once the checks pass. The
   * payload then reads `offeredSkill.category.name`; a null offered skill or
   * category is a TypeError with the request already saved and nothing
   * sent. The notification is addressed to `sender.id`; a null sender is a
   * TypeError too, again after the save. Otherwise exactly one notification
   * goes to the sender.
   */
  method UpdateStatus(db: Db, id: Id, status: RequestStatus, currentUserId: Id) returns (r: Result<Request>)
    requires db.Valid()
    modifies db`requests, db`notifications
    ensures db.Valid()
    ensures var checked := Answerable(db.users, old(db.requests), id, status, currentUserId);
      && (checked.Err? ==>
            r == Err(checked.error) && db.requests == old(db.requests) && db.notifications == old(db.notifications))
      && (checked.Ok? ==>
            var (q, receiver) := checked.value;
            var answered := Answer(q, status);
            var offered := Load(db.skills, Some(q.offeredSkill));
            var sender := Load(db.users, Some(q.sender));
            && db.requests == old(db.requests).Put(id, answered)
            && (offered.None? ==> r == Err(Internal(NullCategory)) && db.notifications == old(db.notifications))
            && (offered.Some? && CategoryName(db.categories, offered.value).None? ==>
                  r == Err(Internal(NullName)) && db.notifications == old(db.notifications))
            && (offered.Some? && CategoryName(db.categories, offered.value).Some? && sender.None? ==>
                  r == Err(Internal(NullId)) && db.notifications == old(db.notifications))
            && (offered.Some? && CategoryName(db.categories, offered.value).Some? && sender.Some? ==>
                  && r == Ok(answered)
                  && db.notifications == old(db.notifications)
                       + [Notification(sender.value.id, AnswerKind(status),
                                       CategoryName(db.categories, offered.value).value,
                                       receiver.id, receiver.name, id)]))
  {
    var checked := Answerable(db.users, db.requests, id, status, currentUserId);
    if checked.Err? {
      return Err(checked.error);
    }
    var (q, receiver) := checked.value;
    var answered := Answer(q, status);
    db.requests := db.requests.Put(id, answered);
    var offered := Load(db.skills, Some(q.offeredSkill));
    if offered.None? {
      return Err(Internal(NullCategory));
    }
    var skillName := CategoryName(db.categories, offered.value);
    if skillName.None? {
      return Err(Internal(NullName));
    }
    var sender := Load(db.users, Some(q.sender));
    if sender.None? {
      return Err(Internal(NullId));
    }
    db.notifications := db.notifications
      + [Notification(sender.value.id, AnswerKind(status), skillName.value, receiver.id, receiver.name, id)];
    r := Ok(answered);
  }

  /** An answered request leaves both views for good: neither party sees it as open any more. */
  lemma AnsweredLeavesViews(users: Table<User>, requests: Table<Request>, id: Id, status: RequestStatus, user: Id)
    requires Answerable(users, requests, id, status, user).Ok?
    ensures var answered := Answer(requests.rows[id], status);
      answered !in FindIncoming(requests.Put(id, answered), user)
      && answered !in FindOutgoing(requests.Put(id, answered), user)
  {
  }
}
