/**
 * The records of the relational schema: users, skills, categories, cities
 * and exchange requests, plus the notification events the request workflow
 * pushes. A relation to another row is held as that row's id.
 */
module Entities {
  import opened Common

  /** Role and Gender: the users' enums ('USER' / 'ADMIN'; 'male' / 'female' / 'unspecified'). */
  datatype Role = UserRole | AdminRole
  datatype Gender = Male | Female | Unspecified

  function RoleName(r: Role): string {
    match r
    case UserRole => "USER"
    case AdminRole => "ADMIN"
  }

  function GenderName(g: Gender): string {
    match g
    case Male => "male"
    case Female => "female"
    case Unspecified => "unspecified"
  }

  /** A user row. `birthdate` is a day number; `refreshToken` the stored session token. */
  datatype User = User(
    id: Id,
    name: string,
    email: string,
    password: PasswordHash,
    about: Option<string>,
    birthdate: Option<int>,
    city: Option<string>,
    gender: Gender,
    avatar: Option<string>,
    role: Role,
    wantToLearn: seq<Id>,
    favoriteSkills: seq<Id>,
    refreshToken: Option<string>)

  /** The columns findAll and findById select: a user without password or refresh token. */
  datatype PublicUser = PublicUser(
    id: Id,
    name: string,
    email: string,
    about: Option<string>,
    birthdate: Option<int>,
    city: Option<string>,
    gender: Gender,
    avatar: Option<string>,
    role: Role)

  /** The public projection of a user row. */
  function Public(u: User): (p: PublicUser)
    ensures p.id == u.id && p.name == u.name && p.email == u.email && p.role == u.role
    ensures p.about == u.about && p.birthdate == u.birthdate && p.city == u.city
    ensures p.gender == u.gender && p.avatar == u.avatar
  {
    PublicUser(u.id, u.name, u.email, u.about, u.birthdate, u.city, u.gender, u.avatar, u.role)
  }

  /**
   * A skill row. The schema declares category and owner required, but rows
   * are written without them (the skills seeder) and code checks for a
   * missing owner, so both are optional here.
   */
  datatype Skill = Skill(
    id: Id,
    title: string,
    description: Option<string>,
    category: Option<Id>,
    images: Option<seq<string>>,
    owner: Option<Id>)

  /** A category row; `parent` is None for a root category. */
  datatype Category = Category(id: Id, name: string, parent: Option<Id>)

  datatype City = City(id: Id, name: string, subject: string)

  /** RequestStatus: 'pending', 'accepted', 'rejected', 'inProgress', 'done'. */
  datatype RequestStatus = Pending | Accepted | Rejected | InProgress | Done

  /** An exchange request; `createdAt` is the time of creation. */
  datatype Request = Request(
    id: Id,
    createdAt: int,
    sender: Id,
    receiver: Id,
    status: RequestStatus,
    offeredSkill: Id,
    requestedSkill: Id,
    isRead: bool)

  datatype NotificationType = NewRequest | RequestAccepted | RequestRejected

  /** One event pushed to the room of user `recipient`. */
  datatype Notification = Notification(
    recipient: Id,
    kind: NotificationType,
    skillName: string,
    fromUserId: Id,
    fromUserName: string,
    requestId: Id)
}
