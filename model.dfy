/** The persisted records: links and their lifecycle states (model/ShortLink.java,
    model/Status.java), events (model/EventLog.java, model/EventType.java) and users
    (model/User.java). Timestamps (`LocalDateTime` in the source) are whole seconds on the local clock. */
module Model {
  import opened Wrappers

  /** Lifecycle state of a link. */
  datatype Status = Active | Expired | LimitReached | Deleted

  /** `Status.name()`, which `String.valueOf` also yields. */
  function StatusName(s: Status): string {
    match s
    case Active => "ACTIVE"
    case Expired => "EXPIRED"
    case LimitReached => "LIMIT_REACHED"
    case Deleted => "DELETED"
  }

  /** A short link. `None` stands for a Java `null`: `id`, `createdAt`, `expiresAt`, `clickLimit`
      (unlimited) and `lastAccessAt` may be absent in a stored file; `clickCount` is a plain int. */
  datatype Link = Link(
    id: Option<string>,
    ownerUuid: string,
    longUrl: string,
    shortCode: string,
    createdAt: Option<int>,
    expiresAt: Option<int>,
    clickLimit: Option<int>,
    clickCount: int,
    lastAccessAt: Option<int>,
    status: Status)

  /** Category of a logged event; the constructor names carry an `Event` suffix so that they do
      not clash with the link statuses of the same name. */
  datatype EventType = LimitReachedEvent | ExpiredEvent | InfoEvent | ErrorEvent

  /** One logged event. `ownerUuid` and `shortCode` may be absent (a Java `null`), for system
      events or events about no particular link. */
  datatype EventLog = EventLog(
    ts: int,
    kind: EventType,
    ownerUuid: Option<string>,
    shortCode: Option<string>,
    message: string)

  /** A local user. `createdAt` and `lastSeenAt` may be absent in a stored file. */
  datatype User = User(uuid: string, createdAt: Option<int>, lastSeenAt: Option<int>)
}
