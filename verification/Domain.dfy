/** The apiary entity, the errors callers can tell apart, and the service's constants. */
module Domain {

  datatype Option<+T> = None | Some(value: T)

  /** A UUID. PostgreSQL orders UUIDs bytewise, that is, as unsigned numbers. */
  type Id = nat

  datatype Apiary = Apiary(
    id: Id,
    userId: Id,
    name: string,
    location: string,
    description: string,
    lat: Option<real>,
    lon: Option<real>,
    images: seq<Id>,
    createdAt: int,
    updatedAt: int,
    deletedAt: Option<int>)
  {
    predicate Live() {
      deletedAt.None?
    }
  }

  /** `Upstream` stands for every wrapped transport or database error. */
  datatype Error =
    | NotFound
    | LimitReached
    | NameTaken
    | ImageNotFound
    | MediaLimitReached
    | ReadOnly
    | Upstream

  datatype Result<+T> = Ok(value: T) | Err(error: Error)

  const ENTITLEMENT_FREE: string := "free"
  const FREE_MAX_APIARIES: nat := 1
  const MAX_MEDIA_ATTACHMENTS: nat := 5
  const MIN_SEARCH_LENGTH: nat := 3

  /** How one call to the database or to another service ends. A call that breaks may
      already have taken effect on the ids in `applied`: the reply was lost, or the callee
      stopped half way. */
  datatype Fault = Works | Breaks(applied: set<Id>)
}
