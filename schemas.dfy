/** `app/schemas.py`: the pydantic request and token schemas, as records
    with the field constraints as validity predicates. A request body that
    fails a constraint is refused with 422 before any handler runs; an
    omitted optional field takes its declared default. */
module Schemas {
  import opened Common

  /** pydantic's `max_length` of an event title. */
  const MaxTitleLength: nat := 255
  /** pydantic's `min_length` of a password. */
  const MinPasswordLength: nat := 6

  /** `UserCreate` (fields of `UserBase` included). */
  datatype UserCreate = UserCreate(email: string, fullName: Option<string>, password: string, isAdmin: bool)

  predicate ValidUserCreate(u: UserCreate) {
    |u.password| >= MinPasswordLength
  }

  /** Builds a `UserCreate` from the fields present in a request body:
      422 for a password shorter than six characters, and `is_admin`
      false unless the body sets it. */
  function ParseUserCreate(email: string, fullName: Option<string>, password: string, isAdmin: Option<bool>): (r: Result<UserCreate>)
    ensures r.Ok? <==> |password| >= MinPasswordLength
    ensures r.Err? ==> r.error == Unprocessable
    ensures r.Ok? ==> ValidUserCreate(r.value)
    ensures r.Ok? ==> r.value.email == email && r.value.fullName == fullName && r.value.password == password
    ensures r.Ok? && isAdmin.None? ==> !r.value.isAdmin
    ensures r.Ok? && isAdmin.Some? ==> r.value.isAdmin == isAdmin.value
  {
    if |password| < MinPasswordLength then Err(Unprocessable)
    else Ok(UserCreate(email, fullName, password, if isAdmin.Some? then isAdmin.value else false))
  }

  /** `TokenData`. */
  datatype TokenData = TokenData(userId: Option<int>, isAdmin: bool)

  /** A `TokenData` built from the claims present: no user id and no admin
      rights unless the token carries them. */
  function MakeTokenData(userId: Option<int>, isAdmin: Option<bool>): (t: TokenData)
    ensures t.userId == userId
    ensures t.isAdmin <==> isAdmin == Some(true)
  {
    TokenData(userId, if isAdmin.Some? then isAdmin.value else false)
  }

  /** `EventBase`, and `EventCreate`, which adds nothing to it. Times are
      instants as integers; an omitted optional field is `None`. */
  datatype EventCreate = EventCreate(
    title: string, description: Option<string>, venue: Option<string>,
    startTime: int, endTime: Option<int>, capacity: Option<int>)

  predicate TitleOk(title: string) {
    1 <= |title| <= MaxTitleLength
  }

  predicate CapacityOk(capacity: Option<int>) {
    capacity.None? || capacity.value >= 1
  }

  predicate ValidEventCreate(e: EventCreate) {
    TitleOk(e.title) && CapacityOk(e.capacity)
  }

  /** `EventUpdate`: every field optional, the `EventBase` bounds applying
      to a title or capacity that is present. */
  datatype EventUpdate = EventUpdate(
    title: Option<string>, description: Option<string>, venue: Option<string>,
    startTime: Option<int>, endTime: Option<int>, capacity: Option<int>)

  predicate ValidEventUpdate(u: EventUpdate) {
    (u.title.Some? ==> TitleOk(u.title.value)) && CapacityOk(u.capacity)
  }

  /** pydantic validation of an `EventCreate` body. */
  function CheckEventCreate(e: EventCreate): (r: Result<EventCreate>)
    ensures r.Ok? <==> 1 <= |e.title| <= 255 && (e.capacity.None? || e.capacity.value >= 1)
    ensures r.Ok? ==> r.value == e
    ensures r.Err? ==> r.error == Unprocessable
  {
    if ValidEventCreate(e) then Ok(e) else Err(Unprocessable)
  }

  /** pydantic validation of an `EventUpdate` body. */
  function CheckEventUpdate(u: EventUpdate): (r: Result<EventUpdate>)
    ensures r.Ok? <==> (u.title.Some? ==> 1 <= |u.title.value| <= 255) && (u.capacity.Some? ==> u.capacity.value >= 1)
    ensures r.Ok? ==> r.value == u
    ensures r.Err? ==> r.error == Unprocessable
  {
    if ValidEventUpdate(u) then Ok(u) else Err(Unprocessable)
  }

  /** The update that sets every field of `e`. */
  function AsUpdate(e: EventCreate): EventUpdate {
    EventUpdate(Some(e.title), e.description, e.venue, Some(e.startTime), e.endTime, e.capacity)
  }

  /** An update naming every field obeys the same bounds as a creation. */
  lemma UpdateBoundsMatchCreate(e: EventCreate)
    ensures ValidEventUpdate(AsUpdate(e)) <==> ValidEventCreate(e)
  {
  }
}
