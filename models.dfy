/** The tables of `app/models.py` as an in-memory store: one table per
    entity, in insertion order, with the serial id counters the database
    keeps. Users are objects (their fields are assigned in place by
    `set_password` and by the activate/deactivate handlers); the other rows
    are never changed after insertion and are values. The cascade rules of
    the ORM relationships are the delete methods of `Db`. */
module Models {
  import opened Common
  import opened Passwords

  /** The column default `is_active = False`. */
  const DefaultIsActive: bool := false

  /** All columns of a user row, as a value. */
  datatype UserRow = UserRow(
    id: int, username: string, email: Option<string>,
    firstName: Option<string>, lastName: Option<string>,
    passwordHash: string, isAdmin: bool, isActive: bool, createdAt: int)

  class User {
    var id: int
    var username: string
    var email: Option<string>
    var firstName: Option<string>
    var lastName: Option<string>
    var passwordHash: string
    var isAdmin: bool
    var isActive: bool
    var createdAt: int

    function Row(): UserRow reads this {
      UserRow(id, username, email, firstName, lastName, passwordHash, isAdmin, isActive, createdAt)
    }

    /** `User(...)` before it is added: no id and no password hash yet. */
    constructor (username: string, email: Option<string>, firstName: Option<string>,
                 lastName: Option<string>, isAdmin: bool, isActive: bool, createdAt: int)
      ensures Row() == UserRow(0, username, email, firstName, lastName, "", isAdmin, isActive, createdAt)
    {
      this.id := 0;
      this.username := username;
      this.email := email;
      this.firstName := firstName;
      this.lastName := lastName;
      this.passwordHash := "";
      this.isAdmin := isAdmin;
      this.isActive := isActive;
      this.createdAt := createdAt;
    }

    /** `set_password`: stores the bcrypt hash of the pre-hashed password
        under `salt` (what `bcrypt.gensalt()` returned); no other column
        changes, and the password verifies afterwards. */
    method SetPassword(c: Crypto, password: string, salt: seq<byte>)
      modifies this`passwordHash
      ensures Row() == old(Row()).(passwordHash := StoredHash(c, password, salt))
      ensures VerifyPassword(c, password)
    {
      var bytes := PreHash(c, password);
      passwordHash := AsciiDecode(c.hashpw(bytes, salt));
      SetThenVerify(c, password, salt);
    }

    /** `verify_password`: the same pre-hash, checked against the stored
        hash; it accepts every password whose hash, under some salt, is the
        stored one. */
    function VerifyPassword(c: Crypto, password: string): (r: bool)
      reads this
      ensures (exists salt :: passwordHash == StoredHash(c, password, salt)) ==> r
    {
      assert (exists salt :: passwordHash == StoredHash(c, password, salt)) ==> Matches(c, password, passwordHash) by {
        if exists salt :: passwordHash == StoredHash(c, password, salt) {
          var salt :| passwordHash == StoredHash(c, password, salt);
          SetThenVerify(c, password, salt);
        }
      }
      Matches(c, password, passwordHash)
    }
  }

  datatype College = College(
    id: int, name: string, code: string, city: Option<string>,
    contactEmail: Option<string>, contactPhone: Option<string>, website: Option<string>,
    createdAt: int, updatedAt: int, isActive: bool)

  datatype Student = Student(
    id: int, userId: int, collegeId: int, rollNumber: Option<string>, branch: Option<string>,
    yearOfStudy: Option<int>, isVerified: bool, createdAt: int, updatedAt: int)

  /** Times are instants on one integer clock. */
  datatype Event = Event(
    id: int, title: string, description: Option<string>, venue: Option<string>,
    startTime: int, endTime: Option<int>, capacity: Option<int>, createdBy: int, createdAt: int)

  datatype Registration = Registration(id: int, userId: int, eventId: int, registeredAt: int)

  // Row predicates used as WHERE clauses.

  function OfEvent(eventId: int): Registration -> bool { (r: Registration) => r.eventId == eventId }
  function OfUser(userId: int): Registration -> bool { (r: Registration) => r.userId == userId }

  /** `Event.registrations`: the registration rows whose event_id is the event's id. */
  function RegistrationsOf(e: Event, regs: seq<Registration>): (r: seq<Registration>)
    ensures forall x :: x in r <==> x in regs && x.eventId == e.id
  {
    Filter(regs, OfEvent(e.id))
  }

  /** `Event.registered_count`: the length of `Event.registrations`. */
  function RegisteredCount(e: Event, regs: seq<Registration>): (n: nat)
    ensures n <= |regs|
    ensures n == 0 <==> forall x :: x in regs ==> x.eventId != e.id
  {
    var rs := RegistrationsOf(e, regs);
    if rs != [] then assert rs[0] in rs; |rs| else |rs|
  }

  /** `Event.is_full`: the event is full exactly when one more registration
      would take it past its capacity; without a capacity it is never full. */
  function IsFull(e: Event, regs: seq<Registration>): (full: bool)
    ensures e.capacity.None? ==> !full
    ensures !full <==> (e.capacity.None? || RegisteredCount(e, regs) + 1 <= e.capacity.value)
  {
    match e.capacity
    case None => false
    case Some(cap) => RegisteredCount(e, regs) >= cap
  }

  /** Inserting a registration row raises exactly its own event's count, by one. */
  lemma {:induction false} RegisteredCountAppend(e: Event, regs: seq<Registration>, r: Registration)
    ensures RegisteredCount(e, regs + [r]) == RegisteredCount(e, regs) + (if r.eventId == e.id then 1 else 0)
  {
    FilterAppend(regs, [r], OfEvent(e.id));
  }

  /** Deleting rows (any WHERE clause) never raises a count. */
  lemma RegisteredCountFilter(e: Event, regs: seq<Registration>, p: Registration -> bool)
    ensures RegisteredCount(e, Filter(regs, p)) <= RegisteredCount(e, regs)
  {
    FilterShrinks(regs, p, OfEvent(e.id));
  }

  /** Deleting one row lowers exactly its own event's count, by one. */
  lemma RegisteredCountRemoveAt(e: Event, regs: seq<Registration>, k: nat)
    requires k < |regs|
    ensures RegisteredCount(e, RemoveAt(regs, k)) ==
            RegisteredCount(e, regs) - (if regs[k].eventId == e.id then 1 else 0)
  {
    RemoveAtFilter(regs, k, OfEvent(e.id));
  }

  // Table invariants.

  function UserIds(users: seq<User>): set<int> reads users {
    set i | 0 <= i < |users| :: users[i].id
  }

  function EventIds(events: seq<Event>): set<int> {
    set i | 0 <= i < |events| :: events[i].id
  }

  function CollegeIds(colleges: seq<College>): set<int> {
    set i | 0 <= i < |colleges| :: colleges[i].id
  }

  /** Primary key and the unique `username` column. */
  ghost predicate UsersUnique(users: seq<User>) reads users {
    forall i, j :: 0 <= i < j < |users| ==>
      users[i].id != users[j].id && users[i].username != users[j].username
  }

  function DistinctColleges(): (College, College) -> bool {
    (a: College, b: College) => a.id != b.id && a.code != b.code
  }

  function DistinctStudents(): (Student, Student) -> bool {
    (a: Student, b: Student) => a.id != b.id && a.userId != b.userId
  }

  function DistinctEvents(): (Event, Event) -> bool {
    (a: Event, b: Event) => a.id != b.id
  }

  /** Primary key, and at most one registration per (user, event) pair. */
  function DistinctRegistrations(): (Registration, Registration) -> bool {
    (a: Registration, b: Registration) => a.id != b.id && !(a.userId == b.userId && a.eventId == b.eventId)
  }

  /** What `create_event` admits: an end after the start and a capacity of at least 1. */
  predicate EventWellFormed(e: Event) {
    && (e.endTime.Some? ==> e.endTime.value > e.startTime)
    && (e.capacity.Some? ==> e.capacity.value >= 1)
  }

  ghost predicate WithinCapacity(events: seq<Event>, regs: seq<Registration>) {
    forall e :: e in events && e.capacity.Some? ==> RegisteredCount(e, regs) <= e.capacity.value
  }

  /** The next value of each table's serial id sequence. */
  datatype Serials = Serials(user: int, college: int, student: int, event: int, registration: int)

  class Db {
    var users: seq<User>
    var colleges: seq<College>
    var students: seq<Student>
    var events: seq<Event>
    var registrations: seq<Registration>
    var nextUserId: int
    var nextCollegeId: int
    var nextStudentId: int
    var nextEventId: int
    var nextRegistrationId: int

    ghost predicate Keys() reads this, users {
      && UsersUnique(users)
      && (forall i :: 0 <= i < |users| ==> users[i].id < nextUserId)
      && Pairwise(colleges, DistinctColleges())
      && (forall c :: c in colleges ==> c.id < nextCollegeId)
      && Pairwise(students, DistinctStudents())
      && (forall s :: s in students ==> s.id < nextStudentId)
      && Pairwise(events, DistinctEvents())
      && (forall e :: e in events ==> e.id < nextEventId)
      && Pairwise(registrations, DistinctRegistrations())
      && (forall r :: r in registrations ==> r.id < nextRegistrationId)
    }

    /** Every foreign key names an existing row. */
    ghost predicate References() reads this, users {
      && (forall s :: s in students ==> s.userId in UserIds(users) && s.collegeId in CollegeIds(colleges))
      && (forall e :: e in events ==> e.createdBy in UserIds(users))
      && (forall r :: r in registrations ==> r.userId in UserIds(users) && r.eventId in EventIds(events))
    }

    ghost predicate Valid() reads this, users {
      && Keys()
      && References()
      && (forall e :: e in events ==> EventWellFormed(e))
      && WithinCapacity(events, registrations)
    }

    /** An empty database. */
    constructor ()
      ensures Valid()
      ensures users == [] && colleges == [] && students == [] && events == [] && registrations == []
    {
      users, colleges, students, events, registrations := [], [], [], [], [];
      nextUserId, nextCollegeId, nextStudentId, nextEventId, nextRegistrationId := 1, 1, 1, 1, 1;
    }

    /** The event with id `eventId`, if any (`query(Event).filter(id == ...).first()`). */
    function FindEvent(eventId: int): (r: Option<Event>)
      reads this
      ensures r.Some? ==> r.value in events && r.value.id == eventId
      ensures r.None? <==> eventId !in EventIds(events)
    {
      FindEventIn(events, eventId)
    }

    /** The serial id sequences; no delete moves them. */
    function Counters(): Serials reads this {
      Serials(nextUserId, nextCollegeId, nextStudentId, nextEventId, nextRegistrationId)
    }

    // Single-row inserts (`db.add(row)` followed by `db.commit()`); each
    // takes the next id of its table's serial sequence.

    /** Inserts a registration row whose references exist and which the
        handler's checks have shown to keep the pair and capacity rules. */
    method InsertRegistration(row: Registration)
      requires Valid()
      requires row.id == nextRegistrationId
      requires row.userId in UserIds(users) && row.eventId in EventIds(events)
      requires Pairwise(registrations + [row], DistinctRegistrations())
      requires WithinCapacity(events, registrations + [row])
      modifies this
      ensures Valid()
      ensures registrations == old(registrations) + [row]
      ensures users == old(users) && colleges == old(colleges) && students == old(students)
      ensures events == old(events) && Counters() == old(Counters()).(registration := old(nextRegistrationId) + 1)
    {
      registrations := registrations + [row];
      nextRegistrationId := nextRegistrationId + 1;
    }

    /** Inserts an event row created by an existing user; a new event has
        no registrations, so the capacity rule holds for it. */
    method InsertEvent(row: Event)
      requires Valid()
      requires row.id == nextEventId && row.createdBy in UserIds(users) && EventWellFormed(row)
      modifies this
      ensures Valid()
      ensures events == old(events) + [row]
      ensures RegisteredCount(row, registrations) == 0
      ensures users == old(users) && colleges == old(colleges) && students == old(students)
      ensures registrations == old(registrations) && Counters() == old(Counters()).(event := old(nextEventId) + 1)
    {
      AppendEventKeeps(events, registrations, row);
      events := events + [row];
      nextEventId := nextEventId + 1;
    }

    /** Inserts a college row whose code no college has yet (the unique `code` column). */
    method InsertCollege(row: College)
      requires Valid()
      requires row.id == nextCollegeId && forall c :: c in colleges ==> c.code != row.code
      modifies this
      ensures Valid()
      ensures colleges == old(colleges) + [row]
      ensures users == old(users) && students == old(students) && events == old(events)
      ensures registrations == old(registrations) && Counters() == old(Counters()).(college := old(nextCollegeId) + 1)
    {
      forall i | 0 <= i < |colleges| ensures DistinctColleges()(colleges[i], row) {
        assert colleges[i] in colleges;
      }
      PairwiseAppend(colleges, row, DistinctColleges());
      ghost var before := colleges;
      colleges := colleges + [row];
      nextCollegeId := nextCollegeId + 1;
      forall s | s in students ensures s.collegeId in CollegeIds(colleges) {
        var i :| 0 <= i < |before| && before[i].id == s.collegeId;
        assert colleges[i] == before[i];
      }
    }

    /** Inserts a new user object: it takes the next user id, and its
        username must not be taken yet (the unique `username` column). */
    method InsertUser(u: User)
      requires Valid() && u !in users
      requires forall i :: 0 <= i < |users| ==> users[i].username != u.username
      modifies this, u`id
      ensures Valid()
      ensures users == old(users) + [u]
      ensures u.Row() == old(u.Row()).(id := old(nextUserId))
      ensures colleges == old(colleges) && students == old(students)
      ensures events == old(events) && registrations == old(registrations)
      ensures Counters() == old(Counters()).(user := old(nextUserId) + 1)
    {
      ghost var before := UserIds(users);
      assert forall i :: 0 <= i < |users| ==> users[i] != u;
      u.id := nextUserId;
      users := users + [u];
      nextUserId := nextUserId + 1;
      forall x | x in before ensures x in UserIds(users) {
        var i :| 0 <= i < |old(users)| && old(users)[i].id == x;
        assert users[i] == old(users)[i];
      }
    }

    // Single-table deletes. The ORM runs a cascade as a sequence of these,
    // dependents first, so that every step leaves the store valid.

    /** Deletes the registrations that `keep` rejects. */
    method DeleteRegistrations(keep: Registration -> bool)
      requires Valid()
      modifies this
      ensures Valid()
      ensures registrations == Filter(old(registrations), keep)
      ensures users == old(users) && colleges == old(colleges) && students == old(students)
      ensures events == old(events) && Counters() == old(Counters())
    {
      FilterPairwise(registrations, keep, DistinctRegistrations());
      ghost var before := registrations;
      registrations := Filter(registrations, keep);
      forall e | e in events && e.capacity.Some? ensures RegisteredCount(e, registrations) <= e.capacity.value {
        RegisteredCountFilter(e, before, keep);
      }
    }

    /** Deletes the events that `keep` rejects, none of which has registrations left. */
    method DeleteEvents(keep: Event -> bool)
      requires Valid()
      requires forall e :: e in events && !keep(e) ==> RegisteredCount(e, registrations) == 0
      modifies this
      ensures Valid()
      ensures events == Filter(old(events), keep)
      ensures users == old(users) && colleges == old(colleges) && students == old(students)
      ensures registrations == old(registrations) && Counters() == old(Counters())
    {
      FilterPairwise(events, keep, DistinctEvents());
      ghost var before := events;
      events := Filter(events, keep);
      forall r | r in registrations ensures r.eventId in EventIds(events) {
        var i :| 0 <= i < |before| && before[i].id == r.eventId;
        assert before[i] in before;
        assert keep(before[i]);
        assert before[i] in events;
        var j :| 0 <= j < |events| && events[j] == before[i];
      }
    }

    /** Deletes the student profiles that `keep` rejects (nothing refers to a student). */
    method DeleteStudents(keep: Student -> bool)
      requires Valid()
      modifies this
      ensures Valid()
      ensures students == Filter(old(students), keep)
      ensures users == old(users) && colleges == old(colleges) && events == old(events)
      ensures registrations == old(registrations) && Counters() == old(Counters())
    {
      FilterPairwise(students, keep, DistinctStudents());
      students := Filter(students, keep);
    }

    /** Deletes the colleges that `keep` rejects, none of which has students left. */
    method DeleteColleges(keep: College -> bool)
      requires Valid()
      requires forall s :: s in students ==> forall c :: c in colleges && c.id == s.collegeId ==> keep(c)
      modifies this
      ensures Valid()
      ensures colleges == Filter(old(colleges), keep)
      ensures users == old(users) && students == old(students) && events == old(events)
      ensures registrations == old(registrations) && Counters() == old(Counters())
    {
      FilterPairwise(colleges, keep, DistinctColleges());
      ghost var before := colleges;
      colleges := Filter(colleges, keep);
      forall s | s in students ensures s.collegeId in CollegeIds(colleges) {
        var i :| 0 <= i < |before| && before[i].id == s.collegeId;
        assert before[i] in before;
        assert before[i] in colleges;
        var j :| 0 <= j < |colleges| && colleges[j] == before[i];
      }
    }

    /** Deletes the user row at `k`, to which no other row refers any more. */
    method DeleteUserRow(k: nat)
      requires Valid() && k < |users|
      requires forall s :: s in students ==> s.userId != users[k].id
      requires forall e :: e in events ==> e.createdBy != users[k].id
      requires forall r :: r in registrations ==> r.userId != users[k].id
      modifies this
      ensures Valid()
      ensures users == RemoveAt(old(users), k)
      ensures colleges == old(colleges) && students == old(students) && events == old(events)
      ensures registrations == old(registrations) && Counters() == old(Counters())
    {
      RemoveUserKeys(users, k, nextUserId);
      users := RemoveAt(users, k);
    }

    // The cascades of the ORM relationships.

    /** `db.delete(event)`: the event goes, and with it (cascade on
        `Event.registrations`) every registration for it; nothing else changes. */
    method DeleteEvent(eventId: int)
      requires Valid()
      modifies this
      ensures Valid()
      ensures events == Filter(old(events), EventNot(eventId))
      ensures registrations == Filter(old(registrations), NotOfEvent(eventId))
      ensures users == old(users) && colleges == old(colleges) && students == old(students)
      ensures Counters() == old(Counters())
    {
      DeleteRegistrations(NotOfEvent(eventId));
      forall e | e in events && !EventNot(eventId)(e) ensures RegisteredCount(e, registrations) == 0 {
      }
      DeleteEvents(EventNot(eventId));
    }

    /** `db.delete(college)`: the college goes, and with it (cascade on
        `College.students`) every student profile at it; the students' users stay. */
    method DeleteCollege(collegeId: int)
      requires Valid()
      modifies this
      ensures Valid()
      ensures colleges == Filter(old(colleges), CollegeNot(collegeId))
      ensures students == Filter(old(students), NotAtCollege(collegeId))
      ensures users == old(users) && events == old(events) && registrations == old(registrations)
      ensures Counters() == old(Counters())
    {
      DeleteStudents(NotAtCollege(collegeId));
      DeleteColleges(CollegeNot(collegeId));
    }

    /** `db.delete(user)` for the user at position `k`: the user goes, and
        with it (cascades on `User.registrations`, `User.created_events`,
        `User.student_profile`, and on the deleted events' registrations)
        its registrations, the events it created together with their
        registrations, and its student profile. */
    method DeleteUser(k: nat)
      requires Valid() && k < |users|
      modifies this
      ensures Valid()
      ensures users == RemoveAt(old(users), k)
      ensures events == Filter(old(events), NotCreatedBy(old(users)[k].id))
      ensures registrations == Filter(old(registrations), Outlives(old(users)[k].id, old(events)))
      ensures students == Filter(old(students), NotProfileOf(old(users)[k].id))
      ensures colleges == old(colleges) && Counters() == old(Counters())
    {
      var uid := users[k].id;
      var created := events;
      DeleteRegistrations(Outlives(uid, created));
      forall e | e in events && !NotCreatedBy(uid)(e) ensures RegisteredCount(e, registrations) == 0 {
        var i :| 0 <= i < |created| && created[i] == e;
        CreatedByAt(created, i);
      }
      DeleteEvents(NotCreatedBy(uid));
      DeleteStudents(NotProfileOf(uid));
      DeleteUserRow(k);
    }
  }

  /** Position of the user with id `userId` (`query(User).filter(User.id == ...).first()`). */
  function FindUser(users: seq<User>, userId: int): (r: Option<nat>)
    reads users
    ensures r.Some? ==> r.value < |users| && users[r.value].id == userId
    ensures r.None? <==> userId !in UserIds(users)
  {
    if users == [] then None
    else if users[0].id == userId then Some(0)
    else
      match FindUser(users[1..], userId)
      case None =>
        assert userId !in UserIds(users) by {
          forall i | 0 <= i < |users| ensures users[i].id != userId {
            if i > 0 { assert users[i] == users[1..][i - 1]; }
          }
        }
        None
      case Some(k) =>
        assert users[1..][k] == users[k + 1];
        Some(k + 1)
  }

  /** Some user already has `username` (`query(User).filter(User.username == ...).first()`). */
  predicate HasUsername(users: seq<User>, username: string)
    reads users
  {
    exists i :: 0 <= i < |users| && users[i].username == username
  }

  // WHERE clauses of the deletes.

  function EventNot(eventId: int): Event -> bool { (e: Event) => e.id != eventId }
  function NotOfEvent(eventId: int): Registration -> bool { (r: Registration) => r.eventId != eventId }
  function CollegeNot(collegeId: int): College -> bool { (c: College) => c.id != collegeId }
  function NotAtCollege(collegeId: int): Student -> bool { (s: Student) => s.collegeId != collegeId }
  function NotCreatedBy(userId: int): Event -> bool { (e: Event) => e.createdBy != userId }
  function NotProfileOf(userId: int): Student -> bool { (s: Student) => s.userId != userId }

  /** A registration survives a user delete unless it is the user's own or
      belongs to one of the events the user created. */
  function Outlives(userId: int, events: seq<Event>): Registration -> bool {
    (r: Registration) => r.userId != userId && !CreatedBy(events, r.eventId, userId)
  }

  /** The event `eventId` is one of `User.created_events` of `userId`. */
  predicate CreatedBy(events: seq<Event>, eventId: int, userId: int) {
    events != [] &&
    ((events[0].id == eventId && events[0].createdBy == userId) || CreatedBy(events[1..], eventId, userId))
  }

  lemma {:induction false} CreatedByAt(events: seq<Event>, i: nat)
    requires i < |events|
    ensures CreatedBy(events, events[i].id, events[i].createdBy)
  {
    if i > 0 {
      CreatedByAt(events[1..], i - 1);
    }
  }

  function FindEventIn(events: seq<Event>, eventId: int): (r: Option<Event>)
    ensures r.Some? ==> r.value in events && r.value.id == eventId
    ensures r.None? <==> eventId !in EventIds(events)
  {
    if events == [] then None
    else if events[0].id == eventId then Some(events[0])
    else
      var r := FindEventIn(events[1..], eventId);
      assert EventIds(events) == {events[0].id} + EventIds(events[1..]) by {
        forall x | x in EventIds(events) ensures x in {events[0].id} + EventIds(events[1..]) {
          var i :| 0 <= i < |events| && events[i].id == x;
          if i > 0 { assert events[1..][i - 1] == events[i]; }
        }
        forall x | x in EventIds(events[1..]) ensures x in EventIds(events) {
          var i :| 0 <= i < |events[1..]| && events[1..][i].id == x;
          assert events[i + 1].id == x;
        }
      }
      r
  }

  /** Appending an event with an id above all others keeps event ids
      distinct and every registration's event present, and the new event
      has no registrations. */
  lemma AppendEventKeeps(events: seq<Event>, regs: seq<Registration>, row: Event)
    requires Pairwise(events, DistinctEvents())
    requires forall e :: e in events ==> e.id < row.id
    requires forall r :: r in regs ==> r.eventId in EventIds(events)
    requires WithinCapacity(events, regs)
    ensures Pairwise(events + [row], DistinctEvents())
    ensures forall r :: r in regs ==> r.eventId in EventIds(events + [row])
    ensures RegisteredCount(row, regs) == 0
    ensures WithinCapacity(events + [row], regs) <==> (row.capacity.None? || row.capacity.value >= 0)
  {
    forall i | 0 <= i < |events| ensures DistinctEvents()(events[i], row) {
      assert events[i] in events;
    }
    PairwiseAppend(events, row, DistinctEvents());
    forall r | r in regs ensures r.eventId != row.id && r.eventId in EventIds(events + [row]) {
      var i :| 0 <= i < |events| && events[i].id == r.eventId;
      assert events[i] in events;
      assert (events + [row])[i] == events[i];
    }
    assert row in events + [row];
  }

  /** With unique ids, deleting the user at `k` keeps the keys unique and
      removes exactly its id. */
  lemma RemoveUserKeys(users: seq<User>, k: nat, next: int)
    requires UsersUnique(users) && k < |users|
    requires forall i :: 0 <= i < |users| ==> users[i].id < next
    ensures UsersUnique(RemoveAt(users, k))
    ensures forall i :: 0 <= i < |RemoveAt(users, k)| ==> RemoveAt(users, k)[i].id < next
    ensures UserIds(RemoveAt(users, k)) == UserIds(users) - {users[k].id}
  {
    var r := RemoveAt(users, k);
    forall i, j | 0 <= i < j < |r| ensures r[i].id != r[j].id && r[i].username != r[j].username {
      var i' := if i < k then i else i + 1;
      var j' := if j < k then j else j + 1;
      assert r[i] == users[i'] && r[j] == users[j'];
    }
    forall x | x in UserIds(r) ensures x in UserIds(users) - {users[k].id} {
      var i :| 0 <= i < |r| && r[i].id == x;
      var i' := if i < k then i else i + 1;
      assert r[i] == users[i'];
    }
    forall x | x in UserIds(users) - {users[k].id} ensures x in UserIds(r) {
      var i :| 0 <= i < |users| && users[i].id == x;
      assert i != k;
      if i < k { assert r[i] == users[i]; } else { assert r[i - 1] == users[i]; }
    }
  }
}
