/** `app/routers/colleges.py`: college registry. Creating a college also
    creates its administrator account, `admin.<code in lower case>`, with
    the initial password `<code>@<current year>`; both rows are added or
    neither is. The router's `require_admin` dependency is the same check
    as the users router's, `Users.RequireAdmin`. */
module Colleges {
  import opened Common
  import opened Passwords
  import opened Models
  import Users

  /** The request body fields `create_college` reads. */
  datatype CollegeCreate = CollegeCreate(
    name: string, code: string, city: Option<string>, contactEmail: Option<string>,
    contactPhone: Option<string>, website: Option<string>, isActive: bool)

  predicate IsAsciiUpper(c: char) { 'A' <= c <= 'Z' }

  /** Python `str.lower()` on the ASCII letters; other characters are kept. */
  function LowerChar(c: char): (r: char)
    ensures IsAsciiUpper(c) ==> r as int == c as int + 32
    ensures !IsAsciiUpper(c) ==> r == c
    ensures !IsAsciiUpper(r)
  {
    if IsAsciiUpper(c) then (c as int + 32) as char else c
  }

  function Lower(s: string): (r: string)
    ensures |r| == |s|
    ensures forall i :: 0 <= i < |s| ==> r[i] == LowerChar(s[i])
  {
    if s == [] then [] else [LowerChar(s[0])] + Lower(s[1..])
  }

  const AdminPrefix: string := "admin."

  /** The username of a college's administrator account. */
  function AdminUsername(code: string): (u: string)
    ensures |u| == |AdminPrefix| + |code|
    ensures u[..|AdminPrefix|] == AdminPrefix
    ensures forall i :: 0 <= i < |code| ==> u[|AdminPrefix| + i] == LowerChar(code[i])
  {
    AdminPrefix + Lower(code)
  }

  /** Two codes share an administrator username exactly when they agree
      after lower-casing, so codes differing only in case (which the unique
      `code` column admits) collide on the second check. */
  lemma {:induction false} AdminUsernameCaseInsensitive(a: string, b: string)
    ensures AdminUsername(a) == AdminUsername(b) <==> Lower(a) == Lower(b)
  {
    if AdminUsername(a) == AdminUsername(b) {
      assert Lower(a) == AdminUsername(a)[|AdminPrefix|..];
      assert Lower(b) == AdminUsername(b)[|AdminPrefix|..];
    }
  }

  predicate IsDigit(c: char) { '0' <= c <= '9' }

  /** Python `str(n)` for a natural number: its decimal digits, no leading zero. */
  function Decimal(n: nat): (s: string)
    ensures |s| >= 1 && forall i :: 0 <= i < |s| ==> IsDigit(s[i])
    ensures |s| > 1 ==> s[0] != '0'
  {
    if n < 10 then ["0123456789"[n]]
    else Decimal(n / 10) + ["0123456789"[n % 10]]
  }

  /** The number a string of decimal digits denotes. */
  function DigitsValue(s: string): nat
    requires forall i :: 0 <= i < |s| ==> IsDigit(s[i])
  {
    if s == [] then 0
    else
      assert IsDigit(s[|s| - 1]);
      DigitsValue(s[..|s| - 1]) * 10 + (s[|s| - 1] as int - '0' as int)
  }

  lemma {:induction false} DecimalRoundTrip(n: nat)
    ensures DigitsValue(Decimal(n)) == n
  {
    if n >= 10 {
      var s := Decimal(n);
      assert s[..|s| - 1] == Decimal(n / 10);
      DecimalRoundTrip(n / 10);
    }
  }

  /** The initial password of a college administrator, `f"{code}@{year}"`:
      the code, an `@`, then the year's decimal digits. */
  function DefaultPassword(code: string, year: nat): (p: string)
    ensures |p| > |code| + 1
    ensures p[..|code|] == code && p[|code|] == '@'
    ensures forall i :: |code| < i < |p| ==> IsDigit(p[i])
    ensures DigitsValue(p[|code| + 1..]) == year
  {
    var p := code + "@" + Decimal(year);
    assert p[|code| + 1..] == Decimal(year);
    DecimalRoundTrip(year);
    p
  }

  function FindCollegeIn(colleges: seq<College>, collegeId: int): (r: Option<College>)
    ensures r.Some? ==> r.value in colleges && r.value.id == collegeId
    ensures r.None? <==> collegeId !in CollegeIds(colleges)
  {
    if colleges == [] then None
    else if colleges[0].id == collegeId then Some(colleges[0])
    else
      var r := FindCollegeIn(colleges[1..], collegeId);
      assert r.None? ==> collegeId !in CollegeIds(colleges) by {
        if r.None? {
          forall i | 0 <= i < |colleges| ensures colleges[i].id != collegeId {
            if i > 0 { assert colleges[1..][i - 1] == colleges[i]; }
          }
        }
      }
      assert r.Some? ==> collegeId in CollegeIds(colleges) by {
        if r.Some? {
          var i :| 0 <= i < |colleges[1..]| && colleges[1..][i] == r.value;
          assert colleges[i + 1] == r.value;
        }
      }
      r
  }

  predicate CodeTaken(colleges: seq<College>, code: string) {
    exists i :: 0 <= i < |colleges| && colleges[i].code == code
  }

  /** The checks of `create_college`, in the handler's order; `None` means
      both rows may be inserted. */
  function CreateCollegeCheck(db: Db, current: User, code: string): (r: Option<Error>)
    reads db, db.users, current
    ensures r == Some(Forbidden) <==> !current.isAdmin
    ensures r == Some(BadRequest(CollegeCodeTaken)) <==> current.isAdmin && CodeTaken(db.colleges, code)
    ensures r == Some(BadRequest(CollegeAdminTaken)) <==>
      current.isAdmin && !CodeTaken(db.colleges, code) && HasUsername(db.users, AdminUsername(code))
    ensures r.None? || r == Some(Forbidden) || r == Some(BadRequest(CollegeCodeTaken)) || r == Some(BadRequest(CollegeAdminTaken))
  {
    if Users.RequireAdmin(current).Err? then Some(Forbidden)
    else if CodeTaken(db.colleges, code) then Some(BadRequest(CollegeCodeTaken))
    else if HasUsername(db.users, AdminUsername(code)) then Some(BadRequest(CollegeAdminTaken))
    else None
  }

  /** `create_college`: refused with 403/400 by the checks, the store
      untouched; otherwise exactly one college with the request's fields and
      exactly one new user, its active administrator `admin.<lower(code)>`
      whose password verifies against `<code>@<year>`. */
  method CreateCollege(db: Db, current: User, data: CollegeCreate, c: Crypto, salt: seq<byte>, year: nat, now: int)
    returns (r: Result<College>)
    requires db.Valid()
    modifies db
    ensures db.Valid()
    ensures r.Err? <==> old(CreateCollegeCheck(db, current, data.code)).Some?
    ensures r.Err? ==> Some(r.error) == old(CreateCollegeCheck(db, current, data.code))
    ensures r.Err? ==> db.colleges == old(db.colleges) && db.users == old(db.users) && db.Counters() == old(db.Counters())
    ensures r.Ok? ==> r.value == College(old(db.nextCollegeId), data.name, data.code, data.city,
      data.contactEmail, data.contactPhone, data.website, now, now, data.isActive)
    ensures r.Ok? ==> db.colleges == old(db.colleges) + [r.value]
    ensures r.Ok? ==> CreateCollegeCheck(db, current, data.code) == Some(BadRequest(CollegeCodeTaken))
    ensures r.Ok? ==> |db.users| == |old(db.users)| + 1 && db.users[..|old(db.users)|] == old(db.users)
    ensures r.Ok? ==> fresh(db.users[|old(db.users)|])
    ensures r.Ok? ==> db.users[|old(db.users)|].Row() == UserRow(old(db.nextUserId), AdminUsername(data.code),
      data.contactEmail, Some(data.code), Some("Admin"), StoredHash(c, DefaultPassword(data.code, year), salt),
      true, true, now)
    ensures r.Ok? ==> db.users[|old(db.users)|].VerifyPassword(c, DefaultPassword(data.code, year))
    ensures r.Ok? ==> db.Counters() == old(db.Counters()).(college := old(db.nextCollegeId) + 1, user := old(db.nextUserId) + 1)
    ensures db.students == old(db.students) && db.events == old(db.events) && db.registrations == old(db.registrations)
  {
    var check := CreateCollegeCheck(db, current, data.code);
    if check.Some? {
      return Err(check.value);
    }
    var username := AdminUsername(data.code);
    var college := College(db.nextCollegeId, data.name, data.code, data.city,
      data.contactEmail, data.contactPhone, data.website, now, now, data.isActive);
    forall x | x in db.colleges ensures x.code != data.code {
      var i :| 0 <= i < |db.colleges| && db.colleges[i] == x;
    }
    assert forall i :: 0 <= i < |db.users| ==> db.users[i].username != username;
    db.InsertCollege(college);
    var admin := new User(username, data.contactEmail, Some(data.code), Some("Admin"), true, true, now);
    admin.SetPassword(c, DefaultPassword(data.code, year), salt);
    db.InsertUser(admin);
    assert admin.passwordHash == StoredHash(c, DefaultPassword(data.code, year), salt);
    assert admin.VerifyPassword(c, DefaultPassword(data.code, year));
    assert college in db.colleges by {
      assert db.colleges[|db.colleges| - 1] == college;
    }
    assert current.isAdmin;
    SecondCreateRefused(db, current, college);
    r := Ok(college);
  }

  /** Once a college with some code is stored, `create_college` by an
      admin with that code is refused because the code is taken. */
  lemma SecondCreateRefused(db: Db, current: User, college: College)
    requires current.isAdmin && college in db.colleges
    ensures CreateCollegeCheck(db, current, college.code) == Some(BadRequest(CollegeCodeTaken))
  {
    var i :| 0 <= i < |db.colleges| && db.colleges[i] == college;
  }

  /** The `College.is_active == True` filter of `list_colleges`. */
  function IsActiveCollege(c: College): bool { c.isActive }

  /** The default of `list_colleges`'s `active_only` parameter. */
  const DefaultActiveOnly: bool := true

  /** `list_colleges` (public): at most `limit` colleges, after the first
      `skip`, of the table or, when `activeOnly` (the default), of its
      active colleges in table order. */
  function ListColleges(db: Db, skip: nat := DefaultSkip, limit: nat := DefaultLimit,
                        activeOnly: bool := DefaultActiveOnly): (r: seq<College>)
    reads db
    ensures |r| <= limit
    ensures forall i :: 0 <= i < |r| ==> r[i] in db.colleges && (activeOnly ==> r[i].isActive)
    ensures activeOnly ==> r == Page(Filter(db.colleges, IsActiveCollege), skip, limit)
    ensures !activeOnly ==> r == Page(db.colleges, skip, limit)
    ensures !activeOnly ==> |r| == if skip >= |db.colleges| then 0 else Min(limit, |db.colleges| - skip)
  {
    var base := if activeOnly then Filter(db.colleges, IsActiveCollege) else db.colleges;
    var page := Page(base, skip, limit);
    assert forall i :: 0 <= i < |page| ==> page[i] in base;
    page
  }

  /** With every parameter at its default, the listing is the first hundred
      active colleges. */
  lemma ListCollegesDefault(db: Db)
    ensures ListColleges(db) == Page(Filter(db.colleges, IsActiveCollege), 0, 100)
    ensures forall i :: 0 <= i < |ListColleges(db)| ==> ListColleges(db)[i].isActive
  {
  }

  /** `get_college` (any signed-in user): 404 for an unknown id. */
  function GetCollege(db: Db, collegeId: int): (r: Result<College>)
    reads db
    ensures r.Err? <==> collegeId !in CollegeIds(db.colleges)
    ensures r.Err? ==> r.error == NotFound(CollegeMissing)
    ensures r.Ok? ==> r.value in db.colleges && r.value.id == collegeId
  {
    match FindCollegeIn(db.colleges, collegeId)
    case None => Err(NotFound(CollegeMissing))
    case Some(x) => Ok(x)
  }

  /** `delete_college`: 403 for a non-admin, 404 for an unknown id; otherwise
      the college and its student profiles go (`Db.DeleteCollege`), and the
      students' user accounts stay. */
  method DeleteCollege(db: Db, current: User, collegeId: int) returns (r: Result<()>)
    requires db.Valid()
    modifies db
    ensures db.Valid()
    ensures r.Err? <==> !current.isAdmin || collegeId !in old(CollegeIds(db.colleges))
    ensures r.Err? ==> r.error == if !current.isAdmin then Forbidden else NotFound(CollegeMissing)
    ensures r.Err? ==> db.colleges == old(db.colleges) && db.students == old(db.students)
    ensures r.Ok? ==> db.colleges == Filter(old(db.colleges), CollegeNot(collegeId))
    ensures r.Ok? ==> db.students == Filter(old(db.students), NotAtCollege(collegeId))
    ensures r.Ok? ==> collegeId !in CollegeIds(db.colleges) && forall s :: s in db.students ==> s.collegeId != collegeId
    ensures db.users == old(db.users) && db.events == old(db.events)
    ensures db.registrations == old(db.registrations) && db.Counters() == old(db.Counters())
  {
    if Users.RequireAdmin(current).Err? {
      return Err(Forbidden);
    }
    if FindCollegeIn(db.colleges, collegeId).None? {
      return Err(NotFound(CollegeMissing));
    }
    db.DeleteCollege(collegeId);
    forall i | 0 <= i < |db.colleges| ensures db.colleges[i].id != collegeId {
      assert db.colleges[i] in db.colleges;
    }
    r := Ok(());
  }
}
