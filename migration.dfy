/** Alembic revision `b0d8e72f839f` (`replace_full_name_with_first_last_name`):
    the users table trades its `full_name` column for `first_name` and
    `last_name`. `upgrade` splits each non-empty full name at its first
    space; `downgrade` joins the two parts with a space. Each direction is
    one SQL `UPDATE` over every row, here a loop over the table as an
    array; PostgreSQL's `POSITION`, `SPLIT_PART`, `SUBSTRING` and `CONCAT`
    are modelled on character strings. */
module Migration {
  import opened Common

  /** The columns of `users` the revision leaves alone. */
  datatype OtherColumns = OtherColumns(
    id: int, username: string, email: Option<string>, passwordHash: string,
    isAdmin: bool, isActive: bool, createdAt: int)

  /** A users row with every name column either revision side has; a
      column absent on one side of the revision is NULL (`None`) there. */
  datatype UsersRow = UsersRow(
    other: OtherColumns, fullName: Option<string>, firstName: Option<string>, lastName: Option<string>)

  /** `POSITION(' ' IN s)`: the 1-based index of the first space, 0 if none. */
  function Position(s: string): (p: nat)
    ensures p <= |s|
    ensures p == 0 <==> ' ' !in s
    ensures p > 0 ==> s[p - 1] == ' ' && ' ' !in s[..p - 1]
  {
    if s == [] then 0
    else if s[0] == ' ' then 1
    else
      var q := Position(s[1..]);
      assert s == [s[0]] + s[1..];
      if q == 0 then 0
      else
        assert s[..q] == [s[0]] + s[1..][..q - 1];
        q + 1
  }

  /** `SPLIT_PART(s, ' ', 1)`: the text before the first space, or all of `s`. */
  function SplitPartFirst(s: string): (r: string)
    ensures ' ' !in r
    ensures ' ' !in s ==> r == s
    ensures ' ' in s ==> |r| < |s| && r == s[..|r|] && s[|r|] == ' '
  {
    var p := Position(s);
    if p == 0 then s else s[..p - 1]
  }

  /** `SUBSTRING(s FROM start)`: the characters from 1-based position
      `start` on; a start before the string gives all of it, one past its
      end gives the empty string. */
  function SubstringFrom(s: string, start: int): (r: string)
    ensures start <= 1 ==> r == s
    ensures start > |s| ==> r == ""
    ensures 1 <= start <= |s| + 1 ==> r == s[start - 1..]
  {
    if start <= 1 then s
    else if start > |s| then ""
    else s[start - 1..]
  }

  /** `COALESCE(x, '')`. */
  function Coalesce(x: Option<string>): (r: string)
    ensures x.Some? ==> r == x.value
    ensures x.None? ==> r == ""
  {
    if x.Some? then x.value else ""
  }

  /** The name a row's `last_name` receives:
      `SUBSTRING(full_name FROM POSITION(' ' IN full_name) + 1)`. With no
      space POSITION is 0, so this is the whole name. */
  function LastPart(s: string): (r: string)
    ensures ' ' !in s ==> r == s
    ensures ' ' in s ==> r == s[|SplitPartFirst(s)| + 1..]
  {
    SubstringFrom(s, Position(s) + 1)
  }

  /** One row of `upgrade`: the new columns start NULL, the `UPDATE` fills
      them where `full_name` is neither NULL nor empty, and `full_name` is
      dropped. */
  function UpgradeRow(r: UsersRow): (u: UsersRow)
    ensures u.other == r.other && u.fullName.None?
    ensures (r.fullName.None? || r.fullName == Some("")) <==> u.firstName.None?
    ensures u.firstName.None? <==> u.lastName.None?
    ensures u.firstName.Some? ==> ' ' !in u.firstName.value
    ensures u.firstName.Some? && ' ' in r.fullName.value ==>
      r.fullName.value == u.firstName.value + " " + u.lastName.value
    ensures u.firstName.Some? && ' ' !in r.fullName.value ==>
      u.firstName == r.fullName && u.lastName == r.fullName
  {
    if r.fullName.Some? && r.fullName.value != "" then
      var n := r.fullName.value;
      assert ' ' in n ==> n == SplitPartFirst(n) + " " + LastPart(n);
      UsersRow(r.other, None, Some(SplitPartFirst(n)), Some(LastPart(n)))
    else
      UsersRow(r.other, None, None, None)
  }

  /** One row of `downgrade`: `full_name` starts NULL, the `UPDATE` fills it
      with `CONCAT(COALESCE(first_name, ''), ' ', COALESCE(last_name, ''))`
      where at least one part is present, and the parts are dropped. */
  function DowngradeRow(r: UsersRow): (d: UsersRow)
    ensures d.other == r.other && d.firstName.None? && d.lastName.None?
    ensures d.fullName.None? <==> r.firstName.None? && r.lastName.None?
    ensures d.fullName.Some? ==> d.fullName.value == Coalesce(r.firstName) + " " + Coalesce(r.lastName)
  {
    if r.firstName.Some? || r.lastName.Some? then
      UsersRow(r.other, Some(Coalesce(r.firstName) + " " + Coalesce(r.lastName)), None, None)
    else
      UsersRow(r.other, None, None, None)
  }

  /** A name with a space survives upgrade then downgrade unchanged. */
  lemma RoundTripWithSpace(r: UsersRow)
    requires r.fullName.Some? && ' ' in r.fullName.value
    ensures DowngradeRow(UpgradeRow(r)).fullName == r.fullName
  {
  }

  /** A non-empty name without a space comes back doubled: `n + " " + n`. */
  lemma RoundTripWithoutSpace(r: UsersRow)
    requires r.fullName.Some? && r.fullName.value != "" && ' ' !in r.fullName.value
    ensures DowngradeRow(UpgradeRow(r)).fullName == Some(r.fullName.value + " " + r.fullName.value)
  {
  }

  /** A NULL or empty name comes back NULL. */
  lemma RoundTripEmpty(r: UsersRow)
    requires r.fullName.None? || r.fullName == Some("")
    ensures DowngradeRow(UpgradeRow(r)).fullName.None?
  {
  }

  /** `upgrade`: every row of the users table updated in place. */
  method Upgrade(table: array<UsersRow>)
    modifies table
    ensures forall i :: 0 <= i < table.Length ==> table[i] == UpgradeRow(old(table[i]))
  {
    for i := 0 to table.Length
      invariant forall j :: 0 <= j < i ==> table[j] == UpgradeRow(old(table[j]))
      invariant forall j :: i <= j < table.Length ==> table[j] == old(table[j])
    {
      table[i] := UpgradeRow(table[i]);
    }
  }

  /** `downgrade`: every row of the users table updated in place. */
  method Downgrade(table: array<UsersRow>)
    modifies table
    ensures forall i :: 0 <= i < table.Length ==> table[i] == DowngradeRow(old(table[i]))
  {
    for i := 0 to table.Length
      invariant forall j :: 0 <= j < i ==> table[j] == DowngradeRow(old(table[j]))
      invariant forall j :: i <= j < table.Length ==> table[j] == old(table[j])
    {
      table[i] := DowngradeRow(table[i]);
    }
  }

  /** Upgrading then downgrading keeps every row's other columns and
      restores every full name that had a space. */
  method UpgradeThenDowngrade(table: array<UsersRow>)
    modifies table
    ensures forall i :: 0 <= i < table.Length ==> table[i].other == old(table[i]).other
    ensures forall i :: 0 <= i < table.Length && old(table[i]).fullName.Some? && ' ' in old(table[i]).fullName.value ==>
      table[i].fullName == old(table[i]).fullName
  {
    Upgrade(table);
    Downgrade(table);
    forall i | 0 <= i < table.Length && old(table[i]).fullName.Some? && ' ' in old(table[i]).fullName.value
      ensures table[i].fullName == old(table[i]).fullName
    {
      RoundTripWithSpace(old(table[i]));
    }
  }
}
