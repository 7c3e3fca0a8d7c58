/** `Settings.allowed_origins_list` of `app/config.py`: the CORS origins
    setting is one comma-separated string, and the list is its segments
    (Python `str.split(",")`) with surrounding whitespace removed from
    each (Python `str.strip()`). */
module Config {

  /** The default of `ALLOWED_ORIGINS`. */
  const DefaultAllowedOrigins: string := "http://localhost:3000,http://localhost:3001"

  /** Python `str.isspace()` for one character: ASCII tab to carriage
      return, the four information separators, space, NEL, no-break space,
      and the Unicode space, line and paragraph separators. */
  predicate IsSpace(c: char) {
    var n := c as int;
    || (0x09 <= n <= 0x0D) || (0x1C <= n <= 0x20) || n == 0x85 || n == 0xA0 || n == 0x1680
    || (0x2000 <= n <= 0x200A) || n == 0x2028 || n == 0x2029 || n == 0x202F || n == 0x205F || n == 0x3000
  }

  function CountCommas(s: string): nat {
    if s == [] then 0 else (if s[0] == ',' then 1 else 0) + CountCommas(s[1..])
  }

  /** Python `s.split(",")`: the text between consecutive commas, empty
      segments included. */
  function Split(s: string): (r: seq<string>)
    ensures |r| == CountCommas(s) + 1
    ensures forall i :: 0 <= i < |r| ==> ',' !in r[i]
  {
    if s == [] then [""]
    else
      var rest := Split(s[1..]);
      if s[0] == ',' then [""] + rest
      else
        assert ',' !in rest[0];
        [[s[0]] + rest[0]] + rest[1..]
  }

  /** `sep.join(parts)`. */
  function Join(parts: seq<string>, sep: string): string {
    if parts == [] then ""
    else if |parts| == 1 then parts[0]
    else parts[0] + sep + Join(parts[1..], sep)
  }

  /** Joining the segments with commas gives the string back, so the
      segments are the string's pieces in order. */
  lemma {:induction false} JoinSplit(s: string)
    ensures Join(Split(s), ",") == s
  {
    if s != [] {
      JoinSplit(s[1..]);
      var rest := Split(s[1..]);
      if s[0] == ',' {
        assert s == "" + "," + s[1..];
      } else {
        if |rest| == 1 {
          assert s == [s[0]] + rest[0];
        } else {
          assert Join(rest, ",") == rest[0] + "," + Join(rest[1..], ",");
          assert Split(s) == [[s[0]] + rest[0]] + rest[1..];
          assert s == ([s[0]] + rest[0]) + "," + Join(rest[1..], ",");
        }
      }
    }
  }

  /** A string without a comma is a single segment. */
  lemma {:induction false} SplitNoComma(s: string)
    requires ',' !in s
    ensures Split(s) == [s]
  {
    if s != [] {
      assert s[0] != ',' && ',' !in s[1..];
      SplitNoComma(s[1..]);
      assert [s[0]] + s[1..] == s;
    }
  }

  /** A comma between `a` and `b` splits exactly there. */
  lemma {:induction false} SplitAtComma(a: string, b: string)
    ensures Split(a + "," + b) == Split(a) + Split(b)
  {
    if a == [] {
      assert a + "," + b == [','] + b;
      assert ([','] + b)[1..] == b;
    } else {
      assert (a + "," + b)[1..] == a[1..] + "," + b;
      assert (a + "," + b)[0] == a[0];
      SplitAtComma(a[1..], b);
    }
  }

  /** Python `s.lstrip()`: `s` without its leading whitespace. */
  function TrimStart(s: string): (r: string)
    ensures |r| <= |s| && r == s[|s| - |r|..]
    ensures forall i :: 0 <= i < |s| - |r| ==> IsSpace(s[i])
    ensures r == [] || !IsSpace(r[0])
  {
    if s != [] && IsSpace(s[0]) then TrimStart(s[1..]) else s
  }

  /** Python `s.rstrip()`: `s` without its trailing whitespace. */
  function TrimEnd(s: string): (r: string)
    ensures |r| <= |s| && r == s[..|r|]
    ensures forall i :: |r| <= i < |s| ==> IsSpace(s[i])
    ensures r == [] || !IsSpace(r[|r| - 1])
  {
    if s != [] && IsSpace(s[|s| - 1]) then TrimEnd(s[..|s| - 1]) else s
  }

  /** `r` is the slice of `s` starting at `k`, and everything of `s`
      before and after that slice is whitespace. */
  predicate SpaceAround(s: string, r: string, k: nat) {
    && k + |r| <= |s| && r == s[k..k + |r|]
    && (forall i :: 0 <= i < k ==> IsSpace(s[i]))
    && (forall i :: k + |r| <= i < |s| ==> IsSpace(s[i]))
  }

  /** Python `s.strip()`: exactly the part of `s` between its leading and
      its trailing whitespace; it has whitespace at neither end. */
  function Strip(s: string): (r: string)
    ensures exists k :: SpaceAround(s, r, k)
    ensures r == [] || (!IsSpace(r[0]) && !IsSpace(r[|r| - 1]))
    ensures forall c :: c in r ==> c in s
    ensures (s == [] || (!IsSpace(s[0]) && !IsSpace(s[|s| - 1]))) ==> r == s
  {
    TrimSpan(s);
    TrimEnd(TrimStart(s))
  }

  /** Trimming both ends leaves a slice of `s` with only whitespace around it. */
  lemma TrimSpan(s: string)
    ensures SpaceAround(s, TrimEnd(TrimStart(s)), |s| - |TrimStart(s)|)
  {
    var t := TrimStart(s);
    SliceAround(s, t, TrimEnd(t), |s| - |t|);
  }

  /** A prefix `r` of the suffix `t` of `s` from `k` is the slice of `s`
      from `k`; whitespace cut off either side is whitespace around it. */
  lemma SliceAround(s: string, t: string, r: string, k: nat)
    requires k <= |s| && t == s[k..] && |r| <= |t| && r == t[..|r|]
    requires forall i :: 0 <= i < k ==> IsSpace(s[i])
    requires forall j :: |r| <= j < |t| ==> IsSpace(t[j])
    ensures SpaceAround(s, r, k)
  {
    forall i | k + |r| <= i < |s| ensures IsSpace(s[i]) {
      assert s[i] == t[i - k];
    }
  }

  /** Stripping twice is stripping once. */
  lemma StripIdempotent(s: string)
    ensures Strip(Strip(s)) == Strip(s)
  {
  }

  /** `allowed_origins_list`: the stripped segments of `origins`, one per
      comma-separated segment and in their order. */
  function AllowedOriginsList(origins: string): (r: seq<string>)
    ensures |r| == CountCommas(origins) + 1
    ensures forall i :: 0 <= i < |r| ==> r[i] == Strip(Split(origins)[i])
    ensures forall i :: 0 <= i < |r| ==> ',' !in r[i]
    ensures forall i :: 0 <= i < |r| ==> r[i] == [] || (!IsSpace(r[i][0]) && !IsSpace(r[i][|r[i]| - 1]))
  {
    var parts := Split(origins);
    seq(|parts|, i requires 0 <= i < |parts| => Strip(parts[i]))
  }

  /** Two comma-free strings joined by a comma are two segments. */
  lemma SplitTwo(a: string, b: string)
    requires ',' !in a && ',' !in b
    ensures Split(a + "," + b) == [a, b]
  {
    SplitAtComma(a, b);
    SplitNoComma(a);
    SplitNoComma(b);
  }

  /** A string that starts and ends with a non-space character is its own strip. */
  lemma StripKeeps(s: string)
    requires |s| > 0 && !IsSpace(s[0]) && !IsSpace(s[|s| - 1])
    ensures Strip(s) == s
  {
  }

  /** The two local development origins of the default setting. */
  const LocalOrigin3000: string := "http://localhost:3000"
  const LocalOrigin3001: string := "http://localhost:3001"

  lemma LocalOriginsCommaFree()
    ensures ',' !in LocalOrigin3000 && ',' !in LocalOrigin3001
  {
    assert forall i :: 0 <= i < |LocalOrigin3000| ==> LocalOrigin3000[i] != ',';
    assert forall i :: 0 <= i < |LocalOrigin3001| ==> LocalOrigin3001[i] != ',';
  }

  lemma LocalOriginsStripped()
    ensures Strip(LocalOrigin3000) == LocalOrigin3000 && Strip(LocalOrigin3001) == LocalOrigin3001
  {
    var a, b := LocalOrigin3000, LocalOrigin3001;
    assert a[0] == 'h' && a[|a| - 1] == '0';
    StripKeeps(a);
    assert b[0] == 'h' && b[|b| - 1] == '1';
    StripKeeps(b);
  }

  /** Two comma-free origins, each without surrounding whitespace, joined by a comma. */
  lemma OriginsOfTwo(a: string, b: string)
    requires ',' !in a && ',' !in b
    requires Strip(a) == a && Strip(b) == b
    ensures AllowedOriginsList(a + "," + b) == [a, b]
  {
    SplitTwo(a, b);
  }

  /** The default setting is the two local origins joined by a comma. */
  lemma DefaultIsTwoOrigins()
    ensures DefaultAllowedOrigins == LocalOrigin3000 + "," + LocalOrigin3001
  {
    var joined := LocalOrigin3000 + "," + LocalOrigin3001;
    assert |joined| == |DefaultAllowedOrigins|;
    forall i | 0 <= i < |joined| ensures joined[i] == DefaultAllowedOrigins[i] {
      if i < 21 {
        assert joined[i] == LocalOrigin3000[i];
      } else if i > 21 {
        assert joined[i] == LocalOrigin3001[i - 22];
      }
    }
  }

  /** With the default setting the list is the two local development origins. */
  lemma DefaultOrigins()
    ensures AllowedOriginsList(DefaultAllowedOrigins) == [LocalOrigin3000, LocalOrigin3001]
  {
    DefaultIsTwoOrigins();
    LocalOriginsCommaFree();
    LocalOriginsStripped();
    OriginsOfTwo(LocalOrigin3000, LocalOrigin3001);
  }
}
