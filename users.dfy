/**
 The data of the in-memory user directory of the signup/login server:
 request fields, stored user records, their public (password-free) view,
 the identifier format, and the directory itself as a value.
 */
module Users {

  datatype Option<T> = None | Some(value: T)

  /** A request field as the handlers see it. JavaScript tests fields with
      `!field`, so a missing field and an empty string are both "absent". */
  predicate Present(field: Option<string>): (b: bool)
    ensures !b <==> field == None || field == Some("")
  {
    field.Some? && field.value != ""
  }

  /** A stored user. The password is kept verbatim (no hashing). */
  datatype UserRecord = UserRecord(
    id: string,
    name: string,
    email: string,
    password: string,
    createdAt: string)

  /** What every response carries instead of a UserRecord: the same record
      without its password. The type has no password field at all, so no
      response built from it can disclose one. */
  datatype UserPublic = UserPublic(
    id: string,
    name: string,
    email: string,
    createdAt: string)

  /** The public view of a stored record. */
  function Strip(u: UserRecord): (p: UserPublic)
  {
    UserPublic(u.id, u.name, u.email, u.createdAt)
  }

  /** Two records look the same from outside exactly when they differ in
      nothing but their password. */
  lemma StripForgetsOnlyPassword(u: UserRecord, v: UserRecord)
    ensures Strip(u) == Strip(v) <==> u.(password := v.password) == v
  {
  }

  // ---------------------------------------------------------------
  // Identifiers: 'user_' followed by the millisecond clock in decimal
  // ---------------------------------------------------------------

  function DigitChar(d: nat): (c: char)
    requires d < 10
    ensures '0' <= c <= '9'
  {
    ('0' as int + d) as char
  }

  /** The decimal rendering JavaScript gives a non-negative integer:
      digits only, no leading zero. */
  function Decimal(n: nat): (s: string)
    ensures |s| >= 1
    ensures n >= 10 ==> |s| >= 2
    ensures forall i :: 0 <= i < |s| ==> '0' <= s[i] <= '9'
    ensures |s| > 1 ==> s[0] != '0'
    decreases n
  {
    if n < 10 then [DigitChar(n)] else Decimal(n / 10) + [DigitChar(n % 10)]
  }

  /** Different clock values give different decimal strings. */
  lemma {:induction false} DecimalInjective(a: nat, b: nat)
    requires Decimal(a) == Decimal(b)
    ensures a == b
    decreases a
  {
    var sa, sb := Decimal(a), Decimal(b);
    if a >= 10 && b >= 10 {
      assert sa[..|sa| - 1] == Decimal(a / 10);
      assert sb[..|sb| - 1] == Decimal(b / 10);
      assert DigitChar(a % 10) == sa[|sa| - 1] == sb[|sb| - 1] == DigitChar(b % 10);
      DecimalInjective(a / 10, b / 10);
    } else if a < 10 && b < 10 {
      assert DigitChar(a) == sa[0] == sb[0] == DigitChar(b);
    }
  }

  /** The identifier a signup made at clock reading `now` (milliseconds)
      assigns: 'user_' + Date.now(). */
  function UserId(now: nat): (id: string)
    ensures |id| > 5 && id[..5] == "user_"
  {
    "user_" + Decimal(now)
  }

  /** Identifiers coincide exactly when the clock readings do: two signups
      in the same millisecond get the same identifier. */
  lemma UserIdMatchesClock(a: nat, b: nat)
    ensures UserId(a) == UserId(b) <==> a == b
  {
    if UserId(a) == UserId(b) {
      assert Decimal(a) == UserId(a)[5..] == UserId(b)[5..] == Decimal(b);
      DecimalInjective(a, b);
    }
  }

  // ---------------------------------------------------------------
  // The directory
  // ---------------------------------------------------------------

  /** The whole server state: the `users` object keyed by email, and the
      order in which its keys were inserted (the order in which
      JavaScript enumerates the object's values). */
  datatype Directory = Directory(users: map<string, UserRecord>, order: seq<string>)

  /** The directory the server starts with. */
  function Empty(): (d: Directory)
    ensures WellFormed(d) && d.users == map[]
  {
    Directory(map[], [])
  }

  ghost predicate Distinct(s: seq<string>)
  {
    forall i, j :: 0 <= i < j < |s| ==> s[i] != s[j]
  }

  /** What every reachable state satisfies: each record is filed under its
      own email, and only complete signups reach the store; the insertion
      order lists every key exactly once. */
  ghost predicate WellFormed(d: Directory)
  {
    && (forall e :: e in d.users ==>
          d.users[e].email == e && e != "" && d.users[e].name != "" && d.users[e].password != "")
    && (forall i :: 0 <= i < |d.order| ==> d.order[i] in d.users)
    && (forall e :: e in d.users ==> e in d.order)
    && Distinct(d.order)
  }

  lemma {:induction false} DistinctCardinality(s: seq<string>)
    requires Distinct(s)
    ensures |set x | x in s| == |s|
  {
    if s != [] {
      var init, last := s[..|s| - 1], s[|s| - 1];
      assert Distinct(init);
      DistinctCardinality(init);
      assert (set x | x in s) == (set x | x in init) + {last};
      assert last !in (set x | x in init);
    }
  }

  /** The insertion order has exactly one entry per stored record. */
  lemma OrderCountsRecords(d: Directory)
    requires WellFormed(d)
    ensures |d.order| == |d.users|
  {
    DistinctCardinality(d.order);
    assert (set x | x in d.order) == d.users.Keys;
  }

  /** At most one record per email: no two keys hold records with the
      same email. */
  lemma OneRecordPerEmail(d: Directory, a: string, b: string)
    requires WellFormed(d) && a in d.users && b in d.users
    ensures d.users[a].email == d.users[b].email <==> a == b
  {
  }
}
