/**
 Properties that relate several requests: what one handler's outcome tells
 about the answers the others give afterwards, and what a run of signups
 for one email can produce.
 */
module Properties {
  import opened Users
  import opened Handlers

  /** After a successful signup the email is reported as registered, and
      looking it up yields exactly the view signup answered with. */
  lemma SignupThenLookup(d: Directory, body: SignupBody, now: nat, createdAt: string)
    requires WellFormed(d)
    requires Complete(body) && body.email.value !in d.users
    ensures var (r, after) := Signup(d, body, now, createdAt);
      && r.Created?
      && CheckEmail(after, body.email) == EmailStatus(true)
      && GetUser(after, body.email.value) == Found(r.data)
      && ListUsers(after).count == ListUsers(d).count + 1
  {
  }

  /** A second signup for a registered email is refused with the conflict
      message, and the first record stays as it was. */
  lemma SignupTwice(d: Directory, first: SignupBody, second: SignupBody, now1: nat, now2: nat, at1: string, at2: string)
    requires Complete(first) && first.email.value !in d.users
    requires Complete(second) && second.email == first.email
    ensures var (r1, d1) := Signup(d, first, now1, at1);
      var (r2, d2) := Signup(d1, second, now2, at2);
      && r1.Created? && r2 == BadRequest(EmailTaken)
      && d2 == d1
      && d2.users[first.email.value] == NewUser(first, now1, at1)
  {
  }

  /** Logging in with the credentials just signed up with returns the same
      public view (same id); any other password is refused. */
  lemma SignupThenLogin(d: Directory, body: SignupBody, now: nat, createdAt: string, password: string)
    requires Complete(body) && body.email.value !in d.users
    requires password != ""
    ensures var (r, after) := Signup(d, body, now, createdAt);
      var answer := Login(after, LoginBody(body.email, Some(password)));
      && (password == body.password.value ==> answer == Found(r.data) && answer.data.id == UserId(now))
      && (password != body.password.value ==> answer == Unauthorized(InvalidCredentials))
  {
  }

  /** Login does not reveal which of the two failures happened: an unknown
      email and a wrong password produce identical responses. */
  lemma LoginFailuresIndistinguishable(d: Directory, unknown: string, known: string, guess: string, wrong: string)
    requires unknown != "" && unknown !in d.users && guess != ""
    requires known != "" && known in d.users && wrong != "" && d.users[known].password != wrong
    ensures Login(d, LoginBody(Some(unknown), Some(guess))) == Login(d, LoginBody(Some(known), Some(wrong)))
    ensures Status(Login(d, LoginBody(Some(unknown), Some(guess)))) == 401
  {
  }

  /** Check-email and get-user agree on which emails are registered. */
  lemma CheckEmailAgreesWithGetUser(d: Directory, email: string)
    requires email != ""
    ensures CheckEmail(d, Some(email)).registered <==> GetUser(d, email).Found?
  {
  }

  /** A successful login is always for a registered email, and returns what
      get-user returns for it. */
  lemma LoginSucceedsOnlyForRegistered(d: Directory, body: LoginBody)
    requires Login(d, body).Found?
    ensures CheckEmail(d, body.email) == EmailStatus(true)
    ensures Login(d, body) == GetUser(d, body.email.value)
  {
  }

  /** Two signups for different emails within the same millisecond store
      records with the same id: identifiers are not unique. */
  lemma SameMillisecondSameId(d: Directory, a: SignupBody, b: SignupBody, now: nat, at1: string, at2: string)
    requires Complete(a) && Complete(b) && a.email != b.email
    requires a.email.value !in d.users && b.email.value !in d.users
    ensures var (r1, d1) := Signup(d, a, now, at1);
      var (r2, d2) := Signup(d1, b, now, at2);
      && r1.Created? && r2.Created?
      && d2.users[a.email.value].id == d2.users[b.email.value].id
  {
  }

  // ---------------------------------------------------------------
  // A run of signups, handled one after another
  // ---------------------------------------------------------------

  /** One signup request with the clock readings it is handled at. */
  datatype SignupCall = SignupCall(body: SignupBody, now: nat, createdAt: string)

  /** Handles the calls in order, each seeing the directory the previous
      one left; returns the final directory and every response. */
  function SignupAll(d: Directory, calls: seq<SignupCall>): (out: (Directory, seq<Response>))
    ensures |out.1| == |calls|
    ensures WellFormed(d) ==> WellFormed(out.0)
    decreases |calls|
  {
    if calls == [] then (d, [])
    else
      var (r, next) := Signup(d, calls[0].body, calls[0].now, calls[0].createdAt);
      var rest := SignupAll(next, calls[1..]);
      (rest.0, [r] + rest.1)
  }

  function CreatedCount(rs: seq<Response>): (n: nat)
    ensures n <= |rs|
  {
    if rs == [] then 0 else (if rs[0].Created? then 1 else 0) + CreatedCount(rs[1..])
  }

  /** The refusal a signup for an already registered email receives:
      the missing-field message if the request is incomplete, the conflict
      message otherwise. */
  function Refusal(body: SignupBody): (r: Response)
    ensures r.BadRequest?
  {
    if Complete(body) then BadRequest(EmailTaken) else BadRequest(SignupFieldsRequired)
  }

  /** Of any number of signups for one email handled in turn, at most one
      succeeds. If the email was already registered every call is refused
      and the directory stays as it was; otherwise a complete first call
      succeeds and its record is the one kept. */
  lemma {:induction false} OneSignupPerEmail(d: Directory, calls: seq<SignupCall>, e: string)
    requires forall i :: 0 <= i < |calls| ==> calls[i].body.email == Some(e)
    ensures var (after, rs) := SignupAll(d, calls);
      && CreatedCount(rs) <= 1
      && (e in d.users ==>
            && CreatedCount(rs) == 0 && after == d
            && forall i :: 0 <= i < |calls| ==> rs[i] == Refusal(calls[i].body))
      && (e !in d.users && |calls| > 0 && Complete(calls[0].body) ==>
            && rs[0].Created? && CreatedCount(rs) == 1
            && after.users == d.users[e := NewUser(calls[0].body, calls[0].now, calls[0].createdAt)]
            && forall i :: 1 <= i < |calls| ==> rs[i] == Refusal(calls[i].body))
    decreases |calls|
  {
    if calls != [] {
      var c := calls[0];
      var (r, next) := Signup(d, c.body, c.now, c.createdAt);
      var rest := SignupAll(next, calls[1..]);
      var rs := [r] + rest.1;
      assert SignupAll(d, calls) == (rest.0, rs);
      assert rs[1..] == rest.1;
      OneSignupPerEmail(next, calls[1..], e);
      if r.Created? {
        assert e in next.users;
        assert rest.0 == next;
      }
      if e in next.users {
        forall i | 1 <= i < |calls|
          ensures rs[i] == Refusal(calls[i].body)
        {
          assert rs[i] == rest.1[i - 1];
          assert calls[1..][i - 1] == calls[i];
        }
      }
    }
  }

  /** For an email not yet registered, the first complete signup among
      those for it is the one that succeeds, and its record is kept; every
      call before it is refused for a missing field, and every call after
      it is refused (with the conflict message when complete). */
  lemma {:induction false} FirstCompleteSignupWins(d: Directory, calls: seq<SignupCall>, e: string, k: nat)
    requires forall i :: 0 <= i < |calls| ==> calls[i].body.email == Some(e)
    requires e !in d.users && k < |calls| && Complete(calls[k].body)
    requires forall i :: 0 <= i < k ==> !Complete(calls[i].body)
    ensures var (after, rs) := SignupAll(d, calls);
      && rs[k].Created? && CreatedCount(rs) == 1
      && after.users == d.users[e := NewUser(calls[k].body, calls[k].now, calls[k].createdAt)]
      && forall i :: 0 <= i < |calls| && i != k ==> rs[i] == Refusal(calls[i].body)
    decreases k
  {
    if k == 0 {
      OneSignupPerEmail(d, calls, e);
    } else {
      var c := calls[0];
      var (r, next) := Signup(d, c.body, c.now, c.createdAt);
      assert r == BadRequest(SignupFieldsRequired) && next == d;
      var rest := SignupAll(next, calls[1..]);
      var rs := [r] + rest.1;
      assert SignupAll(d, calls) == (rest.0, rs);
      assert rs[1..] == rest.1;
      FirstCompleteSignupWins(next, calls[1..], e, k - 1);
      forall i | 1 <= i < |calls| && i != k
        ensures rs[i] == Refusal(calls[i].body)
      {
        assert rs[i] == rest.1[i - 1];
        assert calls[1..][i - 1] == calls[i];
      }
    }
  }
}
