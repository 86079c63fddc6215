/**
 The server's one piece of mutable state: the `users` object, updated in
 place by signup and read by every other handler.
 */
module Server {
  import opened Users
  import Handlers

  class UserDirectory {
    /** The `users` object, keyed by email. */
    var users: map<string, UserRecord>
    /** Its keys in insertion order, the order Object.values reports them in. */
    var order: seq<string>

    function Value(): (d: Directory)
      reads this
    {
      Directory(users, order)
    }

    ghost predicate Valid()
      reads this
    {
      WellFormed(Value())
    }

    /** The server starts with no users. */
    constructor ()
      ensures Valid() && Value() == Empty()
    {
      users := map[];
      order := [];
    }

    /** The signup handler: validate, refuse a registered email, otherwise
        store the new record under its email and answer with its public view. */
    method Signup(body: Handlers.SignupBody, now: nat, createdAt: string) returns (r: Handlers.Response)
      requires Valid()
      modifies this
      ensures Valid()
      ensures (r, Value()) == Handlers.Signup(old(Value()), body, now, createdAt)
      ensures r.Created? <==> Handlers.Complete(body) && body.email.value !in old(users)
      ensures !r.Created? ==> users == old(users) && order == old(order)
      ensures r.Created? ==> users == old(users)[body.email.value := Handlers.NewUser(body, now, createdAt)]
    {
      if !Present(body.name) || !Present(body.email) || !Present(body.password) {
        return Handlers.BadRequest(Handlers.SignupFieldsRequired);
      }
      var email := body.email.value;
      if email in users {
        return Handlers.BadRequest(Handlers.EmailTaken);
      }
      var newUser := UserRecord(UserId(now), body.name.value, email, body.password.value, createdAt);
      users := users[email := newUser];
      order := order + [email];
      r := Handlers.Created(Strip(newUser));
    }
  }
}
