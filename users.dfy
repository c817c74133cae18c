/** The users table and UserController's store, update and deleteMultiple. */
module Users {
  import opened Wrappers
  import opened Text
  import opened Roles
  import opened BulkDelete

  /** A row of `users`; `password` holds the hash. */
  datatype User = User(fullname: string, department: string, dob: string, role: string,
                       gender: string, address: string, contact: string,
                       email: string, username: string, password: string)

  /** The request body; a missing key and a null value are both None. */
  datatype UserRequest = UserRequest(fullname: Option<string>, department: Option<string>, dob: Option<string>,
                                     role: Option<string>, gender: Option<string>, address: Option<string>,
                                     contact: Option<string>, email: Option<string>, username: Option<string>,
                                     password: Option<string>)

  datatype Outcome = Outcome(status: int, users: map<nat, User>)

  predicate EmailFree(users: map<nat, User>, email: string, except: Option<nat>) {
    forall id | id in users && Some(id) != except :: users[id].email != email
  }

  predicate UsernameFree(users: map<nat, User>, username: string) {
    forall id | id in users :: users[id].username != username
  }

  /** No two users share an email: store and update both check it. */
  predicate UniqueEmails(users: map<nat, User>) {
    forall a, b | a in users && b in users && a != b :: users[a].email != users[b].email
  }

  /** The `required` rules shared by store and update, `max:255` on the name and
      the email's uniqueness ignoring `except`. `formatsValid` is the verdict of
      the `date` and `email` format rules. */
  predicate FieldsValid(users: map<nat, User>, req: UserRequest, formatsValid: bool, except: Option<nat>) {
    && formatsValid
    && Filled(req.fullname) && |req.fullname.value| <= 255
    && Filled(req.department) && Filled(req.dob) && Filled(req.role) && Filled(req.gender)
    && Filled(req.address) && Filled(req.contact) && Filled(req.username)
    && Filled(req.email) && EmailFree(users, req.email.value, except)
  }

  /** The request's fields written over `u` with the role stored as `role`; the
      password is kept. */
  function WithFields(u: User, req: UserRequest, role: string): (r: User)
    requires Filled(req.email) && Filled(req.username)
    ensures r.role == role && r.password == u.password
    ensures r.email == req.email.value && r.username == req.username.value
  {
    u.(fullname := req.fullname.GetOr(""), department := req.department.GetOr(""), dob := req.dob.GetOr(""),
       role := role, gender := req.gender.GetOr(""), address := req.address.GetOr(""),
       contact := req.contact.GetOr(""), email := req.email.value, username := req.username.value)
  }

  lemma WriteKeepsUnique(users: map<nat, User>, id: nat, u: User)
    requires UniqueEmails(users) && EmailFree(users, u.email, Some(id))
    ensures UniqueEmails(users[id := u])
  {
    var m := users[id := u];
    forall x, y | x in m && y in m && x != y ensures m[x].email != m[y].email {
      if x == id {
        assert m[y] == users[y];
      } else if y == id {
        assert m[x] == users[x];
      }
    }
  }

  // ---------------------------------------------------------------------
  // store (lines 31-73)

  predicate ValidStore(users: map<nat, User>, req: UserRequest, formatsValid: bool) {
    && FieldsValid(users, req, formatsValid, None)
    && UsernameFree(users, req.username.value)
    && Filled(req.password) && |req.password.value| >= 6
  }

  /** The row store writes, `hash` standing for `Hash::make` of the password. */
  function NewUser(req: UserRequest, hash: string): (r: User)
    requires Filled(req.email) && Filled(req.username) && Filled(req.role)
    ensures r.role == UserStoreSlug(req.role.value) && r.password == hash
    ensures r.email == req.email.value && r.username == req.username.value
  {
    WithFields(User("", "", "", "", "", "", "", "", "", hash), req, UserStoreSlug(req.role.value))
  }

  function StoreOutcome(users: map<nat, User>, newId: nat, req: UserRequest, formatsValid: bool, hash: string): (r: Outcome)
    requires newId !in users
    ensures r.status == 422 <==> !ValidStore(users, req, formatsValid)
    ensures r.status == 201 <==> ValidStore(users, req, formatsValid)
    ensures r.status != 201 ==> r.users == users
    ensures r.status == 201 ==> r.users == users[newId := NewUser(req, hash)]
  {
    if !ValidStore(users, req, formatsValid) then Outcome(422, users)
    else Outcome(201, users[newId := NewUser(req, hash)])
  }

  lemma StoreKeepsUnique(users: map<nat, User>, newId: nat, req: UserRequest, formatsValid: bool, hash: string)
    requires newId !in users && UniqueEmails(users)
    ensures UniqueEmails(StoreOutcome(users, newId, req, formatsValid, hash).users)
  {
    if ValidStore(users, req, formatsValid) {
      WriteKeepsUnique(users, newId, NewUser(req, hash));
    }
  }

  // ---------------------------------------------------------------------
  // update (lines 80-120)

  /** The update's rules: the username is only required, not checked for
      uniqueness, and there is no rule on the password. */
  predicate ValidUpdate(users: map<nat, User>, id: nat, req: UserRequest, formatsValid: bool) {
    FieldsValid(users, req, formatsValid, Some(id))
  }

  /** The row update writes: the role label verbatim, the password only when
      one is filled in. */
  function Updated(u: User, req: UserRequest, hash: string): (r: User)
    requires Filled(req.email) && Filled(req.username) && Filled(req.role)
    ensures r.role == req.role.value
    ensures r.password == (if Filled(req.password) then hash else u.password)
  {
    WithFields(u, req, req.role.value).(password := if Filled(req.password) then hash else u.password)
  }

  /** update as written: the password is read from the validated data, which
      has no `password` key, so a filled password raises before anything is
      written. */
  function UpdateOutcomeAsWritten(users: map<nat, User>, id: nat, req: UserRequest, formatsValid: bool, hash: string)
    : (r: Outcome)
    ensures r.status == 500 <==> id in users && ValidUpdate(users, id, req, formatsValid) && Filled(req.password)
    ensures r.status != 200 ==> r.users == users
  {
    if id !in users then Outcome(404, users)
    else if !ValidUpdate(users, id, req, formatsValid) then Outcome(422, users)
    else if Filled(req.password) then Outcome(500, users)
    else Outcome(200, users[id := Updated(users[id], req, hash)])
  }

  /** update with the filled password hashed and stored. */
  function UpdateOutcome(users: map<nat, User>, id: nat, req: UserRequest, formatsValid: bool, hash: string): (r: Outcome)
    ensures r.status == 404 <==> id !in users
    ensures r.status == 422 <==> id in users && !ValidUpdate(users, id, req, formatsValid)
    ensures r.status == 200 <==> id in users && ValidUpdate(users, id, req, formatsValid)
    ensures r.status != 200 ==> r.users == users
    ensures r.status == 200 ==> r.users == users[id := Updated(users[id], req, hash)]
  {
    if id !in users then Outcome(404, users)
    else if !ValidUpdate(users, id, req, formatsValid) then Outcome(422, users)
    else Outcome(200, users[id := Updated(users[id], req, hash)])
  }

  /** The two agree except on a valid request with a filled password, which the
      code as written answers with 500 and no write. */
  lemma FilledPasswordRaises(users: map<nat, User>, id: nat, req: UserRequest, formatsValid: bool, hash: string)
    ensures !Filled(req.password) ==> UpdateOutcomeAsWritten(users, id, req, formatsValid, hash)
                                      == UpdateOutcome(users, id, req, formatsValid, hash)
    ensures id in users && ValidUpdate(users, id, req, formatsValid) && Filled(req.password)
            ==> UpdateOutcomeAsWritten(users, id, req, formatsValid, hash) == Outcome(500, users)
                && UpdateOutcome(users, id, req, formatsValid, hash).users[id].password == hash
  {
  }

  lemma UpdateKeepsUnique(users: map<nat, User>, id: nat, req: UserRequest, formatsValid: bool, hash: string)
    requires UniqueEmails(users)
    ensures UniqueEmails(UpdateOutcome(users, id, req, formatsValid, hash).users)
  {
    if id in users && ValidUpdate(users, id, req, formatsValid) {
      WriteKeepsUnique(users, id, Updated(users[id], req, hash));
    }
  }

  /** Update does not check the username, so two users can end up with the same one. */
  lemma UpdateCanDuplicateUsername()
    ensures var u := User("A", "D", "2000-01-01", "prof", "F", "X", "1", "a@x", "ann", "h");
            var v := User("B", "D", "2000-01-01", "prof", "F", "X", "1", "b@x", "bob", "h");
            var req := UserRequest(Some("B"), Some("D"), Some("2000-01-01"), Some("prof"), Some("F"),
                                   Some("X"), Some("1"), Some("b@x"), Some("ann"), None);
            var r := UpdateOutcome(map[1 := u, 2 := v], 2, req, true, "h");
            r.status == 200 && r.users[1].username == r.users[2].username
  {
    var u := User("A", "D", "2000-01-01", "prof", "F", "X", "1", "a@x", "ann", "h");
    var v := User("B", "D", "2000-01-01", "prof", "F", "X", "1", "b@x", "bob", "h");
    var req := UserRequest(Some("B"), Some("D"), Some("2000-01-01"), Some("prof"), Some("F"),
                           Some("X"), Some("1"), Some("b@x"), Some("ann"), None);
    var users := map[1 := u, 2 := v];
    FilledFirst("B");
    FilledFirst("D");
    FilledFirst("2000-01-01");
    FilledFirst("prof");
    FilledFirst("F");
    FilledFirst("X");
    FilledFirst("1");
    FilledFirst("b@x");
    FilledFirst("ann");
    assert EmailFree(users, "b@x", Some(2));
    assert ValidUpdate(users, 2, req, true);
  }

  // ---------------------------------------------------------------------
  // The table

  class UserTable {
    var users: map<nat, User>
    var nextId: nat

    ghost predicate Valid()
      reads this
    {
      UniqueEmails(users) && forall id | id in users :: id < nextId
    }

    constructor()
      ensures Valid() && users == map[] && nextId == 1
    {
      users := map[];
      nextId := 1;
    }

    method Store(req: UserRequest, formatsValid: bool, hash: string) returns (status: int)
      requires Valid()
      modifies this
      ensures Valid()
      ensures var o := StoreOutcome(old(users), old(nextId), req, formatsValid, hash);
              status == o.status && users == o.users
      ensures nextId == if status == 201 then old(nextId) + 1 else old(nextId)
    {
      StoreKeepsUnique(users, nextId, req, formatsValid, hash);
      ghost var o := StoreOutcome(users, nextId, req, formatsValid, hash);
      if !ValidStore(users, req, formatsValid) {
        return 422;
      }
      var row := NewUser(req, hash);
      assert o.users == users[nextId := row];
      users := users[nextId := row];
      nextId := nextId + 1;
      status := 201;
    }

    method Update(id: nat, req: UserRequest, formatsValid: bool, hash: string) returns (status: int)
      requires Valid()
      modifies this
      ensures Valid() && nextId == old(nextId)
      ensures var o := UpdateOutcome(old(users), id, req, formatsValid, hash);
              status == o.status && users == o.users
    {
      UpdateKeepsUnique(users, id, req, formatsValid, hash);
      if id !in users {
        return 404;
      }
      if !ValidUpdate(users, id, req, formatsValid) {
        return 422;
      }
      users := users[id := Updated(users[id], req, hash)];
      status := 200;
    }

    method DeleteMultiple(input: IdsInput) returns (status: int)
      requires Valid()
      modifies this
      ensures Valid() && nextId == old(nextId)
      ensures var d := BulkDelete.DeleteMultiple(old(users), input);
              status == d.status && users == d.rows
    {
      if IdsRejected(input) {
        return 400;
      }
      users := WithoutIds(users, input.ids);
      status := 200;
    }
  }
}
