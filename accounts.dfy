/** The accounts table and AccountController: who may list and manage
    accounts, how a role label becomes a slug, and what each request writes. */
module Accounts {
  import opened Wrappers
  import opened Text
  import opened Roles
  import opened BulkDelete

  /** A row of `accounts`; `password` holds the hash. */
  datatype Account = Account(fullname: string, collegeId: Option<string>, dob: string, role: string,
                             gender: string, address: string, contact: string,
                             email: string, username: string, password: string)

  /** The request body; a missing key and a null value are both None. */
  datatype AccountRequest = AccountRequest(fullname: Option<string>, collegeId: Option<string>, dob: Option<string>,
                                           role: Option<string>, gender: Option<string>, address: Option<string>,
                                           contact: Option<string>, email: Option<string>, username: Option<string>,
                                           password: Option<string>)

  datatype Outcome = Outcome(status: int, accounts: map<nat, Account>)

  // ---------------------------------------------------------------------
  // Access gates

  /** index (lines 14-19). */
  predicate CanListAccounts(role: string) { role in {"super_admin", "dean", "college_secretary"} }

  /** store, updateUser, destroy and deleteMultiple (lines 74-79, 185-190, 257-262, 273-278). */
  predicate CanManageAccounts(role: string) { role == "super_admin" }

  // ---------------------------------------------------------------------
  // Validation shared by store, updateProfile and updateUser

  /** No account other than `except` has this email. */
  predicate EmailFree(accounts: map<nat, Account>, email: string, except: Option<nat>) {
    forall id | id in accounts && Some(id) != except :: accounts[id].email != email
  }

  predicate UsernameFree(accounts: map<nat, Account>, username: string, except: Option<nat>) {
    forall id | id in accounts && Some(id) != except :: accounts[id].username != username
  }

  /** The unique indexes of the table, which every write's validation keeps. */
  predicate UniqueLogins(accounts: map<nat, Account>) {
    forall a, b | a in accounts && b in accounts && a != b ::
      accounts[a].email != accounts[b].email && accounts[a].username != accounts[b].username
  }

  /** The `required` rules on the profile fields, `max:255` on the name, and the
      two uniqueness rules ignoring `except`. `formatsValid` is the verdict of the
      `date` and `email` format rules. */
  predicate ProfileFieldsValid(accounts: map<nat, Account>, req: AccountRequest, formatsValid: bool, except: Option<nat>) {
    && formatsValid
    && Filled(req.fullname) && |req.fullname.value| <= 255
    && Filled(req.collegeId) && Filled(req.dob) && Filled(req.gender)
    && Filled(req.address) && Filled(req.contact)
    && Filled(req.email) && EmailFree(accounts, req.email.value, except)
    && Filled(req.username) && UsernameFree(accounts, req.username.value, except)
  }

  /** Every profile field of the request written over `a`, the role and the
      password kept. */
  function WithProfile(a: Account, req: AccountRequest): (r: Account)
    requires Filled(req.email) && Filled(req.username)
    ensures r.role == a.role && r.password == a.password
    ensures r.email == req.email.value && r.username == req.username.value
    ensures r.collegeId == req.collegeId
  {
    a.(fullname := req.fullname.GetOr(""), collegeId := req.collegeId, dob := req.dob.GetOr(""),
       gender := req.gender.GetOr(""), address := req.address.GetOr(""), contact := req.contact.GetOr(""),
       email := req.email.value, username := req.username.value)
  }

  /** Writing one row whose email and username no other row has keeps the
      table's unique indexes. */
  lemma WriteKeepsUnique(accounts: map<nat, Account>, id: nat, a: Account)
    requires UniqueLogins(accounts)
    requires EmailFree(accounts, a.email, Some(id)) && UsernameFree(accounts, a.username, Some(id))
    ensures UniqueLogins(accounts[id := a])
  {
    var m := accounts[id := a];
    forall x, y | x in m && y in m && x != y
      ensures m[x].email != m[y].email && m[x].username != m[y].username
    {
      if x == id {
        assert m[y] == accounts[y];
      } else if y == id {
        assert m[x] == accounts[x];
      }
    }
  }

  // ---------------------------------------------------------------------
  // index (lines 11-69)

  datatype Listing = Forbidden | Page(labels: map<nat, string>)

  /** The accounts an authorised caller sees, each with its role shown as a
      label; an empty role filter lists every account. */
  function Index(currentRole: string, accounts: map<nat, Account>, roleFilter: Option<string>): (r: Listing)
    ensures r.Forbidden? <==> !CanListAccounts(currentRole)
    ensures r.Page? ==> forall id :: id in r.labels <==> id in accounts && (IsEmptyValue(roleFilter) || accounts[id].role == roleFilter.value)
    ensures r.Page? ==> forall id | id in r.labels :: r.labels[id] == RoleLabel(accounts[id].role)
  {
    if !CanListAccounts(currentRole) then Forbidden
    else Page(map id | id in accounts && (IsEmptyValue(roleFilter) || accounts[id].role == roleFilter.value)
                :: RoleLabel(accounts[id].role))
  }

  // ---------------------------------------------------------------------
  // store (lines 71-119)

  predicate ValidStore(accounts: map<nat, Account>, req: AccountRequest, formatsValid: bool) {
    && ProfileFieldsValid(accounts, req, formatsValid, None)
    && Filled(req.role)
    && Filled(req.password) && |req.password.value| >= 6
  }

  /** The row store writes, `hash` standing for `Hash::make` of the password. */
  function NewAccount(req: AccountRequest, hash: string): (r: Account)
    requires Filled(req.email) && Filled(req.username) && Filled(req.role)
    ensures r.role == AccountStoreSlug(req.role.value)
    ensures r.email == req.email.value && r.username == req.username.value
    ensures r.collegeId == req.collegeId && r.password == hash
  {
    WithProfile(Account("", None, "", AccountStoreSlug(req.role.value), "", "", "", "", "", hash), req)
  }

  function StoreOutcome(accounts: map<nat, Account>, newId: nat, currentRole: string, req: AccountRequest,
                        formatsValid: bool, hash: string): (r: Outcome)
    requires newId !in accounts
    ensures r.status == 403 <==> !CanManageAccounts(currentRole)
    ensures r.status == 422 <==> CanManageAccounts(currentRole) && !ValidStore(accounts, req, formatsValid)
    ensures r.status == 201 <==> CanManageAccounts(currentRole) && ValidStore(accounts, req, formatsValid)
    ensures r.status != 201 ==> r.accounts == accounts
    ensures r.status == 201 ==> r.accounts == accounts[newId := NewAccount(req, hash)]
  {
    if !CanManageAccounts(currentRole) then Outcome(403, accounts)
    else if !ValidStore(accounts, req, formatsValid) then Outcome(422, accounts)
    else Outcome(201, accounts[newId := NewAccount(req, hash)])
  }

  lemma StoreKeepsUnique(accounts: map<nat, Account>, newId: nat, currentRole: string, req: AccountRequest,
                         formatsValid: bool, hash: string)
    requires newId !in accounts && UniqueLogins(accounts)
    ensures UniqueLogins(StoreOutcome(accounts, newId, currentRole, req, formatsValid, hash).accounts)
  {
    if CanManageAccounts(currentRole) && ValidStore(accounts, req, formatsValid) {
      WriteKeepsUnique(accounts, newId, NewAccount(req, hash));
    }
  }

  /** An account created under one of the three listed labels is listed under
      that label again. */
  lemma StoredLabelListed(accounts: map<nat, Account>, newId: nat, req: AccountRequest, formatsValid: bool, hash: string)
    requires newId !in accounts
    requires ValidStore(accounts, req, formatsValid)
    requires req.role.value in {"Super Admin", "Dean", "College Secretary"}
    ensures Index("super_admin", StoreOutcome(accounts, newId, "super_admin", req, formatsValid, hash).accounts, None).labels[newId]
            == req.role.value
  {
    LabelRoundTrip(req.role.value);
  }

  // ---------------------------------------------------------------------
  // updateProfile (lines 130-169)

  /** The password rule checked when a new password is filled in. */
  predicate ValidProfile(accounts: map<nat, Account>, userId: nat, req: AccountRequest, formatsValid: bool) {
    && ProfileFieldsValid(accounts, req, formatsValid, Some(userId))
    && (Filled(req.password) ==> |req.password.value| >= 6)
  }

  /** The caller's own row after the update: the role is never written and the
      password only when one is filled in. */
  function ProfileUpdated(a: Account, req: AccountRequest, hash: string): (r: Account)
    requires Filled(req.email) && Filled(req.username)
    ensures r.role == a.role
    ensures r.password == (if Filled(req.password) then hash else a.password)
  {
    WithProfile(a, req).(password := if Filled(req.password) then hash else a.password)
  }

  function ProfileOutcome(accounts: map<nat, Account>, userId: nat, req: AccountRequest, formatsValid: bool,
                          hash: string): (r: Outcome)
    requires userId in accounts
    ensures r.status == 422 <==> !ValidProfile(accounts, userId, req, formatsValid)
    ensures r.status == 200 <==> ValidProfile(accounts, userId, req, formatsValid)
    ensures r.status != 200 ==> r.accounts == accounts
    ensures r.status == 200 ==> r.accounts == accounts[userId := ProfileUpdated(accounts[userId], req, hash)]
    ensures userId in r.accounts && r.accounts[userId].role == accounts[userId].role
  {
    if !ValidProfile(accounts, userId, req, formatsValid) then Outcome(422, accounts)
    else Outcome(200, accounts[userId := ProfileUpdated(accounts[userId], req, hash)])
  }

  lemma ProfileKeepsUnique(accounts: map<nat, Account>, userId: nat, req: AccountRequest, formatsValid: bool, hash: string)
    requires userId in accounts && UniqueLogins(accounts)
    ensures UniqueLogins(ProfileOutcome(accounts, userId, req, formatsValid, hash).accounts)
  {
    if ValidProfile(accounts, userId, req, formatsValid) {
      WriteKeepsUnique(accounts, userId, ProfileUpdated(accounts[userId], req, hash));
    }
  }

  // ---------------------------------------------------------------------
  // updateUser (lines 175-251). Every exception inside the try block,
  // the missing row and the failed validation included, becomes a 500.

  predicate ValidEdit(accounts: map<nat, Account>, id: nat, req: AccountRequest, formatsValid: bool) {
    && ProfileFieldsValid(accounts, req, formatsValid, Some(id))
    && Filled(req.role)
    && (Filled(req.password) ==> |req.password.value| >= 6)
  }

  /** In an administrator's edit the new password is the one `filled` and
      non-empty. */
  predicate NewPasswordGiven(p: Option<string>) { Filled(p) && Truthy(p.value) }

  function Edited(a: Account, req: AccountRequest, hash: string): (r: Account)
    requires Filled(req.email) && Filled(req.username) && Filled(req.role)
    ensures r.role == AccountUpdateSlug(req.role.value)
    ensures r.password == (if NewPasswordGiven(req.password) then hash else a.password)
  {
    WithProfile(a, req).(role := AccountUpdateSlug(req.role.value),
                         password := if NewPasswordGiven(req.password) then hash else a.password)
  }

  function EditOutcome(accounts: map<nat, Account>, currentRole: string, id: nat, req: AccountRequest,
                       formatsValid: bool, hash: string): (r: Outcome)
    ensures r.status == 403 <==> !CanManageAccounts(currentRole)
    ensures r.status == 500 <==> CanManageAccounts(currentRole) && (id !in accounts || !ValidEdit(accounts, id, req, formatsValid))
    ensures r.status == 200 <==> CanManageAccounts(currentRole) && id in accounts && ValidEdit(accounts, id, req, formatsValid)
    ensures r.status != 200 ==> r.accounts == accounts
    ensures r.status == 200 ==> r.accounts == accounts[id := Edited(accounts[id], req, hash)]
  {
    if !CanManageAccounts(currentRole) then Outcome(403, accounts)
    else if id !in accounts || !ValidEdit(accounts, id, req, formatsValid) then Outcome(500, accounts)
    else Outcome(200, accounts[id := Edited(accounts[id], req, hash)])
  }

  lemma EditKeepsUnique(accounts: map<nat, Account>, currentRole: string, id: nat, req: AccountRequest,
                        formatsValid: bool, hash: string)
    requires UniqueLogins(accounts)
    ensures UniqueLogins(EditOutcome(accounts, currentRole, id, req, formatsValid, hash).accounts)
  {
    if CanManageAccounts(currentRole) && id in accounts && ValidEdit(accounts, id, req, formatsValid) {
      WriteKeepsUnique(accounts, id, Edited(accounts[id], req, hash));
    }
  }

  /** Neither update touches the password unless a new one is filled in. */
  lemma BlankPasswordKept(accounts: map<nat, Account>, currentRole: string, id: nat, req: AccountRequest,
                          formatsValid: bool, hash: string)
    requires id in accounts
    requires !Filled(req.password)
    ensures ProfileOutcome(accounts, id, req, formatsValid, hash).accounts[id].password == accounts[id].password
    ensures EditOutcome(accounts, currentRole, id, req, formatsValid, hash).accounts[id].password == accounts[id].password
  {
  }

  /** A password left out, or blank such as "   ", skips the `string|min:6`
      rule: an otherwise valid edit is answered 200 and keeps the old
      password. */
  lemma BlankPasswordEditAccepted(accounts: map<nat, Account>, currentRole: string, id: nat, req: AccountRequest,
                                  formatsValid: bool, hash: string)
    requires CanManageAccounts(currentRole) && id in accounts
    requires ProfileFieldsValid(accounts, req, formatsValid, Some(id)) && Filled(req.role)
    requires !Filled(req.password)
    ensures var o := EditOutcome(accounts, currentRole, id, req, formatsValid, hash);
            o.status == 200 && o.accounts[id] == Edited(accounts[id], req, hash)
            && o.accounts[id].password == accounts[id].password
  {
  }

  // ---------------------------------------------------------------------
  // destroy (lines 254-268) and deleteMultiple (lines 270-289)

  function DestroyOutcome(accounts: map<nat, Account>, currentRole: string, id: nat): (r: Outcome)
    ensures r.status == 403 <==> !CanManageAccounts(currentRole)
    ensures r.status == 404 <==> CanManageAccounts(currentRole) && id !in accounts
    ensures r.status == 200 <==> CanManageAccounts(currentRole) && id in accounts
    ensures r.status != 200 ==> r.accounts == accounts
    ensures r.accounts.Keys == if r.status == 200 then accounts.Keys - {id} else accounts.Keys
    ensures forall k | k in r.accounts :: k in accounts && r.accounts[k] == accounts[k]
  {
    if !CanManageAccounts(currentRole) then Outcome(403, accounts)
    else if id !in accounts then Outcome(404, accounts)
    else Outcome(200, accounts - {id})
  }

  /** deleteMultiple: the role gate, then the shared ids guard. */
  function DeleteMultipleOutcome(accounts: map<nat, Account>, currentRole: string, input: IdsInput): (r: Outcome)
    ensures r.status == 403 <==> !CanManageAccounts(currentRole)
    ensures r.status == 400 <==> CanManageAccounts(currentRole) && IdsRejected(input)
    ensures r.status != 200 ==> r.accounts == accounts
    ensures r.status == 200 ==> r.accounts == WithoutIds(accounts, input.ids)
  {
    if !CanManageAccounts(currentRole) then Outcome(403, accounts)
    else
      var d := DeleteMultiple(accounts, input);
      Outcome(d.status, d.rows)
  }

  /** Removing rows keeps the unique indexes. */
  lemma RemovalKeepsUnique(accounts: map<nat, Account>, kept: map<nat, Account>)
    requires UniqueLogins(accounts)
    requires forall k | k in kept :: k in accounts && kept[k] == accounts[k]
    ensures UniqueLogins(kept)
  {
  }

  // ---------------------------------------------------------------------
  // The college_id column as the code writes it

  /** The row Account::create stores as written: `college_id` is not in the
      model's fillable list (Account.php:16-27), so the column keeps its null
      default. */
  function NewAccountAsWritten(req: AccountRequest, hash: string): (r: Account)
    requires Filled(req.email) && Filled(req.username) && Filled(req.role)
    ensures r.collegeId == None
  {
    NewAccount(req, hash).(collegeId := None)
  }

  /** The row `$user->update($payload)` stores as written: `college_id` is
      dropped, so the old value stays. */
  function ProfileUpdatedAsWritten(a: Account, req: AccountRequest, hash: string): (r: Account)
    requires Filled(req.email) && Filled(req.username)
    ensures r.collegeId == a.collegeId
  {
    ProfileUpdated(a, req, hash).(collegeId := a.collegeId)
  }

  /** Every valid create loses the college id it was given, and every valid
      profile edit that changes it is lost; the corrected rows keep it. */
  lemma CollegeIdDropped(accounts: map<nat, Account>, userId: nat, req: AccountRequest, formatsValid: bool, hash: string)
    requires userId in accounts
    requires ValidStore(accounts, req, formatsValid)
    requires accounts[userId].collegeId != req.collegeId
    ensures NewAccountAsWritten(req, hash).collegeId != req.collegeId
    ensures ProfileUpdatedAsWritten(accounts[userId], req, hash).collegeId != req.collegeId
    ensures NewAccount(req, hash).collegeId == req.collegeId
    ensures ProfileUpdated(accounts[userId], req, hash).collegeId == req.collegeId
  {
  }

  // ---------------------------------------------------------------------
  // The table

  class AccountTable {
    var accounts: map<nat, Account>
    var nextId: nat

    ghost predicate Valid()
      reads this
    {
      UniqueLogins(accounts) && forall id | id in accounts :: id < nextId
    }

    constructor()
      ensures Valid() && accounts == map[] && nextId == 1
    {
      accounts := map[];
      nextId := 1;
    }

    method Store(currentRole: string, req: AccountRequest, formatsValid: bool, hash: string) returns (status: int)
      requires Valid()
      modifies this
      ensures Valid()
      ensures var o := StoreOutcome(old(accounts), old(nextId), currentRole, req, formatsValid, hash);
              status == o.status && accounts == o.accounts
      ensures nextId == if status == 201 then old(nextId) + 1 else old(nextId)
    {
      StoreKeepsUnique(accounts, nextId, currentRole, req, formatsValid, hash);
      if !CanManageAccounts(currentRole) {
        return 403;
      }
      if !ValidStore(accounts, req, formatsValid) {
        return 422;
      }
      accounts := accounts[nextId := NewAccount(req, hash)];
      nextId := nextId + 1;
      status := 201;
    }

    /** updateProfile on the authenticated caller's own row. */
    method UpdateProfile(userId: nat, req: AccountRequest, formatsValid: bool, hash: string) returns (status: int)
      requires Valid() && userId in accounts
      modifies this
      ensures Valid() && nextId == old(nextId)
      ensures var o := ProfileOutcome(old(accounts), userId, req, formatsValid, hash);
              status == o.status && accounts == o.accounts
    {
      ProfileKeepsUnique(accounts, userId, req, formatsValid, hash);
      if !ValidProfile(accounts, userId, req, formatsValid) {
        return 422;
      }
      accounts := accounts[userId := ProfileUpdated(accounts[userId], req, hash)];
      status := 200;
    }

    method UpdateUser(currentRole: string, id: nat, req: AccountRequest, formatsValid: bool, hash: string)
      returns (status: int)
      requires Valid()
      modifies this
      ensures Valid() && nextId == old(nextId)
      ensures var o := EditOutcome(old(accounts), currentRole, id, req, formatsValid, hash);
              status == o.status && accounts == o.accounts
    {
      EditKeepsUnique(accounts, currentRole, id, req, formatsValid, hash);
      if !CanManageAccounts(currentRole) {
        return 403;
      }
      if id !in accounts || !ValidEdit(accounts, id, req, formatsValid) {
        return 500;
      }
      accounts := accounts[id := Edited(accounts[id], req, hash)];
      status := 200;
    }

    method Destroy(currentRole: string, id: nat) returns (status: int)
      requires Valid()
      modifies this
      ensures Valid() && nextId == old(nextId)
      ensures var o := DestroyOutcome(old(accounts), currentRole, id);
              status == o.status && accounts == o.accounts
    {
      var o := DestroyOutcome(accounts, currentRole, id);
      RemovalKeepsUnique(accounts, o.accounts);
      if !CanManageAccounts(currentRole) {
        return 403;
      }
      if id !in accounts {
        return 404;
      }
      accounts := accounts - {id};
      status := 200;
    }

    method DeleteMultiple(currentRole: string, input: IdsInput) returns (status: int)
      requires Valid()
      modifies this
      ensures Valid() && nextId == old(nextId)
      ensures var o := DeleteMultipleOutcome(old(accounts), currentRole, input);
              status == o.status && accounts == o.accounts
    {
      var o := DeleteMultipleOutcome(accounts, currentRole, input);
      RemovalKeepsUnique(accounts, o.accounts);
      if !CanManageAccounts(currentRole) {
        return 403;
      }
      if IdsRejected(input) {
        return 400;
      }
      accounts := WithoutIds(accounts, input.ids);
      status := 200;
    }
  }
}
