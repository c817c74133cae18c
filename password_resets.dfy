/** The password_resets table and PasswordResetController's sendResetLink and
    resetPassword. The random token, the clock (in seconds), the password hash
    and the mail outcome are inputs. */
module PasswordResets {
  import opened Wrappers
  import opened Text

  /** A row of password_resets. */
  datatype ResetRow = ResetRow(email: string, token: string, createdAt: int)

  /** The rows of the table for one email, in table order. */
  function RowsFor(rows: seq<ResetRow>, email: string): (r: seq<ResetRow>)
    ensures |r| <= |rows|
    ensures forall i | 0 <= i < |r| :: r[i].email == email && r[i] in rows
  {
    if rows == [] then []
    else (if rows[0].email == email then [rows[0]] else []) + RowsFor(rows[1..], email)
  }

  /** At most one row per email. */
  predicate OnePerEmail(rows: seq<ResetRow>) {
    forall i, j | 0 <= i < j < |rows| :: rows[i].email != rows[j].email
  }

  /** `updateOrInsert(['email' => e], ['token' => t, 'created_at' => now])`:
      the first row for the email is rewritten, or a row is appended. */
  function Upsert(rows: seq<ResetRow>, email: string, token: string, now: int): seq<ResetRow> {
    if rows == [] then [ResetRow(email, token, now)]
    else if rows[0].email == email then [rows[0].(token := token, createdAt := now)] + rows[1..]
    else [rows[0]] + Upsert(rows[1..], email, token, now)
  }

  /** `where('email', e)->delete()`: every row for the email goes. */
  function DeleteEmail(rows: seq<ResetRow>, email: string): seq<ResetRow> {
    if rows == [] then []
    else (if rows[0].email == email then [] else [rows[0]]) + DeleteEmail(rows[1..], email)
  }

  /** `where('email', e)->where('token', t)->first()`. */
  function FindRecord(rows: seq<ResetRow>, email: string, token: string): (r: Option<ResetRow>)
    ensures r.Some? ==> r.value in rows && r.value.email == email && r.value.token == token
    ensures r.None? ==> forall i | 0 <= i < |rows| :: rows[i].email != email || rows[i].token != token
  {
    if rows == [] then None
    else if rows[0].email == email && rows[0].token == token then Some(rows[0])
    else
      var r := FindRecord(rows[1..], email, token);
      assert forall i | 1 <= i < |rows| :: rows[i] == rows[1..][i - 1];
      r
  }

  lemma {:induction false} RowsForNone(rows: seq<ResetRow>, email: string)
    requires forall i | 0 <= i < |rows| :: rows[i].email != email
    ensures RowsFor(rows, email) == []
  {
    if rows != [] {
      assert forall i | 0 <= i < |rows[1..]| :: rows[1..][i] == rows[i + 1];
      RowsForNone(rows[1..], email);
    }
  }

  lemma OnePerEmailTail(rows: seq<ResetRow>)
    requires rows != [] && OnePerEmail(rows)
    ensures OnePerEmail(rows[1..])
    ensures forall i | 0 <= i < |rows[1..]| :: rows[1..][i].email != rows[0].email
  {
    assert forall i | 0 <= i < |rows[1..]| :: rows[1..][i] == rows[i + 1];
  }

  /** After the upsert the email has exactly one row, holding the new token and
      time; the rows of every other email are untouched. */
  lemma {:induction false} UpsertRows(rows: seq<ResetRow>, email: string, token: string, now: int, other: string)
    requires OnePerEmail(rows)
    ensures RowsFor(Upsert(rows, email, token, now), email) == [ResetRow(email, token, now)]
    ensures other != email ==> RowsFor(Upsert(rows, email, token, now), other) == RowsFor(rows, other)
  {
    if rows == [] {
    } else {
      OnePerEmailTail(rows);
      var u := Upsert(rows, email, token, now);
      assert u[1..] == (if rows[0].email == email then rows[1..] else Upsert(rows[1..], email, token, now));
      if rows[0].email == email {
        RowsForNone(rows[1..], email);
        if other != email {
          assert RowsFor(u, other) == RowsFor(rows[1..], other);
        }
      } else {
        UpsertRows(rows[1..], email, token, now, other);
      }
    }
  }

  /** The upsert keeps at most one row per email. */
  lemma {:induction false} UpsertOnePerEmail(rows: seq<ResetRow>, email: string, token: string, now: int)
    requires OnePerEmail(rows)
    ensures OnePerEmail(Upsert(rows, email, token, now))
    ensures forall i | 0 <= i < |Upsert(rows, email, token, now)| ::
              Upsert(rows, email, token, now)[i].email == email || Upsert(rows, email, token, now)[i] in rows
  {
    if rows != [] {
      OnePerEmailTail(rows);
      var u := Upsert(rows, email, token, now);
      if rows[0].email == email {
        assert u[1..] == rows[1..];
        assert forall i | 1 <= i < |u| :: u[i] == rows[i];
      } else {
        UpsertOnePerEmail(rows[1..], email, token, now);
        var t := Upsert(rows[1..], email, token, now);
        assert u == [rows[0]] + t;
        assert forall i | 1 <= i < |u| :: u[i] == t[i - 1];
        forall i | 0 < i < |u| ensures u[i].email != rows[0].email {
          assert u[i].email == email || u[i] in rows[1..];
        }
      }
    }
  }

  /** After the delete the email has no row; every other email keeps its rows. */
  lemma {:induction false} DeleteEmailRows(rows: seq<ResetRow>, email: string, other: string)
    ensures RowsFor(DeleteEmail(rows, email), email) == []
    ensures other != email ==> RowsFor(DeleteEmail(rows, email), other) == RowsFor(rows, other)
  {
    if rows != [] {
      DeleteEmailRows(rows[1..], email, other);
      var d := DeleteEmail(rows, email);
      if rows[0].email != email {
        assert d[1..] == DeleteEmail(rows[1..], email);
      } else {
        assert d == DeleteEmail(rows[1..], email);
        if other != email {
          assert RowsFor(rows, other) == [] + RowsFor(rows[1..], other);
          assert [] + RowsFor(rows[1..], other) == RowsFor(rows[1..], other);
        }
      }
    }
  }

  predicate HasToken(rs: seq<ResetRow>, token: string) {
    exists i | 0 <= i < |rs| :: rs[i].token == token
  }

  /** A record is found exactly when the email has a row with that token. */
  lemma {:induction false} FindRecordRows(rows: seq<ResetRow>, email: string, token: string)
    ensures FindRecord(rows, email, token).Some? <==> HasToken(RowsFor(rows, email), token)
  {
    if rows != [] {
      FindRecordRows(rows[1..], email, token);
      if rows[0].email == email {
        assert RowsFor(rows, email) == [rows[0]] + RowsFor(rows[1..], email);
        HasTokenCons(rows[0], RowsFor(rows[1..], email), token);
      } else {
        assert RowsFor(rows, email) == [] + RowsFor(rows[1..], email);
        assert [] + RowsFor(rows[1..], email) == RowsFor(rows[1..], email);
      }
    }
  }

  lemma HasTokenCons(x: ResetRow, t: seq<ResetRow>, token: string)
    ensures HasToken([x] + t, token) <==> x.token == token || HasToken(t, token)
  {
    var r := [x] + t;
    if HasToken(t, token) {
      var i :| 0 <= i < |t| && t[i].token == token;
      assert r[i + 1].token == token;
    }
    if x.token == token {
      assert r[0] == x;
    }
    if HasToken(r, token) && x.token != token {
      var i :| 0 <= i < |r| && r[i].token == token;
      assert t[i - 1] == r[i];
    }
  }

  /** The state the two endpoints read and write: the reset rows, and each
      user's password hash by email. */
  datatype ResetState = ResetState(rows: seq<ResetRow>, passwords: map<string, string>)

  /** sendResetLink: 422 when `required|email` rejects the email (the verdict
      `emailValid`), 404 for an
      unknown email, otherwise the token stored and 200, or 500 when the mail
      cannot be sent (the token is stored by then). */
  function SendOutcome(s: ResetState, email: string, emailValid: bool, token: string, now: int,
                         mailFails: bool): (r: (int, ResetState))
    ensures r.0 == 422 <==> !emailValid
    ensures r.0 == 404 <==> emailValid && email !in s.passwords
    ensures r.0 in {422, 404} ==> r.1 == s
    ensures r.0 == 500 <==> emailValid && email in s.passwords && mailFails
    ensures r.0 in {200, 500} ==> r.1 == s.(rows := Upsert(s.rows, email, token, now))
  {
    if !emailValid then (422, s)
    else if email !in s.passwords then (404, s)
    else
      var s' := s.(rows := Upsert(s.rows, email, token, now));
      if mailFails then (500, s') else (200, s')
  }

  /** The reset request as validated (lines 50-54); `emailValid` is the
      verdict of `required|email` on the email. */
  datatype ResetRequest = ResetRequest(email: string, emailValid: bool, token: string,
                                       password: string, confirmation: Option<string>)

  predicate ValidResetRequest(req: ResetRequest) {
    req.emailValid && !Blank(req.token)
    && !Blank(req.password) && req.confirmation == Some(req.password) && |req.password| >= 8
  }

  const TokenLifetime := 60 * 60

  /** `Carbon::parse(created_at)->addMinutes(60)->isPast()`. */
  predicate Expired(createdAt: int, now: int) { createdAt + TokenLifetime < now }

  /** resetPassword; `newHash` is what Hash::make answers for the new password. */
  function ResetOutcome(s: ResetState, req: ResetRequest, newHash: string, now: int): (r: (int, string, ResetState))
    ensures r.0 == 200 <==> ValidResetRequest(req) && FindRecord(s.rows, req.email, req.token).Some?
                            && !Expired(FindRecord(s.rows, req.email, req.token).value.createdAt, now)
                            && req.email in s.passwords
  {
    if !ValidResetRequest(req) then (422, "Validation error", s)
    else
      match FindRecord(s.rows, req.email, req.token)
      case None => (400, "Invalid token", s)
      case Some(record) =>
        if Expired(record.createdAt, now) then (400, "Token expired", s.(rows := DeleteEmail(s.rows, req.email)))
        else if req.email !in s.passwords then (404, "User not found", s)
        else (200, "Password reset successful",
              ResetState(DeleteEmail(s.rows, req.email), s.passwords[req.email := newHash]))
  }

  /** Every outcome but success leaves the password as it was; an expired
      token is removed, every other failure changes nothing. */
  lemma ResetFailures(s: ResetState, req: ResetRequest, newHash: string, now: int)
    ensures var (status, message, s') := ResetOutcome(s, req, newHash, now);
            (status != 200 ==> s'.passwords == s.passwords)
            && (message == "Token expired" ==> s'.rows == DeleteEmail(s.rows, req.email))
            && (status != 200 && message != "Token expired" ==> s' == s)
            && (status == 200 ==> s'.passwords == s.passwords[req.email := newHash] && s'.rows == DeleteEmail(s.rows, req.email))
  {
  }

  /** A token works once: a second reset with it finds no record. */
  lemma TokenSingleUse(s: ResetState, req: ResetRequest, newHash: string, now: int, newHash2: string, later: int)
    requires ResetOutcome(s, req, newHash, now).0 == 200
    ensures ResetOutcome(ResetOutcome(s, req, newHash, now).2, req, newHash2, later).1 == "Invalid token"
  {
    var s' := ResetOutcome(s, req, newHash, now).2;
    DeleteEmailRows(s.rows, req.email, req.email);
    FindRecordRows(s'.rows, req.email, req.token);
  }

  /** A link sent at `sent` resets the password when used within the hour. */
  lemma SendThenReset(s: ResetState, req: ResetRequest, newHash: string, sent: int, now: int)
    requires OnePerEmail(s.rows) && ValidResetRequest(req) && req.email in s.passwords
    requires sent <= now <= sent + TokenLifetime
    ensures var s1 := SendOutcome(s, req.email, true, req.token, sent, false).1;
            ResetOutcome(s1, req, newHash, now).0 == 200
            && ResetOutcome(s1, req, newHash, now).2.passwords[req.email] == newHash
  {
    var s1 := SendOutcome(s, req.email, true, req.token, sent, false).1;
    UpsertRows(s.rows, req.email, req.token, sent, req.email);
    FindRecordRows(s1.rows, req.email, req.token);
    assert RowsFor(s1.rows, req.email)[0].token == req.token;
    var rec := FindRecord(s1.rows, req.email, req.token).value;
    assert rec in RowsFor(s1.rows, req.email) by {
      RowsForMember(s1.rows, req.email, rec);
    }
  }

  lemma {:induction false} RowsForMember(rows: seq<ResetRow>, email: string, row: ResetRow)
    requires row in rows && row.email == email
    ensures row in RowsFor(rows, email)
  {
    if rows[0] != row {
      RowsForMember(rows[1..], email, row);
    }
  }

  /** A new request replaces the old token: the old one no longer resets. */
  lemma NewTokenReplacesOld(s: ResetState, req: ResetRequest, newToken: string, sent: int, newHash: string, now: int)
    requires OnePerEmail(s.rows) && newToken != req.token
    ensures var s1 := SendOutcome(s, req.email, true, newToken, sent, false).1;
            ResetOutcome(s1, req, newHash, now).0 != 200
  {
    var s1 := SendOutcome(s, req.email, true, newToken, sent, false).1;
    if req.email in s.passwords {
      UpsertRows(s.rows, req.email, newToken, sent, req.email);
      FindRecordRows(s1.rows, req.email, req.token);
    }
  }

  /** The two endpoints on the table and the users' passwords. */
  class ResetStore {
    var rows: seq<ResetRow>
    var passwords: map<string, string>

    ghost predicate Valid()
      reads this
    {
      OnePerEmail(rows)
    }

    constructor(passwords: map<string, string>)
      ensures Valid() && this.rows == [] && this.passwords == passwords
    {
      this.rows := [];
      this.passwords := passwords;
    }

    method SendResetLink(email: string, emailValid: bool, token: string, now: int, mailFails: bool)
      returns (status: int)
      requires Valid()
      modifies this
      ensures Valid()
      ensures (status, ResetState(rows, passwords))
              == SendOutcome(old(ResetState(rows, passwords)), email, emailValid, token, now, mailFails)
    {
      var r := SendOutcome(ResetState(rows, passwords), email, emailValid, token, now, mailFails);
      if r.0 == 200 || r.0 == 500 {
        UpsertOnePerEmail(rows, email, token, now);
      }
      status := r.0;
      rows := r.1.rows;
    }

    method ResetPassword(req: ResetRequest, newHash: string, now: int) returns (status: int, message: string)
      requires Valid()
      modifies this
      ensures Valid()
      ensures (status, message, ResetState(rows, passwords))
              == ResetOutcome(old(ResetState(rows, passwords)), req, newHash, now)
    {
      var r := ResetOutcome(ResetState(rows, passwords), req, newHash, now);
      DeleteEmailOnePerEmail(rows, req.email);
      status, message := r.0, r.1;
      rows, passwords := r.2.rows, r.2.passwords;
    }
  }

  lemma {:induction false} DeleteEmailOnePerEmail(rows: seq<ResetRow>, email: string)
    requires OnePerEmail(rows)
    ensures OnePerEmail(DeleteEmail(rows, email))
    ensures forall i | 0 <= i < |DeleteEmail(rows, email)| :: DeleteEmail(rows, email)[i] in rows
  {
    DeleteEmailMembers(rows, email);
    if rows != [] {
      OnePerEmailTail(rows);
      DeleteEmailOnePerEmail(rows[1..], email);
      var t := DeleteEmail(rows[1..], email);
      var d := DeleteEmail(rows, email);
      if rows[0].email != email {
        assert d == [rows[0]] + t;
        forall i | 0 < i < |d| ensures d[i].email != rows[0].email {
          assert d[i] == t[i - 1] && t[i - 1] in rows[1..];
        }
      } else {
        assert d == t;
      }
    }
  }

  /** The delete adds no row: what it keeps comes from the table. */
  lemma {:induction false} DeleteEmailMembers(rows: seq<ResetRow>, email: string)
    ensures forall i | 0 <= i < |DeleteEmail(rows, email)| :: DeleteEmail(rows, email)[i] in rows
  {
    if rows != [] {
      DeleteEmailMembers(rows[1..], email);
      var t := DeleteEmail(rows[1..], email);
      var d := DeleteEmail(rows, email);
      var k := if rows[0].email == email then 0 else 1;
      assert d == (if k == 0 then [] else [rows[0]]) + t;
      forall i | 0 <= i < |d| ensures d[i] in rows {
        if i < k {
          assert d[i] == rows[0];
        } else {
          assert d[i] == t[i - k] && t[i - k] in rows[1..];
        }
      }
    }
  }
}
