/**
 * Offline accounts (src/compareset/auth.py): a list of user records with an
 * e-mail, a password hash, the machine the account is bound to and a role.
 * The JSON file becomes the `users` field of a store object; PBKDF2 and
 * base64 are functions passed in.
 */
module Auth {
  import opened Wrappers

  type Bytes = seq<bv8>

  /** The primitives `hash_password` and `check_password` are built from. */
  datatype Crypto = Crypto(pbkdf2: (string, Bytes) -> Bytes, b64encode: Bytes -> string, b64decode: string -> Bytes)

  /** base64 decoding undoes encoding. */
  ghost predicate B64RoundTrip(c: Crypto) {
    forall x :: c.b64decode(c.b64encode(x)) == x
  }

  /** base64 of some bytes is never the empty text. */
  ghost predicate B64NonEmpty(c: Crypto) {
    forall x :: x != [] ==> c.b64encode(x) != ""
  }

  /** `hash_password(password, salt)`: base64 of the salt followed by the derived key. */
  function HashPassword(c: Crypto, password: string, salt: Bytes): string {
    c.b64encode(salt + c.pbkdf2(password, salt))
  }

  /** `check_password`: the first 16 bytes are the salt, the rest must be the derived key. */
  function CheckPassword(c: Crypto, password: string, hashed: string): bool {
    var data := c.b64decode(hashed);
    var salt := if |data| <= 16 then data else data[..16];
    var dk := if |data| <= 16 then [] else data[16..];
    c.pbkdf2(password, salt) == dk
  }

  /** A password checks against its own hash made with a 16-byte salt. */
  lemma CheckOwnHash(c: Crypto, password: string, salt: Bytes)
    requires B64RoundTrip(c) && |salt| == 16
    ensures CheckPassword(c, password, HashPassword(c, password, salt))
  {
    var data := salt + c.pbkdf2(password, salt);
    assert c.b64decode(c.b64encode(data)) == data;
    if |data| > 16 {
      assert data[..16] == salt && data[16..] == c.pbkdf2(password, salt);
    } else {
      assert data == salt;
    }
  }

  /** One user record; a record read from the file may lack its "email". */
  datatype UserRecord = UserRecord(email: Option<string>, password: Option<string>, machine: Option<string>, role: string)

  predicate Matches(u: UserRecord, email: string) { u.email == Some(email) }

  /** The position of the first record with `email`, or the number of records. */
  function FindEmail(users: seq<UserRecord>, email: string): (i: nat)
    ensures i <= |users| && (i < |users| ==> Matches(users[i], email))
    ensures forall k :: 0 <= k < i ==> !Matches(users[k], email)
  {
    if users == [] then 0
    else if Matches(users[0], email) then 0
    else 1 + FindEmail(users[1..], email)
  }

  /** The position of the first record with `email` and no password, or the number of records. */
  function FindUnset(users: seq<UserRecord>, email: string): (i: nat)
    ensures i <= |users| && (i < |users| ==> Matches(users[i], email) && users[i].password.None?)
    ensures forall k :: 0 <= k < i ==> !(Matches(users[k], email) && users[k].password.None?)
  {
    if users == [] then 0
    else if Matches(users[0], email) && users[0].password.None? then 0
    else 1 + FindUnset(users[1..], email)
  }

  // ---------------------------------------------------------------- the operations on values

  function Preregister(users: seq<UserRecord>, email: string, role: string): seq<UserRecord> {
    if FindEmail(users, email) < |users| then users
    else users + [UserRecord(Some(email), None, None, role)]
  }

  function SetPasswordSpec(users: seq<UserRecord>, email: string, hashed: string): (seq<UserRecord>, bool) {
    var i := FindUnset(users, email);
    if i < |users| then (users[i := users[i].(password := Some(hashed))], true) else (users, false)
  }

  function ResetSpec(users: seq<UserRecord>, email: string): (seq<UserRecord>, bool) {
    var i := FindEmail(users, email);
    if i < |users| then (users[i := users[i].(password := None)], true) else (users, false)
  }

  /** `not stored`: no password, or the empty string. */
  predicate Unset(p: Option<string>) { p.None? || p.value == "" }

  /**
   * `verify_login` with the machine id already chosen (the caller's or the
   * host's): the first record with the e-mail decides.
   */
  function LoginSpec(c: Crypto, users: seq<UserRecord>, email: string, password: string, machine: string)
    : (seq<UserRecord>, bool)
  {
    var i := FindEmail(users, email);
    if i == |users| then (users, false)
    else if Unset(users[i].password) || !CheckPassword(c, password, users[i].password.value) then (users, false)
    else if users[i].machine.None? then (users[i := users[i].(machine := Some(machine))], true)
    else (users, users[i].machine == Some(machine))
  }

  // ---------------------------------------------------------------- properties

  /** Pre-registering adds a fresh record only for a new e-mail, so doing it twice is doing it once. */
  lemma PreregisterLaws(users: seq<UserRecord>, email: string, role: string)
    ensures FindEmail(users, email) < |users| ==> Preregister(users, email, role) == users
    ensures FindEmail(users, email) == |users| ==>
              Preregister(users, email, role) == users + [UserRecord(Some(email), None, None, role)]
    ensures Preregister(Preregister(users, email, role), email, role) == Preregister(users, email, role)
  {
    var p := Preregister(users, email, role);
    if FindEmail(users, email) == |users| {
      FindEmailAppend(users, UserRecord(Some(email), None, None, role), email);
    }
  }

  lemma {:induction false} FindEmailAppend(users: seq<UserRecord>, u: UserRecord, email: string)
    requires FindEmail(users, email) == |users| && Matches(u, email)
    ensures FindEmail(users + [u], email) == |users|
  {
    if users != [] {
      assert (users + [u])[1..] == users[1..] + [u];
      FindEmailAppend(users[1..], u, email);
    }
  }

  /**
   * Setting a password works only for an existing record without one; it
   * then stores the hash in the first such record and changes nothing else.
   */
  lemma SetPasswordLaws(users: seq<UserRecord>, email: string, hashed: string)
    ensures var (after, ok) := SetPasswordSpec(users, email, hashed);
            var k := FindUnset(users, email);
            (ok <==> exists j :: 0 <= j < |users| && Matches(users[j], email) && users[j].password.None?)
            && (!ok ==> after == users)
            && |after| == |users|
            && (ok ==> after[k] == users[k].(password := Some(hashed))
                       && after[k].password == Some(hashed) && after[k].email == Some(email))
            && (forall j :: 0 <= j < |users| && j != k ==> after[j] == users[j])
  {
  }

  /**
   * Resetting clears the password of the first matching record and changes
   * no other field and no other record; an unknown e-mail changes nothing.
   */
  lemma ResetLaws(users: seq<UserRecord>, email: string)
    ensures var (after, ok) := ResetSpec(users, email);
            var k := FindEmail(users, email);
            (ok <==> exists j :: 0 <= j < |users| && Matches(users[j], email))
            && (!ok ==> after == users)
            && |after| == |users|
            && (ok ==> after[k] == users[k].(password := None) && FindEmail(after, email) == k)
            && (forall j :: 0 <= j < |users| && j != k ==> after[j] == users[j])
  {
    var (after, ok) := ResetSpec(users, email);
    if ok {
      FindEmailUpdate(users, email, FindEmail(users, email), users[FindEmail(users, email)].(password := None));
    }
  }

  /** Changing the found record's non-email fields keeps it the first match. */
  lemma FindEmailUpdate(users: seq<UserRecord>, email: string, i: nat, u: UserRecord)
    requires i == FindEmail(users, email) && i < |users| && Matches(u, email)
    ensures FindEmail(users[i := u], email) == i
  {
    var v := users[i := u];
    assert forall k :: 0 <= k < i ==> v[k] == users[k];
    FindEmailFirst(v, email, i);
  }

  /** A matching position with no match before it is the first match. */
  lemma {:induction false} FindEmailFirst(users: seq<UserRecord>, email: string, i: nat)
    requires i < |users| && Matches(users[i], email)
    requires forall k :: 0 <= k < i ==> !Matches(users[k], email)
    ensures FindEmail(users, email) == i
  {
    if i > 0 {
      assert !Matches(users[0], email);
      FindEmailFirst(users[1..], email, i - 1);
    }
  }

  /** A login fails for an unknown e-mail, an unset password and a wrong password. */
  lemma LoginFailures(c: Crypto, users: seq<UserRecord>, email: string, password: string, machine: string)
    ensures var i := FindEmail(users, email);
            (i == |users| || Unset(users[i].password) || !CheckPassword(c, password, users[i].password.value))
              ==> LoginSpec(c, users, email, password, machine) == (users, false)
  {
  }

  /**
   * The first successful login binds the machine; afterwards a login with
   * the right password succeeds from that machine and from no other.
   */
  lemma MachineBinding(c: Crypto, users: seq<UserRecord>, email: string, password: string, m1: string, m2: string)
    requires LoginSpec(c, users, email, password, m1).1
    ensures var after := LoginSpec(c, users, email, password, m1).0;
            after[FindEmail(users, email)].machine == Some(m1)
            && LoginSpec(c, after, email, password, m1) == (after, true)
            && (LoginSpec(c, after, email, password, m2).1 <==> m2 == m1)
  {
    var i := FindEmail(users, email);
    if users[i].machine.None? {
      FindEmailUpdate(users, email, i, users[i].(machine := Some(m1)));
    }
  }

  /** After a reset the password no longer logs in. */
  lemma ResetBlocksLogin(c: Crypto, users: seq<UserRecord>, email: string, password: string, machine: string)
    requires ResetSpec(users, email).1
    ensures !LoginSpec(c, ResetSpec(users, email).0, email, password, machine).1
  {
    ResetLaws(users, email);
  }

  /**
   * The first-access flow of the bundled test: pre-register, a login before
   * any password fails, set the password, log in twice from machine1, and
   * machine2 is refused.
   */
  lemma FirstAccessFlow(c: Crypto, salt: Bytes)
    requires B64RoundTrip(c) && B64NonEmpty(c) && |salt| == 16
    ensures var e, p := "user@example.com", "pass";
            var u0 := Preregister([], e, "user");
            !LoginSpec(c, u0, e, p, "machine1").1
            && SetPasswordSpec(u0, e, HashPassword(c, p, salt)).1
            && var u1 := SetPasswordSpec(u0, e, HashPassword(c, p, salt)).0;
               LoginSpec(c, u1, e, p, "machine1").1
               && var u2 := LoginSpec(c, u1, e, p, "machine1").0;
                  LoginSpec(c, u2, e, p, "machine1").1
                  && !LoginSpec(c, u2, e, p, "machine2").1
  {
    var e, p := "user@example.com", "pass";
    var h := HashPassword(c, p, salt);
    CheckOwnHash(c, p, salt);
    assert h != "" by {
      assert salt + c.pbkdf2(p, salt) != [];
    }
    var u0 := Preregister([], e, "user");
    assert u0 == [UserRecord(Some(e), None, None, "user")];
    assert FindEmail(u0, e) == 0;
    var u1 := SetPasswordSpec(u0, e, h).0;
    assert u1 == [UserRecord(Some(e), Some(h), None, "user")];
    assert FindEmail(u1, e) == 0;
    var u2 := LoginSpec(c, u1, e, p, "machine1").0;
    assert u2 == [UserRecord(Some(e), Some(h), Some("machine1"), "user")];
    assert FindEmail(u2, e) == 0;
  }

  // ---------------------------------------------------------------- the store

  /** The users file, as the list of its records. */
  class UserStore {
    var users: seq<UserRecord>

    constructor (users: seq<UserRecord>)
      ensures this.users == users
    {
      this.users := users;
    }

    /** `preregister_email`. */
    method PreregisterEmail(email: string, role: string)
      modifies this
      ensures users == Preregister(old(users), email, role)
    {
      var i := 0;
      while i < |users|
        invariant 0 <= i <= |users| && forall k :: 0 <= k < i ==> !Matches(users[k], email)
      {
        if users[i].email == Some(email) {
          assert FindEmail(users, email) < |users|;
          return;
        }
        i := i + 1;
      }
      users := users + [UserRecord(Some(email), None, None, role)];
    }

    /** `set_password`, with the random salt passed in. */
    method SetPassword(c: Crypto, email: string, password: string, salt: Bytes) returns (ok: bool)
      modifies this
      ensures (users, ok) == SetPasswordSpec(old(users), email, HashPassword(c, password, salt))
    {
      var i := 0;
      while i < |users|
        invariant 0 <= i <= |users| && forall k :: 0 <= k < i ==> !(Matches(users[k], email) && users[k].password.None?)
      {
        var u := users[i];
        if u.email == Some(email) && u.password.None? {
          assert FindUnset(users, email) == i by { FindUnsetFirst(users, email, i); }
          users := users[i := u.(password := Some(HashPassword(c, password, salt)))];
          return true;
        }
        i := i + 1;
      }
      return false;
    }

    /** `reset_password`. */
    method ResetPassword(email: string) returns (ok: bool)
      modifies this
      ensures (users, ok) == ResetSpec(old(users), email)
    {
      var i := 0;
      while i < |users|
        invariant 0 <= i <= |users| && forall k :: 0 <= k < i ==> !Matches(users[k], email)
      {
        var u := users[i];
        if u.email == Some(email) {
          FindEmailFirst(users, email, i);
          users := users[i := u.(password := None)];
          return true;
        }
        i := i + 1;
      }
      return false;
    }

    /** `verify_login`; without a machine id the host's own (`get_machine_id`) is used. */
    method VerifyLogin(c: Crypto, email: string, password: string, machineId: Option<string>, hostMachine: string)
      returns (ok: bool)
      modifies this
      ensures (users, ok) == LoginSpec(c, old(users), email, password,
                                       if machineId.Some? then machineId.value else hostMachine)
    {
      var i := 0;
      while i < |users|
        invariant 0 <= i <= |users| && forall k :: 0 <= k < i ==> !Matches(users[k], email)
      {
        var u := users[i];
        if u.email != Some(email) {
          i := i + 1;
          continue;
        }
        FindEmailFirst(users, email, i);
        var stored := u.password;
        if stored.None? || stored.value == "" || !CheckPassword(c, password, stored.value) {
          return false;
        }
        var machine := if machineId.Some? then machineId.value else hostMachine;
        if u.machine.None? {
          users := users[i := u.(machine := Some(machine))];
          return true;
        }
        return u.machine == Some(machine);
      }
      return false;
    }
  }

  /** A matching record without a password, with none before it, is the first such record. */
  lemma {:induction false} FindUnsetFirst(users: seq<UserRecord>, email: string, i: nat)
    requires i < |users| && Matches(users[i], email) && users[i].password.None?
    requires forall k :: 0 <= k < i ==> !(Matches(users[k], email) && users[k].password.None?)
    ensures FindUnset(users, email) == i
  {
    if i > 0 {
      assert !(Matches(users[0], email) && users[0].password.None?);
      FindUnsetFirst(users[1..], email, i - 1);
    }
  }
}
