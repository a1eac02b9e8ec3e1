/** Users, credentials and reset codes: auth.go, forgot.go and users.go over in-memory tables.
    Every handler is one atomic step. */
module Accounts {
  import opened Wrappers
  import Strings = Text

  // ---- ideal cryptography -------------------------------------------------------------------------------

  /** Texts with symbolic digests: Digest(s) stands for the 64 lower-case hex characters of sha256(s).
      The hash is thus injective, and no text spells out a digest by accident. */
  datatype Symbol = Ch(c: char) | Digest(of: Text)
  type Text = seq<Symbol>

  function Sha256Hex(s: Text): Text {
    [Digest(s)]
  }

  /** bcrypt, as the password that matches; the salt inside bcrypt plays no role here. */
  datatype Hash = Bcrypt(of: Text)

  /** The keyed digest of a reset code, as the code it was made from. */
  datatype Mac = CodeMac(of: string)

  function Length(s: Text): nat {
    if s == [] then 0 else Length(s[..|s| - 1]) + (if s[|s| - 1].Digest? then 64 else 1)
  }

  predicate IsHexSymbol(x: Symbol) {
    x.Digest? || '0' <= x.c <= '9' || 'a' <= x.c <= 'f'
  }

  predicate IsHexText(s: Text, n: nat) {
    Length(s) == n && forall i | 0 <= i < |s| :: IsHexSymbol(s[i])
  }

  predicate IsSHA256Hex(s: Text) { IsHexText(s, 64) }
  predicate IsSaltHex(s: Text) { IsHexText(s, 32) }

  datatype Verdict = Verdict(ok: bool, legacy: bool)

  function VerifyPassword(stored: Hash, payload: Text, salt: Text): Verdict {
    if stored == Bcrypt(payload) then Verdict(true, false)
    else if stored == Bcrypt(Sha256Hex(payload + salt)) then Verdict(true, true)
    else Verdict(false, false)
  }

  // ---- the tables -----------------------------------------------------------------------------------------

  type UserId = nat
  type Seconds = int

  datatype User = User(username: string, email: string, active: bool, hash: Hash, salt: Text, version: nat)

  /** A row of verification_codes; its id is its position. */
  datatype Code = Code(username: string, email: string, mac: Mac, used: bool, attempts: nat, created: Seconds,
      expires: Seconds)

  datatype Db = Db(users: map<UserId, User>, codes: seq<Code>)

  /** The UNIQUE constraints on users. */
  predicate Unique(users: map<UserId, User>) {
    forall a, b | a in users && b in users && a != b ::
      users[a].username != users[b].username && users[a].email != users[b].email
  }

  predicate NameTaken(users: map<UserId, User>, username: string, email: string, except: Option<UserId>) {
    exists a | a in users :: except != Some(a) && (users[a].username == username || users[a].email == email)
  }

  ghost function UserNamed(users: map<UserId, User>, username: string): (r: Option<UserId>)
    ensures r.Some? ==> r.value in users && users[r.value].username == username
    ensures r.None? ==> forall a | a in users :: users[a].username != username
  {
    if a :| a in users && users[a].username == username then Some(a) else None
  }

  lemma NamedIsUnique(users: map<UserId, User>, a: UserId)
    requires Unique(users) && a in users
    ensures UserNamed(users, users[a].username) == Some(a)
  {}

  // ---- password writers -------------------------------------------------------------------------------------

  /** Forgot, reset, admin update, and a user's own change on a salted account: a digest is kept, a
      plaintext is wrapped once with the account's salt. */
  function Wrapped(payload: Text, salt: Text): Text {
    if IsSHA256Hex(payload) then payload else Sha256Hex(payload + salt)
  }

  /** Registration and creation: a digest is kept, a plaintext is wrapped without a salt. */
  function WrappedBare(payload: Text): Text {
    if IsSHA256Hex(payload) then payload else Sha256Hex(payload)
  }

  datatype Credential = Credential(hash: Hash, salt: Text)

  /** HandleMePassword: an account without a salt gets the fresh one, and what was sent is wrapped with it. */
  function OwnChange(salt: Text, new_: Text, fresh_: Text): Credential {
    if salt == [] then Credential(Bcrypt(Sha256Hex(new_ + fresh_)), fresh_)
    else Credential(Bcrypt(Wrapped(new_, salt)), salt)
  }

  /** HandleLogin: a password that matched the old way on an account without a salt is rewritten with one. */
  function Upgraded(u: User, payload: Text, fresh_: Text): Credential {
    if VerifyPassword(u.hash, payload, u.salt) == Verdict(true, true) && u.salt == [] && fresh_ != []
    then Credential(Bcrypt(Sha256Hex(payload + fresh_)), fresh_)
    else Credential(u.hash, u.salt)
  }

  /** CreateUser: without a password the server picks one and salts it. */
  function Initial(password: Text, salt: Text, picked: Text, fresh_: Text): Credential {
    if password == [] then Credential(Bcrypt(Sha256Hex(picked + fresh_)), fresh_)
    else Credential(Bcrypt(WrappedBare(password)), salt)
  }

  predicate SaltOK(salt: Text) {
    salt == [] || IsSaltHex(salt)
  }

  // ---- the handlers, as functions of the tables ------------------------------------------------------------------

  function Put(db: Db, id: UserId, u: User): Db {
    db.(users := db.users[id := u])
  }

  function WithCredential(u: User, c: Credential): User {
    u.(hash := c.hash, salt := c.salt)
  }

  /** len of a Go string: the bytes of its UTF-8 form. */
  function ByteLength(s: string): nat {
    if s == "" then 0
    else
      var c := s[|s| - 1] as int;
      ByteLength(s[..|s| - 1]) + (if c < 0x80 then 1 else if c < 0x800 then 2 else if c < 0x10000 then 3 else 4)
  }

  predicate IsNameChar(c: char, isHan: char -> bool) {
    'a' <= c <= 'z' || 'A' <= c <= 'Z' || '0' <= c <= '9' || c == '_' || c == '.' || c == '-' || isHan(c)
  }

  /** The checks on a new name, with isHan for the script property of regexp. */
  predicate NameOK(name: string, isHan: char -> bool) {
    name != "" && ByteLength(name) <= 64 && forall i | 0 <= i < |name| :: IsNameChar(name[i], isHan)
  }

  /** An at sign, and a dot somewhere after the last one. */
  predicate EmailOK(email: string) {
    var parts := Strings.Split(email, '@');
    '@' in email && '.' in parts[|parts| - 1]
  }

  /** HandleRegister; valid stands for the checks on name and address and the registration switch. */
  function Registered(db: Db, id: UserId, username: string, email: string, payload: Text, salt: Text, valid: bool): Db {
    if !valid || Length(payload) < 6 || !SaltOK(salt) || NameTaken(db.users, username, email, None) then db
    else Put(db, id, User(username, email, true, Bcrypt(WrappedBare(payload)), salt, 0))
  }

  /** CreateUser. */
  function CreatedUser(db: Db, id: UserId, username: string, email: string, password: Text, salt: Text, picked: Text,
      fresh_: Text): Db {
    var c := Initial(password, salt, picked, fresh_);
    if !SaltOK(c.salt) || NameTaken(db.users, username, email, None) then db
    else Put(db, id, User(username, email, true, c.hash, c.salt, 0))
  }

  /** The user that a login gets a token for. */
  ghost function LoginUser(db: Db, username: string, payload: Text): Option<UserId> {
    match UserNamed(db.users, username)
    case None => None
    case Some(id) =>
      if db.users[id].active && VerifyPassword(db.users[id].hash, payload, db.users[id].salt).ok then Some(id) else None
  }

  ghost function LoggedIn(db: Db, username: string, payload: Text, fresh_: Text): Db {
    match LoginUser(db, username, payload)
    case None => db
    case Some(id) => Put(db, id, WithCredential(db.users[id], Upgraded(db.users[id], payload, fresh_)))
  }

  /** HandleMePassword. */
  function OwnPassword(db: Db, id: UserId, old_: Text, new_: Text, fresh_: Text): Db {
    if Length(new_) < 6 || id !in db.users || !VerifyPassword(db.users[id].hash, old_, db.users[id].salt).ok then db
    else
      var u := db.users[id];
      Put(db, id, WithCredential(u, OwnChange(u.salt, new_, fresh_)).(version := u.version + 1))
  }

  /** ResetPassword, for a caller who is permitted or not. */
  function AdminReset(db: Db, id: UserId, new_: Text, permitted: bool): Db {
    if Length(new_) < 6 || !permitted || id !in db.users then db
    else
      var u := db.users[id];
      Put(db, id, u.(hash := Bcrypt(Wrapped(new_, u.salt)), version := u.version + 1))
  }

  /** A super admin may reset anyone; a project admin anyone but a super admin who shares a project. */
  predicate MayReset(role: string, targetRole: string, shared: bool) {
    role == "super_admin" || (role == "project_admin" && targetRole != "super_admin" && shared)
  }

  predicate AdminMayWrite(db: Db, admin: UserId, old_: Text) {
    admin in db.users && VerifyPassword(db.users[admin].hash, old_, db.users[admin].salt).ok
  }

  /** UpdateUser: the password is written first, and stays written when the row itself is refused. */
  function AdminUpdate(db: Db, admin: UserId, id: UserId, username: string, email: string, active: bool,
      password: Text, old_: Text): Db {
    if username == "" || (password != [] && !AdminMayWrite(db, admin, old_)) || id !in db.users then db
    else
      var u := db.users[id];
      var u1 := if password == [] then u else u.(hash := Bcrypt(Wrapped(password, u.salt)), version := u.version + 1);
      if NameTaken(db.users, username, email, Some(id)) then Put(db, id, u1)
      else Put(db, id, u1.(username := username, email := email, active := active))
  }

  /** What UpdateUser answers: an id without a row violates no constraint. */
  predicate UpdateOK(db: Db, admin: UserId, id: UserId, username: string, email: string, password: Text, old_: Text) {
    && username != "" && (password == [] || AdminMayWrite(db, admin, old_))
    && (id in db.users ==> !NameTaken(db.users, username, email, Some(id)))
  }

  /** A refused update leaves the tables alone exactly when there was no password to write, or nobody or
      nothing to write it: a name that is taken comes too late. */
  lemma RefusedUpdate(db: Db, admin: UserId, id: UserId, username: string, email: string, active: bool,
                      password: Text, old_: Text)
    requires !UpdateOK(db, admin, id, username, email, password, old_)
    ensures AdminUpdate(db, admin, id, username, email, active, password, old_) == db
            <==> username == "" || password == [] || !AdminMayWrite(db, admin, old_) || id !in db.users
  {
    hide Length, IsHexText, VerifyPassword, NameTaken;
    var db' := AdminUpdate(db, admin, id, username, email, active, password, old_);
    if username != "" && password != [] && AdminMayWrite(db, admin, old_) && id in db.users {
      assert db'.users[id].version == db.users[id].version + 1;
    } else if id in db.users {
      assert db.users[id := db.users[id]] == db.users;
    }
  }

  /** Such a call: an administrator renames another account to a name that is taken, with a new password. */
  lemma RefusedUpdateWrites(p: Text, q: Text)
    requires q != []
    ensures var root := User("root", "root@host", true, Bcrypt(p), [], 0);
            var user := User("user", "user@host", true, Bcrypt(p), [], 0);
            var db := Db(map[0 := root, 1 := user], []);
            && !UpdateOK(db, 0, 1, "root", "user@host", q, p)
            && AdminUpdate(db, 0, 1, "root", "user@host", true, q, p).users[1]
               == user.(hash := Bcrypt(Wrapped(q, [])), version := 1)
  {
    hide Length, IsHexText, Wrapped;
    var root := User("root", "root@host", true, Bcrypt(p), [], 0);
    var users := map[0 := root, 1 := User("user", "user@host", true, Bcrypt(p), [], 0)];
    assert 0 in users && users[0].username == "root";
  }

  function DeletedUser(db: Db, id: UserId): Db {
    db.(users := db.users - {id})
  }

  // ---- reset codes --------------------------------------------------------------------------------------------------

  const COOLDOWN: Seconds := 60
  const CODE_LIFE: Seconds := 300
  const FAIL_WINDOW: Seconds := 600
  const MAX_ATTEMPTS := 5
  const MAX_FAILS := 20

  predicate KnownAccount(users: map<UserId, User>, username: string, email: string) {
    exists a | a in users :: users[a].username == username && users[a].email == email && users[a].active
  }

  /** A code of the user was created less than the cooldown ago. */
  predicate CoolingDown(codes: seq<Code>, username: string, now: Seconds) {
    exists i | 0 <= i < |codes| :: codes[i].username == username && now - codes[i].created < COOLDOWN
  }

  function Retired(codes: seq<Code>, username: string): (r: seq<Code>)
    ensures |r| == |codes|
    ensures forall i | 0 <= i < |codes| :: r[i] == if codes[i].username == username then codes[i].(used := true)
        else codes[i]
  {
    seq(|codes|, i requires 0 <= i < |codes| => if codes[i].username == username then codes[i].(used := true)
        else codes[i])
  }

  /** Name and address are filled in and fit on a mail header line. */
  predicate Addressable(username: string, email: string) {
    username != "" && email != "" && '\r' !in username + email && '\n' !in username + email
  }

  /** HandleForgotRequest on trimmed fields, up to the mail, whose failure leaves the code in place. */
  function CodeRequested(db: Db, username: string, email: string, code: string, now: Seconds): Db {
    if !Addressable(username, email) || !KnownAccount(db.users, username, email)
       || CoolingDown(db.codes, username, now) then db
    else db.(codes := Retired(db.codes, username)
        + [Code(username, email, CodeMac(code), false, 0, now, now + CODE_LIFE)])
  }

  predicate Open(c: Code, username: string, email: string, now: Seconds) {
    c.username == username && c.email == email && !c.used && c.expires > now
  }

  /** The newest open code. */
  function LatestOpen(codes: seq<Code>, username: string, email: string, now: Seconds): (r: Option<nat>)
    ensures r.Some? ==> r.value < |codes| && Open(codes[r.value], username, email, now)
    ensures r.None? ==> forall i | 0 <= i < |codes| :: !Open(codes[i], username, email, now)
  {
    if codes == [] then None
    else if Open(codes[|codes| - 1], username, email, now) then Some(|codes| - 1)
    else LatestOpen(codes[..|codes| - 1], username, email, now)
  }

  /** Failed attempts on the user's codes that were created in the last ten minutes. */
  function RecentFails(codes: seq<Code>, username: string, now: Seconds): nat {
    if codes == [] then 0
    else
      var c := codes[|codes| - 1];
      RecentFails(codes[..|codes| - 1], username, now)
      + (if c.username == username && c.created > now - FAIL_WINDOW then c.attempts else 0)
  }

  datatype CodeVerdict = Rejected | Wrong(index: nat) | Right(index: nat)

  function CheckCode(db: Db, username: string, email: string, code: string, now: Seconds): (v: CodeVerdict)
    ensures !v.Rejected? ==> v.index < |db.codes| && Open(db.codes[v.index], username, email, now)
  {
    match LatestOpen(db.codes, username, email, now)
    case None => Rejected
    case Some(i) =>
      if db.codes[i].attempts >= MAX_ATTEMPTS || RecentFails(db.codes, username, now) >= MAX_FAILS then Rejected
      else if db.codes[i].mac != CodeMac(code) then Wrong(i)
      else Right(i)
  }

  /** HandleForgotVerify. */
  ghost function CodeVerified(db: Db, username: string, email: string, code: string, new_: Text, now: Seconds): Db {
    if Length(new_) < 6 then db
    else match CheckCode(db, username, email, code, now)
      case Rejected => db
      case Wrong(i) => db.(codes := db.codes[i := db.codes[i].(attempts := db.codes[i].attempts + 1)])
      case Right(i) =>
        var codes' := db.codes[i := db.codes[i].(used := true)];
        match UserNamed(db.users, username)
        case None => db.(codes := codes')
        case Some(id) =>
          var u := db.users[id];
          Put(db, id, u.(hash := Bcrypt(Wrapped(new_, u.salt)), version := u.version + 1)).(codes := codes')
  }

  // ---- the handlers ---------------------------------------------------------------------------------------

  class AuthServer {
    var users: map<UserId, User>
    var codes: seq<Code>

    ghost function View(): Db
      reads this
    {
      Db(users, codes)
    }

    constructor ()
      ensures View() == Db(map[], [])
    {
      users, codes := map[], [];
    }

    /** SELECT ... WHERE username = $1. */
    method FindUser(username: string) returns (r: Option<UserId>)
      requires Unique(users)
      ensures r == UserNamed(users, username)
    {
      var todo := users.Keys;
      while todo != {}
        invariant todo <= users.Keys
        invariant forall a | a in users && users[a].username == username :: a in todo
        decreases todo
      {
        var a :| a in todo;
        if users[a].username == username {
          NamedIsUnique(users, a);
          return Some(a);
        }
        todo := todo - {a};
      }
      r := None;
    }

    /** HandleLogin up to the token: whose token, with which version. */
    method HandleLogin(username: string, payload: Text, fresh_: Text) returns (claims: Option<(UserId, nat)>)
      requires Unique(users)
      modifies this
      ensures View() == LoggedIn(old(View()), username, payload, fresh_)
      ensures claims == match LoginUser(old(View()), username, payload)
                        case None => None
                        case Some(id) => Some((id, old(users)[id].version))
    {
      var found := FindUser(username);
      if found.None? {
        return None;
      }
      var id := found.value;
      var u := users[id];
      if !u.active {
        return None;
      }
      var v := VerifyPassword(u.hash, payload, u.salt);
      if !v.ok {
        return None;
      }
      if v.legacy && u.salt == [] && fresh_ != [] {
        users := users[id := u.(salt := fresh_, hash := Bcrypt(Sha256Hex(payload + fresh_)))];
      }
      claims := Some((id, u.version));
    }

    /** RequireAuth once the signature is good: the row decides, and without one or without a version
        in the token nobody passes. */
    method RequireAuth(id: UserId, tv: Option<nat>) returns (ok: bool)
      ensures ok == (id in users && users[id].active && tv == Some(users[id].version))
    {
      if id !in users {
        return false;
      }
      if !users[id].active {
        return false;
      }
      if tv.None? {
        return false;
      }
      if tv.value != users[id].version {
        return false;
      }
      ok := true;
    }

    /** The new row's id comes from the database; open is the registration switch. */
    method HandleRegister(id: UserId, nameField: string, emailField: string, password: Text, saltField: Text,
                          open: bool, isHan: char -> bool)
      returns (ok: bool)
      requires id !in users
      modifies this
      ensures var username, email := Strings.TrimSpace(nameField), Strings.TrimSpace(emailField);
              View() == Registered(old(View()), id, username, email, password, saltField,
                                   NameOK(username, isHan) && EmailOK(email) && open)
      ensures ok == (id in users)
    {
      hide Length, IsHexText, ByteLength, IsNameChar, Strings.Split, Strings.TrimSpace;
      var username, email := Strings.TrimSpace(nameField), Strings.TrimSpace(emailField);
      if username == "" || ByteLength(username) > 64 {
        return false;
      }
      if exists i | 0 <= i < |username| :: !IsNameChar(username[i], isHan) {
        return false;
      }
      var parts := Strings.Split(email, '@');
      if '@' !in email || '.' !in parts[|parts| - 1] {
        return false;
      }
      if Length(password) < 6 {
        return false;
      }
      if saltField != [] && !IsSaltHex(saltField) {
        return false;
      }
      var payload := password;
      if !IsSHA256Hex(payload) {
        payload := Sha256Hex(payload);
      }
      if !open {
        return false;
      }
      if NameTaken(users, username, email, None) {
        return false;
      }
      users := users[id := User(username, email, true, Bcrypt(payload), saltField, 0)];
      ok := true;
    }

    method CreateUser(id: UserId, username: string, email: string, password: Text, saltField: Text, picked: Text,
                      fresh_: Text)
      returns (ok: bool)
      requires id !in users
      modifies this
      ensures View() == CreatedUser(old(View()), id, username, email, password, saltField, picked, fresh_)
      ensures ok == (id in users)
    {
      var pwd, salt := password, saltField;
      var autoGenerated := pwd == [];
      if autoGenerated {
        pwd, salt := picked, fresh_;
      }
      if salt != [] && !IsSaltHex(salt) {
        return false;
      }
      var payload := pwd;
      if autoGenerated {
        payload := Sha256Hex(pwd + salt);
      } else if !IsSHA256Hex(payload) {
        payload := Sha256Hex(payload);
      }
      if NameTaken(users, username, email, None) {
        return false;
      }
      users := users[id := User(username, email, true, Bcrypt(payload), salt, 0)];
      ok := true;
    }

    method HandleMePassword(id: UserId, old_: Text, new_: Text, fresh_: Text) returns (ok: bool)
      modifies this
      ensures View() == OwnPassword(old(View()), id, old_, new_, fresh_)
      ensures ok == (View() != old(View()))
    {
      if Length(new_) < 6 || id !in users {
        return false;
      }
      var u := users[id];
      var salt := u.salt;
      if !VerifyPassword(u.hash, old_, salt).ok {
        return false;
      }
      var newPayload := new_;
      if !IsSHA256Hex(newPayload) {
        newPayload := Sha256Hex(newPayload + salt);
      }
      if salt == [] {
        salt := fresh_;
        newPayload := Sha256Hex(new_ + salt);
      }
      users := users[id := u.(hash := Bcrypt(newPayload), salt := salt, version := u.version + 1)];
      ok := true;
    }

    /** An id without a row is answered like any other: the UPDATE then touches no row. */
    method ResetPassword(id: UserId, new_: Text, role: string, targetRole: string, shared: bool) returns (ok: bool)
      modifies this
      ensures View() == AdminReset(old(View()), id, new_, MayReset(role, targetRole, shared))
      ensures ok == (Length(new_) >= 6 && MayReset(role, targetRole, shared))
    {
      if Length(new_) < 6 {
        return false;
      }
      if role != "super_admin" {
        if role != "project_admin" {
          return false;
        }
        if targetRole == "super_admin" {
          return false;
        }
        if !shared {
          return false;
        }
      }
      SetPassword(id, new_);
      ok := true;
    }

    /** The hash and version of a row, if there is one; a plaintext is wrapped with the account's salt. */
    method SetPassword(id: UserId, payload: Text)
      modifies this
      ensures codes == old(codes)
      ensures users == if id !in old(users) then old(users)
                       else var u := old(users)[id];
                            old(users)[id := u.(hash := Bcrypt(Wrapped(payload, u.salt)), version := u.version + 1)]
    {
      hide Length, IsHexText;
      if id in users {
        var np := payload;
        if !IsSHA256Hex(np) {
          np := Sha256Hex(np + users[id].salt);
        }
        users := users[id := users[id].(hash := Bcrypt(np), version := users[id].version + 1)];
      }
    }

    method UpdateUser(admin: UserId, id: UserId, username: string, email: string, role: string, status: string,
                      password: Text, old_: Text)
      returns (ok: bool)
      modifies this
      ensures var known := (role == "super_admin" || role == "project_admin" || role == "viewer")
                           && (status == "active" || status == "disabled");
              && ok == (known && UpdateOK(old(View()), admin, id, username, email, password, old_))
              && View() == if known
                           then AdminUpdate(old(View()), admin, id, username, email, status == "active", password, old_)
                           else old(View())
    {
      hide Length, IsHexText, VerifyPassword, NameTaken, Unique, Wrapped;
      if username == "" {
        return false;
      }
      if role != "super_admin" && role != "project_admin" && role != "viewer" {
        return false;
      }
      if status != "active" && status != "disabled" {
        return false;
      }
      if password != [] {
        if admin !in users || !VerifyPassword(users[admin].hash, old_, users[admin].salt).ok {
          return false;
        }
        SetPassword(id, password);
      }
      if id in users {
        NamesAfterWrite(old(users), users, id, username, email);
        if NameTaken(users, username, email, Some(id)) {
          return false;
        }
        users := users[id := users[id].(username := username, email := email, active := status == "active")];
      }
      ok := true;
    }

    method DeleteUser(id: UserId) returns (ok: bool)
      modifies this
      ensures View() == DeletedUser(old(View()), id) && ok == (id in old(users))
    {
      ok := id in users;
      users := users - {id};
    }

    method HandleForgotRequest(username: string, email: string, code: string, now: Seconds) returns (ok: bool)
      modifies this
      ensures View() == CodeRequested(old(View()), username, email, code, now)
      ensures ok == (View() != old(View()))
    {
      if !Addressable(username, email) || !KnownAccount(users, username, email) {
        return false;
      }
      if CoolingDown(codes, username, now) {
        return false;
      }
      codes := Retired(codes, username);
      codes := codes + [Code(username, email, CodeMac(code), false, 0, now, now + CODE_LIFE)];
      ok := true;
    }

    method HandleForgotVerify(username: string, email: string, code: string, new_: Text, now: Seconds)
      returns (ok: bool)
      requires Unique(users)
      modifies this
      ensures View() == CodeVerified(old(View()), username, email, code, new_, now)
      ensures ok == (Length(new_) >= 6 && CheckCode(old(View()), username, email, code, now).Right?)
    {
      hide Length, IsHexText, RecentFails;
      if Length(new_) < 6 {
        return false;
      }
      var latest := LatestOpen(codes, username, email, now);
      if latest.None? {
        return false;
      }
      var i := latest.value;
      if codes[i].attempts >= MAX_ATTEMPTS {
        return false;
      }
      if RecentFails(codes, username, now) >= MAX_FAILS {
        return false;
      }
      if codes[i].mac != CodeMac(code) {
        codes := codes[i := codes[i].(attempts := codes[i].attempts + 1)];
        return false;
      }
      var found := FindUser(username);
      if found.Some? {
        var u := users[found.value];
        var newPayload := new_;
        if !IsSHA256Hex(newPayload) {
          newPayload := Sha256Hex(newPayload + u.salt);
        }
        users := users[found.value := u.(hash := Bcrypt(newPayload), version := u.version + 1)];
      }
      codes := codes[i := codes[i].(used := true)];
      ok := true;
    }
  }

  lemma NamesAfterWrite(users: map<UserId, User>, users': map<UserId, User>, id: UserId, username: string,
      email: string)
    requires users'.Keys == users.Keys && forall a | a in users && a != id :: users'[a] == users[a]
    ensures NameTaken(users', username, email, Some(id)) == NameTaken(users, username, email, Some(id))
  {}

  // ---- runs -----------------------------------------------------------------------------------------------

  datatype Action =
    | Register(id: UserId, username: string, email: string, payload: Text, salt: Text, valid: bool)
    | Create(id: UserId, username: string, email: string, password: Text, salt: Text, picked: Text, fresh_: Text)
    | Login(username: string, payload: Text, fresh_: Text)
    | MePassword(id: UserId, old_: Text, new_: Text, fresh_: Text)
    | Reset(id: UserId, new_: Text, permitted: bool)
    | Update(admin: UserId, id: UserId, username: string, email: string, active: bool, password: Text, old_: Text)
    | Delete(id: UserId)
    | ForgotRequest(username: string, email: string, code: string)
    | ForgotVerify(username: string, email: string, code: string, new_: Text)

  ghost function Handle(db: Db, a: Action, now: Seconds): Db {
    match a
    case Register(id, username, email, payload, salt, valid) =>
        Registered(db, id, username, email, payload, salt, valid)
    case Create(id, username, email, password, salt, picked, fresh_) =>
        CreatedUser(db, id, username, email, password, salt, picked, fresh_)
    case Login(username, payload, fresh_) => LoggedIn(db, username, payload, fresh_)
    case MePassword(id, old_, new_, fresh_) => OwnPassword(db, id, old_, new_, fresh_)
    case Reset(id, new_, permitted) => AdminReset(db, id, new_, permitted)
    case Update(admin, id, username, email, active, password, old_) =>
        AdminUpdate(db, admin, id, username, email, active, password, old_)
    case Delete(id) => DeletedUser(db, id)
    case ForgotRequest(username, email, code) => CodeRequested(db, username, email, code, now)
    case ForgotVerify(username, email, code, new_) => CodeVerified(db, username, email, code, new_, now)
  }

  lemma PutKeepsUnique(users: map<UserId, User>, id: UserId, u: User)
    requires Unique(users) && !NameTaken(users, u.username, u.email, Some(id))
    ensures Unique(users[id := u])
  {
    forall a | a in users && a != id
      ensures users[a].username != u.username && users[a].email != u.email
    {
      assert Some(id) != Some(a);
    }
  }

  lemma SameNames(users: map<UserId, User>, id: UserId, u: User)
    requires Unique(users) && id in users && u.username == users[id].username && u.email == users[id].email
    ensures Unique(users[id := u])
  {}

  /** Every handler keeps user names and addresses unique. */
  lemma UniqueKept(db: Db, a: Action, now: Seconds)
    requires Unique(db.users) && ((a.Register? || a.Create?) ==> a.id !in db.users)
    ensures Unique(Handle(db, a, now).users)
  {
    hide Length, IsHexText, RecentFails, LatestOpen, VerifyPassword, CheckCode, Unique, NameTaken;
    var users' := Handle(db, a, now).users;
    match a {
      case Register(id, username, email, _, _, _) =>
        if users' != db.users {
          FreeName(db.users, username, email, id);
          PutKeepsUnique(db.users, id, users'[id]);
        }
      case Create(id, username, email, _, _, _, _) =>
        if users' != db.users {
          FreeName(db.users, username, email, id);
          PutKeepsUnique(db.users, id, users'[id]);
        }
      case Update(admin, id, username, email, _, _, _) =>
        if users' != db.users {
          if NameTaken(db.users, username, email, Some(id)) {
            SameNames(db.users, id, users'[id]);
          } else {
            PutKeepsUnique(db.users, id, users'[id]);
          }
        }
      case Delete(id) => FewerNames(db.users, id);
      case Login(username, payload, _) =>
        if users' != db.users {
          var id := LoginUser(db, username, payload).value;
          SameNames(db.users, id, users'[id]);
        }
      case MePassword(id, _, _, _) => if users' != db.users { SameNames(db.users, id, users'[id]); }
      case Reset(id, _, _) => if users' != db.users { SameNames(db.users, id, users'[id]); }
      case ForgotRequest(_, _, _) =>
      case ForgotVerify(username, _, _, _) =>
        if users' != db.users {
          var id := UserNamed(db.users, username).value;
          SameNames(db.users, id, users'[id]);
        }
    }
  }

  lemma FreeName(users: map<UserId, User>, username: string, email: string, id: UserId)
    requires id !in users && !NameTaken(users, username, email, None)
    ensures !NameTaken(users, username, email, Some(id))
  {}

  lemma FewerNames(users: map<UserId, User>, id: UserId)
    requires Unique(users)
    ensures Unique(users - {id})
  {}
}
