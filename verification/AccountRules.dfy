/** What each account handler accepts, and what it leaves alone: the rules of auth.go, forgot.go and users.go
    written out. */
module AccountRules {
  import opened Wrappers
  import opened Accounts
  import Strings = Text
  import Credentials
  import Tokens

  // ---- what the checks on texts mean ----------------------------------------------------------------------

  /** A text of plain characters. */
  function Plain(s: string): Text {
    seq(|s|, i requires 0 <= i < |s| => Ch(s[i]))
  }

  predicate HexDigits(s: string) {
    forall i | 0 <= i < |s| :: s[i] in "0123456789abcdef"
  }

  lemma {:induction false} LengthOfPlain(s: string)
    ensures Length(Plain(s)) == |s|
  {
    if s != "" {
      var t := Plain(s);
      LengthOfPlain(s[..|s| - 1]);
      assert t[..|t| - 1] == Plain(s[..|s| - 1]);
    }
  }

  /** Plain characters pass for a digest when they are 64 lower-case hex digits and for a salt when they are 32;
      a digest passes for a digest and for no salt. */
  lemma HexOfPlain(s: string, t: Text)
    ensures IsSHA256Hex(Plain(s)) <==> |s| == 64 && HexDigits(s)
    ensures IsSaltHex(Plain(s)) <==> |s| == 32 && HexDigits(s)
    ensures IsSHA256Hex(Sha256Hex(t)) && !IsSaltHex(Sha256Hex(t))
  {
    LengthOfPlain(s);
    Credentials.DigestIsHex(t);
    forall i | 0 <= i < |s|
      ensures IsHexSymbol(Plain(s)[i]) <==> s[i] in "0123456789abcdef"
    {
      HexCharacter(s[i]);
    }
    if forall i | 0 <= i < |s| :: IsHexSymbol(Plain(s)[i]) {
      assert HexDigits(s);
    }
  }

  lemma HexCharacter(c: char)
    ensures IsHexSymbol(Ch(c)) <==> c in "0123456789abcdef"
  {
    var hex := "0123456789abcdef";
    if '0' <= c <= '9' {
      assert hex[c as int - '0' as int] == c;
    } else if 'a' <= c <= 'f' {
      assert hex[c as int - 'a' as int + 10] == c;
    }
  }

  /** Cut at any character, a text has the length of both parts together. */
  lemma {:induction false} LengthOfSum(s: Text, t: Text)
    ensures Length(s + t) == Length(s) + Length(t)
  {
    if t == [] {
      assert s + t == s;
    } else {
      var n := |t| - 1;
      LengthOfSum(s, t[..n]);
      assert (s + t)[..|s + t| - 1] == s + t[..n];
    }
  }

  /** The bytes of a character in UTF-8, RFC 3629 section 3. */
  lemma {:induction false} BytesPerCharacter(name: string, lo: char, hi: char, n: nat)
    requires (n == 1 && hi < '\U{80}') || (n == 2 && '\U{80}' <= lo && hi <= '\U{7FF}')
             || (n == 3 && '\U{800}' <= lo && hi <= '\U{FFFF}') || (n == 4 && '\U{10000}' <= lo)
    requires forall i | 0 <= i < |name| :: lo <= name[i] <= hi
    ensures ByteLength(name) == n * |name|
  {
    if name != "" {
      BytesPerCharacter(name[..|name| - 1], lo, hi, n);
    }
  }

  /** The limit of 64 counts bytes: 64 ASCII characters, or 21 Han ones. */
  lemma NameLength(name: string, isHan: char -> bool)
    requires forall i | 0 <= i < |name| :: IsNameChar(name[i], isHan)
    ensures (forall i | 0 <= i < |name| :: '\0' <= name[i] <= '\U{7F}') ==> (NameOK(name, isHan) <==> 1 <= |name| <= 64)
    ensures (forall i | 0 <= i < |name| :: '\U{4E00}' <= name[i] <= '\U{9FFF}') ==>
              (NameOK(name, isHan) <==> 1 <= |name| <= 21)
  {
    if forall i | 0 <= i < |name| :: '\0' <= name[i] <= '\U{7F}' {
      BytesPerCharacter(name, '\0', '\U{7F}', 1);
    }
    if forall i | 0 <= i < |name| :: '\U{4E00}' <= name[i] <= '\U{9FFF}' {
      BytesPerCharacter(name, '\U{4E00}', '\U{9FFF}', 3);
    }
  }

  /** No name holds a control character, white space, an angle bracket, a quote, a slash or an at sign, unless
      it is a Han character. */
  lemma NameCharacters(name: string, isHan: char -> bool, c: char)
    requires NameOK(name, isHan) && c in name && !isHan(c)
    ensures !Strings.IsSpace(c) && '\U{20}' < c < '\U{7F}' && c != '<' && c != '>' && c != '"' && c != '\'' && c != '/'
            && c != '@'
  {
    var i :| 0 <= i < |name| && name[i] == c;
    assert IsNameChar(name[i], isHan);
  }

  predicate Address(email: string, user: string, host: string, domain: string) {
    email == user + "@" + host + "." + domain && '@' !in host && '@' !in domain
  }

  /** An address is anything with an at sign, and a dot after the last one. */
  lemma AddressesAccepted(email: string)
    ensures EmailOK(email) <==> exists user, host, domain :: Address(email, user, host, domain)
  {
    if '@' in email {
      var user, tail := Strings.LastSeparator(email, '@');
      DotAfterLast(email, user, tail);
      if '.' in tail {
        var i :| 0 <= i < |tail| && tail[i] == '.';
        assert tail == tail[..i] + "." + tail[i + 1..];
        assert Address(email, user, tail[..i], tail[i + 1..]);
      }
    }
    if user, host, domain :| Address(email, user, host, domain) {
      var tail := host + "." + domain;
      assert tail[|host|] == '.' && email == user + "@" + tail;
      DotAfterLast(email, user, tail);
    }
  }

  lemma DotAfterLast(email: string, user: string, tail: string)
    requires email == user + "@" + tail && '@' !in tail
    ensures EmailOK(email) <==> '.' in tail
  {
    hide Strings.Split;
    Strings.SplitApart(user, '@', tail);
    OnePart(tail);
    assert email[|user|] == '@';
    var parts := Strings.Split(email, '@');
    assert parts[|parts| - 1] == tail;
  }

  lemma OnePart(tail: string)
    requires '@' !in tail
    ensures Strings.Split(tail, '@') == [tail]
  {
    Strings.IndexOfUnique(tail, '@', |tail|);
  }

  lemma NameCharactersAllowed(c: char, isHan: char -> bool)
    requires Strings.IsDigit(c) || 'A' <= c <= 'Z' || 'a' <= c <= 'z' || c in "_.-" || isHan(c)
    ensures NameOK([c], isHan) && NameOK([c, c], isHan)
  {
    assert [c][..0] == "" && [c, c][..1] == [c];
  }

  /** The tables differ in one row, which is now u, whatever its hash. */
  predicate OnlyRow(db: Db, db': Db, id: UserId, u: User) {
    id in db'.users && db' == db.(users := db.users[id := u.(hash := db'.users[id].hash)])
  }

  // ---- new accounts ---------------------------------------------------------------------------------------

  /** No account has this name or this address. */
  predicate Free(users: map<UserId, User>, username: string, email: string) {
    forall b | b in users :: users[b].username != username && users[b].email != email
  }

  predicate GoodSalt(salt: Text) {
    salt == [] || (Length(salt) == 32 && forall i | 0 <= i < |salt| :: IsHexSymbol(salt[i]))
  }

  /** Registration adds exactly the row that was asked for, active and with version 0, when the checks hold, the
      password has six characters, the salt is none or 32 hex digits, and name and address are free; otherwise it
      changes nothing. */
  lemma RegisteredExactly(db: Db, id: UserId, username: string, email: string, payload: Text, salt: Text, valid: bool)
    requires id !in db.users
    ensures var db' := Registered(db, id, username, email, payload, salt, valid);
            if valid && Length(payload) >= 6 && GoodSalt(salt) && Free(db.users, username, email)
            then OnlyRow(db, db', id, User(username, email, true, Bcrypt([]), salt, 0))
            else db' == db
  {
    hide Length, IsSHA256Hex;
    FreeMeans(db.users, username, email);
  }

  lemma FreeMeans(users: map<UserId, User>, username: string, email: string)
    ensures Free(users, username, email) <==> !NameTaken(users, username, email, None)
  {}

  /** So does creation by an administrator; without a password the salt is the fresh one. */
  lemma CreatedExactly(db: Db, id: UserId, username: string, email: string, password: Text, salt: Text, picked: Text,
                       fresh_: Text)
    requires id !in db.users
    ensures var db' := CreatedUser(db, id, username, email, password, salt, picked, fresh_);
            var kept := if password == [] then fresh_ else salt;
            if GoodSalt(kept) && Free(db.users, username, email)
            then OnlyRow(db, db', id, User(username, email, true, Bcrypt([]), kept, 0))
            else db' == db
  {
    hide Length, IsSHA256Hex;
    FreeMeans(db.users, username, email);
  }

  // ---- existing accounts ----------------------------------------------------------------------------------

  /** An update by an administrator goes through exactly when the name is not empty, a new password comes with the
      administrator's own, and nobody else has the name or the address. The row then has the name, the address and
      the status that were asked for, and a new version if and only if there was a new password; no other row and
      no code changes. */
  lemma UpdatedExactly(db: Db, admin: UserId, id: UserId, username: string, email: string, active: bool,
                       password: Text, old_: Text)
    requires id in db.users
    ensures UpdateOK(db, admin, id, username, email, password, old_)
            <==> username != "" && (password == [] || AdminMayWrite(db, admin, old_))
                 && Free(db.users - {id}, username, email)
    ensures var u, db' := db.users[id], AdminUpdate(db, admin, id, username, email, active, password, old_);
            UpdateOK(db, admin, id, username, email, password, old_) ==>
              && OnlyRow(db, db', id, u.(username := username, email := email, active := active,
                                         version := if password == [] then u.version else u.version + 1))
              && (password == [] ==> db'.users[id].hash == u.hash)
  {
    hide Length, IsHexText, VerifyPassword, Wrapped;
    OthersFree(db.users, id, username, email);
  }

  lemma OthersFree(users: map<UserId, User>, id: UserId, username: string, email: string)
    ensures Free(users - {id}, username, email) <==> !NameTaken(users, username, email, Some(id))
  {
    if NameTaken(users, username, email, Some(id)) {
      var a :| a in users && Some(id) != Some(a) && (users[a].username == username || users[a].email == email);
      assert a in users - {id};
    } else {
      forall b | b in users - {id}
        ensures users[b].username != username && users[b].email != email
      {
        assert Some(id) != Some(b);
      }
    }
  }

  /** Who may reset: a super admin anyone, a project admin whoever shares a project with him but no super admin, and
      nobody else anyone. The row keeps everything but hash and version. */
  lemma ResetExactly(db: Db, id: UserId, new_: Text, role: string, targetRole: string, shared: bool)
    ensures role != "super_admin" && targetRole == "super_admin" ==>
              AdminReset(db, id, new_, MayReset(role, targetRole, shared)) == db
    ensures role != "super_admin" && role != "project_admin" ==>
              AdminReset(db, id, new_, MayReset(role, targetRole, shared)) == db
    ensures role != "super_admin" && !shared ==> AdminReset(db, id, new_, MayReset(role, targetRole, shared)) == db
    ensures id in db.users && Length(new_) >= 6
            && (role == "super_admin" || (role == "project_admin" && targetRole != "super_admin" && shared)) ==>
              OnlyRow(db, AdminReset(db, id, new_, MayReset(role, targetRole, shared)), id,
                      db.users[id].(version := db.users[id].version + 1))
    ensures id !in db.users || Length(new_) < 6 ==> AdminReset(db, id, new_, MayReset(role, targetRole, shared)) == db
  {
    hide Length, IsHexText, Wrapped;
  }

  /** A login changes a row only where an active account without a salt proves its password with the plaintext and
      there is a fresh salt: the account then has that salt. */
  lemma LoginSalts(db: Db, id: UserId, p: Text, payload: Text, fresh_: Text)
    requires Unique(db.users) && id in db.users && Credentials.Coherent(db.users[id].hash, db.users[id].salt, p)
    ensures var u := db.users[id];
            var db' := LoggedIn(db, u.username, payload, fresh_);
            if u.active && payload == p && u.salt == [] && fresh_ != []
            then OnlyRow(db, db', id, u.(salt := fresh_))
            else db' == db
  {
    hide Length, IsHexText;
    var u := db.users[id];
    NamedIsUnique(db.users, id);
    Credentials.DigestsAgree(p, payload, u.salt);
    Credentials.DigestIsHeavier(p, u.salt);
    assert db.users[id := u] == db.users;
  }

  /** A user's own change, where it is not refused, gives an account without a salt the fresh one, and keeps
      everything else but hash and version. */
  lemma OwnChangeKeeps(db: Db, id: UserId, old_: Text, new_: Text, fresh_: Text)
    ensures var db' := OwnPassword(db, id, old_, new_, fresh_);
            if id in db.users && Length(new_) >= 6
               && Credentials.Accepts(db.users[id].hash, db.users[id].salt, old_)
            then var u := db.users[id];
                 OnlyRow(db, db', id, u.(salt := if u.salt == [] then fresh_ else u.salt, version := u.version + 1))
            else db' == db
  {
    hide Length, IsHexText, VerifyPassword, Wrapped;
  }

  // ---- disabled accounts ----------------------------------------------------------------------------------

  predicate Disabled(db: Db, id: UserId) {
    id in db.users ==> !db.users[id].active
  }

  predicate Enables(e: Tokens.Event, id: UserId) {
    e.Serve? && e.a.Update? && e.a.id == id && e.a.active
  }

  lemma HandlersKeepDisabled(db: Db, a: Action, now: Seconds, id: UserId)
    requires id in db.users && Disabled(db, id) && Credentials.NewIds(db, a)
    requires !(a.Update? && a.id == id && a.active)
    ensures Disabled(Handle(db, a, now), id)
  {
    hide Length, IsHexText, RecentFails, LatestOpen, VerifyPassword, CheckCode, NameTaken, Wrapped, WrappedBare,
         OwnChange;
  }

  lemma {:induction false} StaysDisabled(es: seq<Tokens.Event>, more: seq<Tokens.Event>, id: UserId)
    requires Tokens.Run(es + more) && id in Tokens.After(es).used && Disabled(Tokens.After(es).db, id)
    requires forall i | 0 <= i < |more| :: !Enables(more[i], id)
    ensures Disabled(Tokens.After(es + more).db, id) && id in Tokens.After(es + more).used
  {
    hide Tokens.Next, Tokens.Legal;
    if more == [] {
      assert es + more == es;
    } else {
      var all, last := es + more, |es + more| - 1;
      assert all[..last] == es + more[..|more| - 1] && all[last] == more[|more| - 1];
      StaysDisabled(es, more[..|more| - 1], id);
      Tokens.IdsRecorded(all[..last]);
      var s := Tokens.After(all[..last]);
      Tokens.KeysRecorded(s, all[last], last);
      StepKeepsDisabled(s, all[last], last, id);
    }
  }

  lemma StepKeepsDisabled(s: Tokens.Sys, e: Tokens.Event, step: nat, id: UserId)
    requires Tokens.Legal(s, e) && id in s.used && s.db.users.Keys <= s.used && Disabled(s.db, id)
    requires !Enables(e, id)
    ensures Disabled(Tokens.Next(s, e, step).db, id)
  {
    hide Handle, Tokens.NeedsUpgrade, LoginUser;
    if id !in s.db.users {
      Tokens.NoReturn(s, e, step, id);
    } else if e.Serve? {
      HandlersKeepDisabled(s.db, e.a, e.now, id);
    }
  }

  /** From the moment an administrator disables an account, no token of it passes and nobody logs in to it, whatever
      else happens, until an administrator enables it again. */
  lemma DisabledIsRefused(es: seq<Tokens.Event>, e: Tokens.Event, more: seq<Tokens.Event>, id: UserId, t: Tokens.Token)
    requires Tokens.Run(es) && Tokens.Run(es + [e] + more) && t.user == id && id in Tokens.After(es).db.users
    requires e.Serve? && e.a.Update? && e.a.id == id && !e.a.active
    requires UpdateOK(Tokens.After(es).db, e.a.admin, id, e.a.username, e.a.email, e.a.password, e.a.old_)
    requires forall i | 0 <= i < |more| :: !Enables(more[i], id)
    ensures var db := Tokens.After(es + [e] + more).db;
            !Tokens.Accepted(db, t) && forall username, payload :: LoginUser(db, username, payload) != Some(id)
  {
    hide UpdateOK, AdminUpdate;
    var s, now := Tokens.After(es), es + [e];
    assert now[..|es|] == es && now[|es|] == e;
    Tokens.IdsRecorded(es);
    UpdatedExactly(s.db, e.a.admin, id, e.a.username, e.a.email, e.a.active, e.a.password, e.a.old_);
    assert Tokens.After(now) == Tokens.Next(s, e, |es|);
    StaysDisabled(now, more, id);
  }
}
