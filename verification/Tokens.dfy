/** Login tokens and their revocation: RequireAuth's version check over runs in which a login may be
    overtaken between its row read and its token. */
module Tokens {
  import opened Wrappers
  import opened Accounts
  import Credentials

  /** A signed token. readAt is the step at which the row behind it was read; the server does not know it. */
  datatype Token = Token(user: UserId, version: nat, readAt: nat)

  /** A login that has read its row and verified the payload, but has not answered yet. */
  datatype InFlight = InFlight(token: Token, row: User, payload: Text, fresh_: Text)

  datatype Sys = Sys(db: Db, pending: set<InFlight>, tokens: set<Token>, used: set<UserId>)

  datatype Event =
    | Serve(a: Action, now: Seconds)
    | ReadRow(username: string, payload: Text, fresh_: Text)
    | WriteUpgrade(login: InFlight)
    | Issue(login: InFlight)

  /** What RequireAuth asks of a token whose signature is good. */
  predicate Accepted(db: Db, t: Token) {
    t.user in db.users && db.users[t.user].active && db.users[t.user].version == t.version
  }

  predicate NeedsUpgrade(l: InFlight) {
    VerifyPassword(l.row.hash, l.payload, l.row.salt) == Verdict(true, true) && l.row.salt == [] && l.fresh_ != []
  }

  /** The upgrade writes by id, whatever has become of the row since it was read. */
  function LateUpgrade(db: Db, l: InFlight): Db {
    if !NeedsUpgrade(l) || l.token.user !in db.users then db
    else
      var u := db.users[l.token.user];
      Put(db, l.token.user, u.(hash := Bcrypt(Sha256Hex(l.payload + l.fresh_)), salt := l.fresh_))
  }

  predicate Legal(s: Sys, e: Event) {
    match e
    case Serve(a, _) => !a.Login? && ((a.Register? || a.Create?) ==> a.id !in s.used)
    case ReadRow(_, _, _) => true
    case WriteUpgrade(l) => l in s.pending
    case Issue(l) => l in s.pending
  }

  ghost function Next(s: Sys, e: Event, step: nat): Sys {
    match e
    case Serve(a, now) =>
      var db' := Handle(s.db, a, now);
      var used' := s.used + db'.users.Keys;
      if a.Register? && a.id in db'.users
      then Sys(db', s.pending + {InFlight(Token(a.id, 0, step), db'.users[a.id], [], [])}, s.tokens, used')
      else Sys(db', s.pending, s.tokens, used')
    case ReadRow(username, payload, fresh_) =>
      (match LoginUser(s.db, username, payload)
       case None => s
       case Some(id) =>
         var u := s.db.users[id];
         s.(pending := s.pending + {InFlight(Token(id, u.version, step), u, payload, fresh_)}))
    case WriteUpgrade(l) => s.(db := LateUpgrade(s.db, l))
    case Issue(l) => s.(pending := s.pending - {l}, tokens := s.tokens + {l.token})
  }

  ghost function After(es: seq<Event>): Sys {
    if es == [] then Sys(Db(map[], []), {}, {}, {})
    else Next(After(es[..|es| - 1]), es[|es| - 1], |es| - 1)
  }

  ghost predicate Run(es: seq<Event>) {
    es != [] ==> Run(es[..|es| - 1]) && Legal(After(es[..|es| - 1]), es[|es| - 1])
  }

  // ---- versions ------------------------------------------------------------------------------------------------

  /** The event sets the password of an account that exists already. */
  ghost predicate Bumps(s: Sys, e: Event, id: UserId) {
    e.Serve? && id in s.db.users && Credentials.Target(s.db, e.a, e.now) == Some(id)
  }

  /** Exactly the password writers raise a version, each by one; nothing else but a login's rewrite
      changes a stored password. */
  lemma VersionFollows(db: Db, a: Action, now: Seconds, id: UserId)
    requires Credentials.NewIds(db, a) && id in db.users && id in Handle(db, a, now).users
    ensures var u := db.users[id]; var u' := Handle(db, a, now).users[id];
            && u'.version == u.version + (if Credentials.Target(db, a, now) == Some(id) then 1 else 0)
            && (!a.Login? && (u'.hash, u'.salt) != (u.hash, u.salt) ==> u'.version > u.version)
  {
    hide Length, IsHexText, RecentFails, LatestOpen, VerifyPassword, CheckCode, Unique, NameTaken,
         Wrapped, WrappedBare, OwnChange;
  }

  lemma EventVersions(s: Sys, e: Event, step: nat, id: UserId)
    requires Legal(s, e) && s.db.users.Keys <= s.used && id in s.db.users && id in Next(s, e, step).db.users
    ensures Next(s, e, step).db.users[id].version == s.db.users[id].version + (if Bumps(s, e, id) then 1 else 0)
  {
    hide Handle, Credentials.Target, NeedsUpgrade, LoginUser;
    if e.Serve? {
      VersionFollows(s.db, e.a, e.now, id);
    }
  }

  /** Ids are never reused. */
  lemma NoReturn(s: Sys, e: Event, step: nat, id: UserId)
    requires Legal(s, e) && id in s.used && id !in s.db.users && s.db.users.Keys <= s.used
    ensures id !in Next(s, e, step).db.users
  {
    hide Handle, NeedsUpgrade, LoginUser;
    if e.Serve? {
      Credentials.KeysFollow(s.db, e.a, e.now);
      TargetKnown(s.db, e.a, e.now);
    }
  }

  lemma TargetKnown(db: Db, a: Action, now: Seconds)
    ensures var t := Credentials.Target(db, a, now);
            t.Some? ==> t.value in db.users || ((a.Register? || a.Create?) && t.value == a.id)
  {
    hide Length, IsHexText, RecentFails, LatestOpen, VerifyPassword, CheckCode, Unique, NameTaken,
         Wrapped, WrappedBare, OwnChange;
  }

  // ---- what the tokens of a run carry ---------------------------------------------------------------------

  /** No event from the given step on sets the account's password. */
  ghost predicate NoBump(es: seq<Event>, id: UserId, from: nat) {
    |es| <= from || (NoBump(es[..|es| - 1], id, from) && !Bumps(After(es[..|es| - 1]), es[|es| - 1], id))
  }

  ghost predicate Stamped(es: seq<Event>, t: Token) {
    var s := After(es);
    && t.user in s.used
    && (t.user in s.db.users ==>
          && t.version <= s.db.users[t.user].version
          && (t.version == s.db.users[t.user].version <==> NoBump(es, t.user, t.readAt)))
  }

  ghost predicate Held(s: Sys, t: Token) {
    t in s.tokens || exists l | l in s.pending :: l.token == t
  }

  lemma {:induction false} IdsRecorded(es: seq<Event>)
    requires Run(es)
    ensures After(es).db.users.Keys <= After(es).used
  {
    if es != [] {
      var before := es[..|es| - 1];
      IdsRecorded(before);
      KeysRecorded(After(before), es[|es| - 1], |es| - 1);
    }
  }

  lemma KeysRecorded(s: Sys, e: Event, step: nat)
    requires s.db.users.Keys <= s.used
    ensures var s' := Next(s, e, step); s'.db.users.Keys <= s'.used && s.used <= s'.used
  {
    hide Handle, NeedsUpgrade, LoginUser;
  }

  /** A token that is new in the next state was stamped with the account as it is then. */
  lemma FreshlyStamped(s: Sys, e: Event, step: nat, t: Token)
    requires Legal(s, e) && s.db.users.Keys <= s.used
    requires Held(Next(s, e, step), t) && !Held(s, t)
    ensures var users' := Next(s, e, step).db.users; t.user in users' && t.version == users'[t.user].version
    ensures t.readAt == step && !Bumps(s, e, t.user)
  {
    hide Handle, NeedsUpgrade, Credentials.Target;
    if e.Serve? {
      if e.a.Register? && e.a.id in Next(s, e, step).db.users {
        RegisteredAtZero(s.db, e.a, e.now);
      }
    }
  }

  lemma RegisteredAtZero(db: Db, a: Action, now: Seconds)
    requires a.Register? && a.id !in db.users && a.id in Handle(db, a, now).users
    ensures Handle(db, a, now).users[a.id].version == 0
  {}

  /** Every token of a run, answered or not, carries at most the version in force, and exactly that version
      when no password has been set since its row was read. */
  lemma {:induction false} AllStamped(es: seq<Event>, t: Token)
    requires Run(es) && Held(After(es), t)
    ensures Stamped(es, t) && t.readAt < |es|
  {
    hide Next, Legal, Bumps;
    var before, e := es[..|es| - 1], es[|es| - 1];
    var s := After(before);
    IdsRecorded(before);
    KeysRecorded(s, e, |before|);
    if Held(s, t) {
      AllStamped(before, t);
      if t.user in s.db.users && t.user in After(es).db.users {
        EventVersions(s, e, |before|, t.user);
      }
      if t.user !in s.db.users {
        NoReturn(s, e, |before|, t.user);
      }
    } else {
      FreshlyStamped(s, e, |before|, t);
      JustNow(es, t.user);
    }
  }

  lemma JustNow(es: seq<Event>, id: UserId)
    requires es != [] && !Bumps(After(es[..|es| - 1]), es[|es| - 1], id)
    ensures NoBump(es, id, |es| - 1)
  {}

  /** RequireAuth takes a token exactly when its account exists, is active, and has had no password set
      since the row behind the token was read. */
  lemma AcceptedExactly(es: seq<Event>, t: Token)
    requires Run(es) && t in After(es).tokens
    ensures Accepted(After(es).db, t)
            <==> t.user in After(es).db.users && After(es).db.users[t.user].active && NoBump(es, t.user, t.readAt)
  {
    hide Next, Legal, Bumps;
    AllStamped(es, t);
  }

  // ---- stale tokens stay stale ----------------------------------------------------------------------------

  predicate Stale(db: Db, t: Token) {
    t.user !in db.users || db.users[t.user].version != t.version
  }

  /** A token whose account is gone or has moved on to another version is never taken again. */
  lemma {:induction false} StaleForever(es: seq<Event>, more: seq<Event>, t: Token)
    requires Run(es + more) && Run(es) && t in After(es).tokens && Stale(After(es).db, t)
    ensures Stale(After(es + more).db, t) && !Accepted(After(es + more).db, t)
  {
    hide Next, Legal, Bumps;
    if more == [] {
      assert es + more == es;
    } else {
      var all, last := es + more, |es + more| - 1;
      assert all[..last] == es + more[..|more| - 1];
      StaleForever(es, more[..|more| - 1], t);
      StaysHeld(es, more[..|more| - 1], t);
      AllStamped(all[..last], t);
      IdsRecorded(all[..last]);
      var s := After(all[..last]);
      if t.user !in s.db.users {
        NoReturn(s, all[last], last, t.user);
      } else if t.user in After(all).db.users {
        EventVersions(s, all[last], last, t.user);
      }
    }
  }

  lemma {:induction false} StaysHeld(es: seq<Event>, more: seq<Event>, t: Token)
    requires t in After(es).tokens
    ensures t in After(es + more).tokens
  {
    if more == [] {
      assert es + more == es;
    } else {
      StaysHeld(es, more[..|more| - 1], t);
      assert (es + more)[..|es + more| - 1] == es + more[..|more| - 1];
      TokensKept(After(es + more[..|more| - 1]), (es + more)[|es + more| - 1], |es + more| - 1);
    }
  }

  lemma TokensKept(s: Sys, e: Event, step: nat)
    ensures s.tokens <= Next(s, e, step).tokens
  {
    hide Handle, NeedsUpgrade, LoginUser;
  }

  // ---- the rewrite during a login -------------------------------------------------------------------------

  /** The rewrite of an account without a salt writes back the password that the login brought. An account
      whose password was set after the row was read keeps it only if the two are the same. */
  lemma LateUpgradeServes(db: Db, l: InFlight, p0: Text, p: Text)
    requires NeedsUpgrade(l) && Credentials.Coherent(l.row.hash, l.row.salt, p0)
    requires l.token.user in db.users
    requires var u := db.users[l.token.user]; Credentials.Coherent(u.hash, u.salt, p)
    ensures var u := LateUpgrade(db, l).users[l.token.user]; Credentials.Coherent(u.hash, u.salt, p) <==> p == p0
    ensures var u := LateUpgrade(db, l).users[l.token.user]; Credentials.AcceptsExactly(u.hash, u.salt, p0)
  {
    Credentials.DigestsAgree(l.payload, p0, []);
    Credentials.DigestsAgree(p, p0, l.fresh_);
    var u := LateUpgrade(db, l).users[l.token.user];
    Credentials.VerifierMeetsContract(u.hash, u.salt, p0);
  }

  /** A login that nothing overtakes between its row read and its rewrite is the login in one step; and without a
      password that matched the old way on an account without a salt there is no rewrite at all. */
  lemma SplitLogin(db: Db, username: string, payload: Text, fresh_: Text, l: InFlight)
    requires LoginUser(db, username, payload) == Some(l.token.user)
    requires l.row == db.users[l.token.user] && l.payload == payload && l.fresh_ == fresh_
    ensures LateUpgrade(db, l) == LoggedIn(db, username, payload, fresh_)
    ensures forall later: Db ::
              LateUpgrade(later, l) != later ==>
                l.row.salt == [] && fresh_ != []
                && l.row.hash == Bcrypt(Sha256Hex(payload)) && l.row.hash != Bcrypt(payload)
  {
    var u := db.users[l.token.user];
    assert db.users[l.token.user := u] == db.users;
    assert payload + [] == payload;
  }

  /** It does happen: register without a salt, begin a login, reset the password, finish the login. The account
      then takes the password it was registered with again, and no longer the one it was reset to. */
  lemma LateUpgradeRun(p0: Text, p: Text, fresh_: Text) returns (es: seq<Event>)
    requires Length(p0) >= 6 && !IsSHA256Hex(p0) && Length(p) >= 6 && !IsSHA256Hex(p) && p != p0 && fresh_ != []
    ensures Run(es) && 0 in After(es).db.users
    ensures var u := After(es).db.users[0];
            u.version == 1 && Credentials.AcceptsExactly(u.hash, u.salt, p0) && !Credentials.Accepts(u.hash, u.salt, p)
  {
    hide Length, IsHexText;
    var first := Serve(Register(0, "user", "user@host", p0, [], true), 0);
    var s1 := JustRegistered(p0);
    var u := s1.db.users[0];
    var l := InFlight(Token(0, 0, 1), u, p0, fresh_);
    es := [first, ReadRow("user", p0, fresh_), Serve(Reset(0, p, true), 0), WriteUpgrade(l)];
    var s2, s3 := OvertakenLogin(s1, u, l, p0, p);
    AfterFour(es, s1, s2, s3);
    Credentials.DigestsAgree(p0, p0, []);
    UpgradeIsDue(l, p0);
    var after := LateUpgrade(s3.db, l).users[0];
    assert after.hash == Bcrypt(Sha256Hex(p0 + fresh_)) && after.salt == fresh_;
    Credentials.VerifierMeetsContract(after.hash, after.salt, p0);
    NotTheNewOne(after, p0, p);
  }

  lemma NotTheNewOne(u: User, p0: Text, p: Text)
    requires Credentials.Coherent(u.hash, u.salt, p0) && p != p0 && !IsSHA256Hex(p)
    ensures !Credentials.Accepts(u.hash, u.salt, p)
  {
    Credentials.DigestIsHex(p0 + u.salt);
    Credentials.DigestsAgree(p0, p, u.salt);
  }

  lemma UpgradeIsDue(l: InFlight, p0: Text)
    requires l.row.salt == [] && l.row.hash == Bcrypt(Sha256Hex(p0)) && l.payload == p0 && l.fresh_ != []
    ensures NeedsUpgrade(l)
  {
    Credentials.DigestIsHeavier(p0, []);
    assert p0 + [] == p0;
  }

  lemma JustRegistered(p0: Text) returns (s: Sys)
    requires Length(p0) >= 6 && !IsSHA256Hex(p0)
    ensures s == Next(Sys(Db(map[], []), {}, {}, {}), Serve(Register(0, "user", "user@host", p0, [], true), 0), 0)
    ensures s.db == Db(map[0 := User("user", "user@host", true, Bcrypt(Sha256Hex(p0)), [], 0)], [])
  {
    hide Length, IsHexText;
    s := Next(Sys(Db(map[], []), {}, {}, {}), Serve(Register(0, "user", "user@host", p0, [], true), 0), 0);
  }

  lemma OvertakenLogin(s1: Sys, u: User, l: InFlight, p0: Text, p: Text) returns (s2: Sys, s3: Sys)
    requires u == User("user", "user@host", true, Bcrypt(Sha256Hex(p0)), [], 0) && s1.db == Db(map[0 := u], [])
    requires l.token == Token(0, 0, 1) && l.row == u && l.payload == p0 && l.fresh_ != []
    requires Length(p) >= 6 && !IsSHA256Hex(p)
    ensures s2 == Next(s1, ReadRow("user", p0, l.fresh_), 1) && l in s2.pending
    ensures s3 == Next(s2, Serve(Reset(0, p, true), 0), 2) && l in s3.pending
    ensures s3.db == Db(map[0 := u.(hash := Bcrypt(Sha256Hex(p)), version := 1)], [])
  {
    hide Length, IsHexText;
    UpgradeIsDue(l, p0);
    assert 0 in s1.db.users && Unique(s1.db.users);
    NamedIsUnique(s1.db.users, 0);
    s2 := Next(s1, ReadRow("user", p0, l.fresh_), 1);
    s3 := Next(s2, Serve(Reset(0, p, true), 0), 2);
    assert p + [] == p;
  }

  lemma AfterFour(es: seq<Event>, s1: Sys, s2: Sys, s3: Sys)
    requires |es| == 4 && s1 == Next(After([]), es[0], 0) && s2 == Next(s1, es[1], 1) && s3 == Next(s2, es[2], 2)
    requires Legal(After([]), es[0]) && Legal(s1, es[1]) && Legal(s2, es[2]) && Legal(s3, es[3])
    ensures Run(es) && After(es) == Next(s3, es[3], 3)
  {
    hide Next, Legal;
    var e1, e2, e3 := es[..1], es[..2], es[..3];
    assert e1[..0] == [] && e2[..1] == e1 && e3[..2] == e2;
    assert After(e1) == s1 && After(e2) == s2 && After(e3) == s3;
    assert Run([]) && Run(e1) && Run(e2) && Run(e3);
  }
}
