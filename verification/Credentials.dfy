/** What a stored password accepts, and which clients each password writer serves right. */
module Credentials {
  import opened Wrappers
  import opened Accounts

  // ---- digests never contain themselves ---------------------------------------------------------------------

  function Weight(s: Text): nat {
    if s == [] then 0 else SymbolWeight(s[0]) + Weight(s[1..])
  }

  function SymbolWeight(x: Symbol): nat {
    match x
    case Ch(_) => 1
    case Digest(t) => 1 + Weight(t)
  }

  lemma {:induction false} WeightOfSum(s: Text, t: Text)
    ensures Weight(s + t) == Weight(s) + Weight(t)
  {
    if s == [] {
      assert s + t == t;
    } else {
      WeightOfSum(s[1..], t);
      assert (s + t)[1..] == s[1..] + t;
    }
  }

  lemma DigestIsHeavier(p: Text, salt: Text)
    ensures Weight(Sha256Hex(p + salt)) > Weight(p)
    ensures Sha256Hex(p + salt) != p
  {
    WeightOfSum(p, salt);
    var d := Sha256Hex(p + salt);
    assert d[1..] == [];
  }

  lemma DigestsAgree(p: Text, q: Text, salt: Text)
    ensures (Sha256Hex(p + salt) == Sha256Hex(q + salt)) == (p == q)
  {
    if p + salt == q + salt {
      assert |p| == |q|;
      assert p == (p + salt)[..|p|];
      assert q == (q + salt)[..|q|];
    }
  }

  lemma SaltsAgree(p: Text, s: Text, t: Text)
    ensures (Sha256Hex(p + s) == Sha256Hex(p + t)) == (s == t)
  {
    if p + s == p + t {
      assert s == (p + s)[|p|..];
      assert t == (p + t)[|p|..];
    }
  }

  lemma DigestIsHex(s: Text)
    ensures IsSHA256Hex(Sha256Hex(s))
  {
    var d := Sha256Hex(s);
    assert d[..|d| - 1] == [];
  }

  // ---- one stored password -----------------------------------------------------------------------------------

  /** The stored hash belongs to the password p of an account with this salt. */
  predicate Coherent(hash: Hash, salt: Text, p: Text) {
    hash == Bcrypt(Sha256Hex(p + salt))
  }

  predicate Accepts(hash: Hash, salt: Text, payload: Text) {
    VerifyPassword(hash, payload, salt).ok
  }

  /** The two ways a client proves that it knows p: the plaintext, or its digest with the account's salt. */
  ghost predicate AcceptsExactly(hash: Hash, salt: Text, p: Text) {
    forall payload :: Accepts(hash, salt, payload) <==> payload == p || payload == Sha256Hex(p + salt)
  }

  /** The verifier takes exactly those two payloads, just when the stored hash is coherent with p. */
  lemma VerifierMeetsContract(hash: Hash, salt: Text, p: Text)
    ensures AcceptsExactly(hash, salt, p) <==> Coherent(hash, salt, p)
  {
    if Coherent(hash, salt, p) {
      forall payload
        ensures Accepts(hash, salt, payload) <==> payload == p || payload == Sha256Hex(p + salt)
      {
        DigestsAgree(p, payload, salt);
      }
    }
    if AcceptsExactly(hash, salt, p) {
      var d := Sha256Hex(p + salt);
      assert Accepts(hash, salt, p) && Accepts(hash, salt, d);
      DigestIsHeavier(p, salt);
      DigestIsHeavier(d, salt);
    }
  }

  // ---- the writers ---------------------------------------------------------------------------------------------

  /** How a client sends a password: as it is, or digested with a salt it was given. */
  datatype Form = Plain | Salted(with: Text)

  function Sent(p: Text, form: Form): Text {
    match form
    case Plain => p
    case Salted(s) => Sha256Hex(p + s)
  }

  /** What the writers expect of an account with this salt: its own salt, or a plaintext that does not
      look like a digest. */
  predicate Suits(form: Form, p: Text, salt: Text) {
    match form
    case Plain => !IsSHA256Hex(p)
    case Salted(s) => s == salt
  }

  lemma WrappedServes(p: Text, form: Form, salt: Text)
    ensures Coherent(Bcrypt(Wrapped(Sent(p, form), salt)), salt, p) <==> Suits(form, p, salt)
  {
    match form
    case Plain => DigestIsHeavier(p, salt);
    case Salted(s) =>
      DigestIsHex(p + s);
      SaltsAgree(p, s, salt);
  }

  /** Registration wraps a plaintext without the salt it stores, so a plaintext may not bring one. */
  lemma BareServes(p: Text, form: Form, salt: Text)
    ensures Coherent(Bcrypt(WrappedBare(Sent(p, form))), salt, p)
            <==> Suits(form, p, salt) && (form.Plain? ==> salt == [])
  {
    match form
    case Plain =>
      DigestIsHeavier(p, salt);
      SaltsAgree(p, [], salt);
      assert p + [] == p;
    case Salted(s) =>
      DigestIsHex(p + s);
      SaltsAgree(p, s, salt);
  }

  /** A user's own change: on an account that has no salt only a plaintext works, and any plaintext does. */
  lemma OwnChangeServes(p: Text, form: Form, salt: Text, fresh_: Text)
    ensures var c := OwnChange(salt, Sent(p, form), fresh_);
            Coherent(c.hash, c.salt, p) <==> if salt == [] then form.Plain? else Suits(form, p, salt)
  {
    if salt == [] {
      DigestsAgree(Sent(p, form), p, fresh_);
      if form.Salted? {
        DigestIsHeavier(p, form.with);
      }
    } else {
      WrappedServes(p, form, salt);
    }
  }

  /** The rewrite during login keeps the password, whatever payload the login was made with. */
  lemma UpgradeServes(u: User, p: Text, payload: Text, fresh_: Text)
    requires Coherent(u.hash, u.salt, p)
    ensures var c := Upgraded(u, payload, fresh_); Coherent(c.hash, c.salt, p)
  {
    DigestsAgree(p, payload, u.salt);
  }

  // ---- one action ------------------------------------------------------------------------------------------------

  /** The password an action carries, as it arrives at a writer. */
  function PayloadOf(a: Action): Text {
    match a
    case Register(_, _, _, payload, _, _) => payload
    case Create(_, _, _, password, _, picked, _) => if password == [] then picked else password
    case MePassword(_, _, new_, _) => new_
    case Reset(_, new_, _) => new_
    case Update(_, _, _, _, _, password, _) => password
    case ForgotVerify(_, _, _, new_) => new_
    case _ => []
  }

  /** The account whose password an action sets. */
  ghost function Target(db: Db, a: Action, now: Seconds): Option<UserId> {
    if Handle(db, a, now).users == db.users then None
    else match a
      case Register(id, _, _, _, _, _) => Some(id)
      case Create(id, _, _, _, _, _, _) => Some(id)
      case MePassword(id, _, _, _) => Some(id)
      case Reset(id, _, _) => Some(id)
      case Update(_, id, _, _, _, password, _) => if password == [] then None else Some(id)
      case ForgotVerify(username, _, _, _) => UserNamed(db.users, username)
      case _ => None
  }

  /** What a client has to keep to, writer by writer. */
  ghost predicate Serves(db: Db, a: Action, id: UserId, p: Text, form: Form) {
    match a
    case Register(_, _, _, _, salt, _) => Suits(form, p, salt) && (form.Plain? ==> salt == [])
    case Create(_, _, _, password, salt, _, _) =>
      if password == [] then form.Plain? else Suits(form, p, salt) && (form.Plain? ==> salt == [])
    case MePassword(_, _, _, _) =>
      id in db.users && if db.users[id].salt == [] then form.Plain? else Suits(form, p, db.users[id].salt)
    case _ => id in db.users && Suits(form, p, db.users[id].salt)
  }

  predicate NewIds(db: Db, a: Action) {
    (a.Register? || a.Create?) ==> a.id !in db.users
  }

  /** After a write the account accepts the new password, exactly when the client kept to its writer's rule. */
  lemma WriterServes(db: Db, a: Action, now: Seconds, id: UserId, p: Text, form: Form)
    requires NewIds(db, a) && Target(db, a, now) == Some(id) && PayloadOf(a) == Sent(p, form)
    ensures id in Handle(db, a, now).users
    ensures var u := Handle(db, a, now).users[id]; Coherent(u.hash, u.salt, p) <==> Serves(db, a, id, p, form)
  {
    hide Length, IsHexText, RecentFails, LatestOpen, VerifyPassword, CheckCode, Unique, NameTaken,
         Coherent, WrappedBare, Wrapped, Suits, OwnChange;
    match a {
      case Register(_, _, _, _, salt, _) => BareServes(p, form, salt);
      case Create(_, _, _, password, salt, picked, fresh_) =>
        if password == [] {
          PickedServes(p, form, fresh_);
        } else {
          BareServes(p, form, salt);
        }
      case MePassword(_, _, _, fresh_) => OwnChangeServes(p, form, db.users[id].salt, fresh_);
      case Reset(_, _, _) => WrappedServes(p, form, db.users[id].salt);
      case Update(_, _, _, _, _, _, _) => WrappedServes(p, form, db.users[id].salt);
      case ForgotVerify(_, _, _, _) => WrappedServes(p, form, db.users[id].salt);
    }
  }

  lemma PickedServes(p: Text, form: Form, fresh_: Text)
    ensures Coherent(Bcrypt(Sha256Hex(Sent(p, form) + fresh_)), fresh_, p) <==> form.Plain?
  {
    OwnChangeServes(p, form, [], fresh_);
  }

  /** No action touches the password of another account, except that a login may rewrite it coherently. */
  lemma OthersKept(db: Db, a: Action, now: Seconds, id: UserId, p: Text)
    requires NewIds(db, a) && Target(db, a, now) != Some(id)
    requires id in db.users && Coherent(db.users[id].hash, db.users[id].salt, p)
    ensures var users' := Handle(db, a, now).users;
            id in users' ==> Coherent(users'[id].hash, users'[id].salt, p)
  {
    hide Length, IsHexText, RecentFails, LatestOpen, VerifyPassword, CheckCode, Unique, NameTaken,
         Coherent, WrappedBare, Wrapped, Upgraded, OwnChange;
    if a.Login? {
      UpgradeServes(db.users[id], p, a.payload, a.fresh_);
    }
  }

  // ---- runs ---------------------------------------------------------------------------------------------------------

  /** An action at a time, with the password its sender has in mind and the form it is sent in. */
  datatype Event = Event(a: Action, now: Seconds, p: Text, form: Form)

  /** The tables, and for each account the password it was last given. */
  datatype World = World(db: Db, known: map<UserId, Text>)

  ghost function After(es: seq<Event>): World {
    if es == [] then World(Db(map[], []), map[])
    else Next(After(es[..|es| - 1]), es[|es| - 1])
  }

  ghost function Next(w: World, e: Event): World {
    var db' := Handle(w.db, e.a, e.now);
    World(db', match Target(w.db, e.a, e.now)
               case Some(id) => w.known[id := e.p]
               case None => w.known - (w.known.Keys - db'.users.Keys))
  }

  ghost predicate AllCoherent(w: World) {
    && w.known.Keys == w.db.users.Keys
    && forall id | id in w.db.users :: Coherent(w.db.users[id].hash, w.db.users[id].salt, w.known[id])
  }

  /** New accounts get new ids, and what arrives is what was sent. */
  ghost predicate Sensible(w: World, e: Event) {
    NewIds(w.db, e.a) && PayloadOf(e.a) == Sent(e.p, e.form)
  }

  ghost predicate Kept(w: World, e: Event) {
    var t := Target(w.db, e.a, e.now);
    t.Some? ==> Serves(w.db, e.a, t.value, e.p, e.form)
  }

  lemma KeysFollow(db: Db, a: Action, now: Seconds)
    requires NewIds(db, a)
    ensures var t := Target(db, a, now);
            Handle(db, a, now).users.Keys == if t.Some? then db.users.Keys + {t.value}
                                             else if a.Delete? then db.users.Keys - {a.id} else db.users.Keys
  {
    hide Length, IsHexText, RecentFails, LatestOpen, VerifyPassword, CheckCode, Unique, NameTaken;
  }

  /** One action keeps every stored password coherent exactly when its client keeps to the rule. */
  lemma StepCoherent(w: World, e: Event)
    requires AllCoherent(w) && Sensible(w, e)
    ensures AllCoherent(Next(w, e)) <==> Kept(w, e)
  {
    hide Handle, Target, Serves, Coherent, PayloadOf;
    var w' := Next(w, e);
    var t := Target(w.db, e.a, e.now);
    KeysFollow(w.db, e.a, e.now);
    forall id | id in w'.db.users && t != Some(id)
      ensures id in w'.known && Coherent(w'.db.users[id].hash, w'.db.users[id].salt, w'.known[id])
    {
      OthersKept(w.db, e.a, e.now, id, w.known[id]);
    }
    if t.Some? {
      WriterServes(w.db, e.a, e.now, t.value, e.p, e.form);
    }
  }

  ghost predicate SensibleRun(es: seq<Event>) {
    es != [] ==> SensibleRun(es[..|es| - 1]) && Sensible(After(es[..|es| - 1]), es[|es| - 1])
  }

  ghost predicate CoherentThroughout(es: seq<Event>) {
    AllCoherent(After(es)) && (es != [] ==> CoherentThroughout(es[..|es| - 1]))
  }

  ghost predicate KeptThroughout(es: seq<Event>) {
    es != [] ==> KeptThroughout(es[..|es| - 1]) && Kept(After(es[..|es| - 1]), es[|es| - 1])
  }

  /** Over any run, every account always belongs to its current password exactly when every write so far
      came from a client that kept to its writer's rule. */
  lemma {:induction false} CoherentRuns(es: seq<Event>)
    requires SensibleRun(es)
    ensures CoherentThroughout(es) <==> KeptThroughout(es)
  {
    hide Next, Sensible, Kept, AllCoherent;
    if es == [] {
      assert AllCoherent(After([])) by { EmptyCoherent(); }
    } else {
      var before := es[..|es| - 1];
      CoherentRuns(before);
      if CoherentThroughout(before) {
        StepCoherent(After(before), es[|es| - 1]);
      }
    }
  }

  lemma EmptyCoherent()
    ensures AllCoherent(World(Db(map[], []), map[]))
  {}

  /** So the verifier then takes the current password and its digest with the account's salt, and nothing else. */
  lemma OnlyTheCurrentPassword(es: seq<Event>, id: UserId)
    requires SensibleRun(es) && KeptThroughout(es) && id in After(es).db.users
    ensures id in After(es).known
    ensures var u := After(es).db.users[id]; AcceptsExactly(u.hash, u.salt, After(es).known[id])
  {
    CoherentRuns(es);
    var u := After(es).db.users[id];
    VerifierMeetsContract(u.hash, u.salt, After(es).known[id]);
  }

  /** A plaintext registered beside a salt leaves an account that does not belong to it. */
  lemma SaltedPlaintextIsLost(p: Text, salt: Text) returns (e: Event)
    requires Length(p) >= 6 && IsSaltHex(salt)
    ensures e == Event(Register(0, "user", "user@host", p, salt, true), 0, p, Plain)
    ensures SensibleRun([e]) && 0 in After([e]).db.users && After([e]).known == map[0 := p]
    ensures var u := After([e]).db.users[0]; u.salt == salt && !AcceptsExactly(u.hash, u.salt, p)
  {
    hide Length, IsHexText;
    e := Event(Register(0, "user", "user@host", p, salt, true), 0, p, Plain);
    assert [e][..0] == [];
    NotEmptySalt(salt);
    BareServes(p, Plain, salt);
    assert !NameTaken(After([]).db.users, "user", "user@host", None);
    var u := After([e]).db.users[0];
    VerifierMeetsContract(u.hash, u.salt, p);
  }

  lemma NotEmptySalt(salt: Text)
    requires IsSaltHex(salt)
    ensures salt != []
  {}

  /** Over every sensible run no two accounts have the same name or the same address. */
  lemma {:induction false} UniqueRuns(es: seq<Event>)
    requires SensibleRun(es)
    ensures Unique(After(es).db.users)
    ensures var users := After(es).db.users;
            forall a, b | a in users && b in users ::
              users[a].username == users[b].username || users[a].email == users[b].email ==> a == b
  {
    hide Handle, Target, Unique, PayloadOf;
    if es == [] {
      NobodyIsUnique();
    } else {
      var before, e := es[..|es| - 1], es[|es| - 1];
      UniqueRuns(before);
      UniqueKept(After(before).db, e.a, e.now);
    }
    UniqueMeans(After(es).db.users);
  }

  lemma UniqueMeans(users: map<UserId, User>)
    requires Unique(users)
    ensures forall a, b | a in users && b in users ::
              users[a].username == users[b].username || users[a].email == users[b].email ==> a == b
  {}

  lemma NobodyIsUnique()
    ensures Unique(map[])
  {}

  /** A payload that proves knowledge of the account's current password. */
  ghost predicate Proves(w: World, id: UserId, payload: Text)
    requires id in w.db.users && id in w.known
  {
    payload == w.known[id] || payload == Sha256Hex(w.known[id] + w.db.users[id].salt)
  }

  /** And a login gets a token exactly for an active account whose current password it proves; a user's own
      change, and an administrator's write to another account, need the same proof. */
  lemma PasswordIsNeeded(es: seq<Event>, id: UserId)
    requires SensibleRun(es) && KeptThroughout(es) && id in After(es).db.users
    ensures id in After(es).known
    ensures forall payload :: NeedsProof(After(es), id, payload)
  {
    hide After, SensibleRun, KeptThroughout, NeedsProof;
    OnlyTheCurrentPassword(es, id);
    UniqueRuns(es);
    forall payload
      ensures NeedsProof(After(es), id, payload)
    {
      ProofIsNeeded(After(es), id, payload);
    }
  }

  ghost predicate NeedsProof(w: World, id: UserId, payload: Text)
    requires id in w.db.users && id in w.known
  {
    var u := w.db.users[id];
    && (LoginUser(w.db, u.username, payload) == Some(id) <==> u.active && Proves(w, id, payload))
    && (AdminMayWrite(w.db, id, payload) <==> Proves(w, id, payload))
    && forall new_, fresh_ ::
         OwnPassword(w.db, id, payload, new_, fresh_) != w.db <==> Length(new_) >= 6 && Proves(w, id, payload)
  }

  lemma ProofIsNeeded(w: World, id: UserId, payload: Text)
    requires id in w.db.users && id in w.known && Unique(w.db.users)
    requires AcceptsExactly(w.db.users[id].hash, w.db.users[id].salt, w.known[id])
    ensures NeedsProof(w, id, payload)
  {
    hide VerifyPassword, Length, OwnChange;
    var u := w.db.users[id];
    NamedIsUnique(w.db.users, id);
    assert Accepts(u.hash, u.salt, payload) <==> Proves(w, id, payload);
    forall new_, fresh_
      ensures OwnPassword(w.db, id, payload, new_, fresh_) != w.db <==> Length(new_) >= 6 && Proves(w, id, payload)
    {
      OwnPasswordChanges(w.db, id, payload, new_, fresh_);
    }
  }

  lemma OwnPasswordChanges(db: Db, id: UserId, old_: Text, new_: Text, fresh_: Text)
    requires id in db.users
    ensures OwnPassword(db, id, old_, new_, fresh_) != db
            <==> Length(new_) >= 6 && Accepts(db.users[id].hash, db.users[id].salt, old_)
  {
    hide VerifyPassword, Length, OwnChange;
    var db' := OwnPassword(db, id, old_, new_, fresh_);
    if Length(new_) >= 6 && Accepts(db.users[id].hash, db.users[id].salt, old_) {
      assert db'.users[id].version == db.users[id].version + 1;
    }
  }
}
