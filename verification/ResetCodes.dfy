/** The reset-code protocol of forgot.go over timed runs of all account handlers. */
module ResetCodes {
  import opened Wrappers
  import opened Accounts

  /** An action and the moment of its one atomic step. */
  datatype Event = Event(a: Action, now: Seconds)

  ghost predicate Timed(es: seq<Event>) {
    forall i, j | 0 <= i < j < |es| :: es[i].now <= es[j].now
  }

  /** The tables before event k, from empty ones. */
  ghost function At(es: seq<Event>, k: nat): Db
    requires k <= |es|
  {
    if k == 0 then Db(map[], []) else Handle(At(es, k - 1), es[k - 1].a, es[k - 1].now)
  }

  // ---- what the code table keeps ---------------------------------------------------------------------------------

  predicate RowOK(c: Code, now: Seconds) {
    c.created <= now && c.attempts <= MAX_ATTEMPTS && c.expires == c.created + CODE_LIFE
  }

  /** Of one user's codes only the newest can be open, and they are at least the cooldown apart. */
  predicate PairOK(c: Code, later: Code) {
    c.username == later.username ==> c.used && c.created + COOLDOWN <= later.created
  }

  ghost predicate CodesOK(codes: seq<Code>, now: Seconds) {
    && (forall i | 0 <= i < |codes| :: RowOK(codes[i], now))
    && (forall i, j | 0 <= i < j < |codes| :: PairOK(codes[i], codes[j]))
    && (forall u: string :: RecentFails(codes, u, now) <= MAX_FAILS)
  }

  function Counted(c: Code, u: string, now: Seconds): nat {
    if c.username == u && c.created > now - FAIL_WINDOW then c.attempts else 0
  }

  lemma {:induction false} FailsFade(codes: seq<Code>, u: string, now: Seconds, later: Seconds)
    requires now <= later
    ensures RecentFails(codes, u, later) <= RecentFails(codes, u, now)
  {
    if codes != [] {
      FailsFade(codes[..|codes| - 1], u, now, later);
    }
  }

  lemma {:induction false} FailsOfUpdate(codes: seq<Code>, i: nat, c: Code, u: string, now: Seconds)
    requires i < |codes|
    ensures RecentFails(codes[i := c], u, now) == RecentFails(codes, u, now)
        + Counted(c, u, now) - Counted(codes[i], u, now)
  {
    var n := |codes| - 1;
    if i == n {
      assert codes[i := c][..n] == codes[..n];
    } else {
      assert codes[i := c][..n] == codes[..n][i := c];
      FailsOfUpdate(codes[..n], i, c, u, now);
    }
  }

  lemma {:induction false} FailsOfRetired(codes: seq<Code>, username: string, u: string, now: Seconds)
    ensures RecentFails(Retired(codes, username), u, now) == RecentFails(codes, u, now)
  {
    if codes != [] {
      var n := |codes| - 1;
      FailsOfRetired(codes[..n], username, u, now);
      assert Retired(codes, username)[..n] == Retired(codes[..n], username);
    }
  }

  // ---- one step --------------------------------------------------------------------------------------------------

  lemma TimePasses(codes: seq<Code>, now: Seconds, later: Seconds)
    requires CodesOK(codes, now) && now <= later
    ensures CodesOK(codes, later)
  {
    forall u: string
      ensures RecentFails(codes, u, later) <= MAX_FAILS
    {
      FailsFade(codes, u, now, later);
    }
  }

  lemma RequestKeeps(codes: seq<Code>, username: string, email: string, code: string, now: Seconds)
    requires CodesOK(codes, now) && !CoolingDown(codes, username, now)
    ensures CodesOK(Retired(codes, username)
        + [Code(username, email, CodeMac(code), false, 0, now, now + CODE_LIFE)], now)
  {
    var retired := Retired(codes, username);
    var c := Code(username, email, CodeMac(code), false, 0, now, now + CODE_LIFE);
    forall i, j | 0 <= i < j < |retired + [c]|
      ensures PairOK((retired + [c])[i], (retired + [c])[j])
    {
      assert codes[i].username == username ==> now - codes[i].created >= COOLDOWN;
      assert j < |codes| ==> PairOK(codes[i], codes[j]);
    }
    forall i | 0 <= i < |retired + [c]|
      ensures RowOK((retired + [c])[i], now)
    {
      assert i < |codes| ==> RowOK(codes[i], now);
    }
    forall u: string
      ensures RecentFails(retired + [c], u, now) <= MAX_FAILS
    {
      FailsOfRetired(codes, username, u, now);
      assert (retired + [c])[..|retired|] == retired;
    }
  }

  /** Marking a code used, or charging it one attempt while both gates are open. */
  lemma UpdateKeeps(codes: seq<Code>, i: nat, c: Code, now: Seconds)
    requires CodesOK(codes, now) && i < |codes|
    requires c == codes[i].(used := true)
             || (c == codes[i].(attempts := codes[i].attempts + 1) && codes[i].attempts < MAX_ATTEMPTS
                 && RecentFails(codes, codes[i].username, now) < MAX_FAILS)
    ensures CodesOK(codes[i := c], now)
  {
    var codes' := codes[i := c];
    forall k, j | 0 <= k < j < |codes'|
      ensures PairOK(codes'[k], codes'[j])
    {
      assert PairOK(codes[k], codes[j]);
    }
    forall k | 0 <= k < |codes'|
      ensures RowOK(codes'[k], now)
    {
      assert RowOK(codes[k], now);
    }
    forall u: string
      ensures RecentFails(codes', u, now) <= MAX_FAILS
    {
      FailsOfUpdate(codes, i, c, u, now);
    }
  }

  lemma StepKeeps(db: Db, a: Action, now: Seconds)
    requires CodesOK(db.codes, now)
    ensures CodesOK(Handle(db, a, now).codes, now)
  {
    hide CodesOK, RecentFails, LatestOpen, Retired, Length, IsHexText, VerifyPassword, NameTaken, CoolingDown,
        KnownAccount;
    match a {
      case ForgotRequest(username, email, code) =>
        if !CoolingDown(db.codes, username, now) {
          RequestKeeps(db.codes, username, email, code, now);
        }
      case ForgotVerify(username, email, code, new_) =>
        match CheckCode(db, username, email, code, now) {
          case Rejected =>
          case Wrong(i) => UpdateKeeps(db.codes, i, db.codes[i].(attempts := db.codes[i].attempts + 1), now);
          case Right(i) => UpdateKeeps(db.codes, i, db.codes[i].(used := true), now);
        }
      case _ =>
    }
  }

  // ---- runs -----------------------------------------------------------------------------------------------

  /** At every moment from the last event on: at most one open code a user, codes a cooldown apart, at most
      five attempts a code, and at most twenty attempts on the user's codes of the last ten minutes. */
  lemma {:induction false} CodesAlwaysOK(es: seq<Event>, k: nat, now: Seconds)
    requires Timed(es) && k <= |es| && (k > 0 ==> es[k - 1].now <= now)
    ensures CodesOK(At(es, k).codes, now)
  {
    hide CodesOK, Handle;
    if k == 0 {
      NoCodes(now);
    } else {
      CodesAlwaysOK(es, k - 1, es[k - 1].now);
      StepKeeps(At(es, k - 1), es[k - 1].a, es[k - 1].now);
      TimePasses(At(es, k).codes, es[k - 1].now, now);
    }
  }

  lemma NoCodes(now: Seconds)
    ensures CodesOK([], now)
  {}

  /** The attempts on the user's codes that were created after `from`. */
  function Attempts(codes: seq<Code>, u: string, from: Seconds): nat {
    if codes == [] then 0
    else
      var c := codes[0];
      (if c.username == u && c.created > from then c.attempts else 0) + Attempts(codes[1..], u, from)
  }

  lemma {:induction false} AttemptsOfSum(codes: seq<Code>, c: Code, u: string, from: Seconds)
    ensures Attempts(codes + [c], u, from)
            == Attempts(codes, u, from) + if c.username == u && c.created > from then c.attempts else 0
  {
    var all := codes + [c];
    if codes == [] {
      assert all[1..] == [];
    } else {
      AttemptsOfSum(codes[1..], c, u, from);
      assert all[1..] == codes[1..] + [c];
    }
  }

  lemma {:induction false} FailsAreAttempts(codes: seq<Code>, u: string, now: Seconds)
    ensures RecentFails(codes, u, now) == Attempts(codes, u, now - 600)
  {
    if codes != [] {
      var n := |codes| - 1;
      FailsAreAttempts(codes[..n], u, now);
      AttemptsOfSum(codes[..n], codes[n], u, now - 600);
      assert codes == codes[..n] + [codes[n]];
    }
  }

  /** With the numbers: codes last five minutes and see at most five attempts, a user's codes are a minute apart
      and only the last one can be unused, and those of the last ten minutes see at most twenty attempts. */
  lemma CodeLimits(es: seq<Event>, k: nat, now: Seconds, u: string)
    requires Timed(es) && k <= |es| && (k > 0 ==> es[k - 1].now <= now)
    ensures var codes := At(es, k).codes;
            && (forall c | c in codes :: c.attempts <= 5 && c.created <= now && c.expires == c.created + 300)
            && (forall i, j | 0 <= i < j < |codes| && codes[i].username == codes[j].username ::
                  codes[i].used && codes[i].created + 60 <= codes[j].created)
            && Attempts(codes, u, now - 600) <= 20
  {
    CodesAlwaysOK(es, k, now);
    var codes := At(es, k).codes;
    FailsAreAttempts(codes, u, now);
    forall i | 0 <= i < |codes|
      ensures codes[i].attempts <= 5 && codes[i].created <= now && codes[i].expires == codes[i].created + 300
    {
      assert RowOK(codes[i], now);
    }
    forall i, j | 0 <= i < j < |codes| && codes[i].username == codes[j].username
      ensures codes[i].used && codes[i].created + 60 <= codes[j].created
    {
      assert PairOK(codes[i], codes[j]);
    }
  }

  /** How many of the user's codes were created in the half-open interval. */
  function Created(codes: seq<Code>, u: string, from: Seconds, to: Seconds): nat {
    if codes == [] then 0
    else
      var c := codes[|codes| - 1];
      Created(codes[..|codes| - 1], u, from, to) + if c.username == u && from <= c.created < to then 1 else 0
  }

  lemma {:induction false} Spread(codes: seq<Code>, u: string, from: Seconds, to: Seconds) returns (last: nat)
    requires forall i, j | 0 <= i < j < |codes| :: PairOK(codes[i], codes[j])
    ensures var n := Created(codes, u, from, to);
            n > 0 ==> last < |codes| && codes[last].username == u
                      && from + COOLDOWN * (n - 1) <= codes[last].created < to
  {
    last := 0;
    if codes != [] {
      var n := |codes| - 1;
      forall i, j | 0 <= i < j < n
        ensures PairOK(codes[..n][i], codes[..n][j])
      {
        assert PairOK(codes[i], codes[j]);
      }
      last := Spread(codes[..n], u, from, to);
      if codes[n].username == u && from <= codes[n].created < to {
        if Created(codes[..n], u, from, to) > 0 {
          assert PairOK(codes[last], codes[n]);
        }
        last := n;
      }
    }
  }

  /** The rows of the user's codes that were created in the half-open interval. */
  function RowsCreated(codes: seq<Code>, u: string, from: Seconds, to: Seconds): set<nat> {
    set i: nat | i < |codes| && codes[i].username == u && from <= codes[i].created < to
  }

  lemma {:induction false} CreatedIsCount(codes: seq<Code>, u: string, from: Seconds, to: Seconds)
    ensures Created(codes, u, from, to) == |RowsCreated(codes, u, from, to)|
  {
    if codes != [] {
      var n := |codes| - 1;
      CreatedIsCount(codes[..n], u, from, to);
      var rows := RowsCreated(codes[..n], u, from, to);
      assert RowsCreated(codes, u, from, to)
          == rows + if codes[n].username == u && from <= codes[n].created < to then {n} else {};
    }
  }

  /** No ten minutes, wherever they start, see more than ten codes for one user. */
  lemma AtMostTenCodes(es: seq<Event>, u: string, from: Seconds)
    requires Timed(es)
    ensures |RowsCreated(At(es, |es|).codes, u, from, from + 600)| <= 10
  {
    CreatedIsCount(At(es, |es|).codes, u, from, from + 600);
    CodesAlwaysOK(es, |es|, if es == [] then 0 else es[|es| - 1].now);
    var _ := Spread(At(es, |es|).codes, u, from, from + 600);
  }

  // ---- redeeming ------------------------------------------------------------------------------------------

  /** Event k sets a password with the code in row i. */
  ghost predicate Redeems(es: seq<Event>, k: nat, i: nat) {
    && k < |es| && es[k].a.ForgotVerify? && Length(es[k].a.new_) >= 6
    && CheckCode(At(es, k), es[k].a.username, es[k].a.email, es[k].a.code, es[k].now) == Right(i)
  }

  /** Event k puts a new code for the user into the table. */
  ghost predicate Issues(es: seq<Event>, k: nat, username: string, email: string, code: string) {
    && k < |es| && es[k].a == ForgotRequest(username, email, code)
    && |At(es, k + 1).codes| > |At(es, k).codes|
  }

  /** Rows stay, with everything but the attempts and the used mark. */
  predicate SameRow(c: Code, c': Code) {
    c'.username == c.username && c'.email == c.email && c'.mac == c.mac && c'.created == c.created
    && c'.expires == c.expires && (c.used ==> c'.used)
  }

  predicate Grown(codes: seq<Code>, codes': seq<Code>) {
    |codes| <= |codes'| && forall i | 0 <= i < |codes| :: SameRow(codes[i], codes'[i])
  }

  lemma StepGrows(db: Db, a: Action, now: Seconds)
    ensures Grown(db.codes, Handle(db, a, now).codes)
  {
    hide RecentFails, LatestOpen, Length, IsHexText, VerifyPassword, NameTaken, CoolingDown, KnownAccount;
  }

  lemma {:induction false} RowsStay(es: seq<Event>, m: nat, n: nat)
    requires m <= n <= |es|
    ensures Grown(At(es, m).codes, At(es, n).codes)
    decreases n
  {
    hide Handle;
    if m < n {
      RowsStay(es, m, n - 1);
      StepGrows(At(es, n - 1), es[n - 1].a, es[n - 1].now);
    }
  }

  lemma RedeemedIsUsed(es: seq<Event>, k: nat, i: nat)
    requires Redeems(es, k, i)
    ensures i < |At(es, k).codes| && !At(es, k).codes[i].used
    ensures i < |At(es, k + 1).codes| && At(es, k + 1).codes[i].used
  {
    hide RecentFails, LatestOpen, Length, IsHexText;
  }

  /** A code sets at most one password. */
  lemma RedeemedOnce(es: seq<Event>, j: nat, k: nat, i: nat)
    requires j < k && Redeems(es, j, i)
    ensures !Redeems(es, k, i)
  {
    hide Handle, CheckCode;
    if Redeems(es, k, i) {
      RedeemedIsUsed(es, j, i);
      RedeemedIsUsed(es, k, i);
      RowsStay(es, j + 1, k);
    }
  }

  /** Every row was put there by a request. */
  lemma {:induction false} RowOrigin(es: seq<Event>, k: nat, i: nat) returns (j: nat, code: string)
    requires k <= |es| && i < |At(es, k).codes|
    ensures j < k && |At(es, j).codes| == i && |At(es, j + 1).codes| == i + 1
    ensures var c := At(es, k).codes[i];
            Issues(es, j, c.username, c.email, code) && c.mac == CodeMac(code) && c.created == es[j].now
    decreases k
  {
    hide Handle;
    StepGrows(At(es, k - 1), es[k - 1].a, es[k - 1].now);
    if i < |At(es, k - 1).codes| {
      j, code := RowOrigin(es, k - 1, i);
      assert SameRow(At(es, k - 1).codes[i], At(es, k).codes[i]);
    } else {
      j := k - 1;
      code := NewRow(At(es, j), es[j].a, es[j].now);
    }
  }

  lemma NewRow(db: Db, a: Action, now: Seconds) returns (code: string)
    requires |Handle(db, a, now).codes| > |db.codes|
    ensures var codes' := Handle(db, a, now).codes; var c := codes'[|db.codes|];
            && |codes'| == |db.codes| + 1 && a == ForgotRequest(c.username, c.email, code)
            && c.mac == CodeMac(code) && c.created == now
  {
    hide RecentFails, LatestOpen, Length, IsHexText, VerifyPassword, NameTaken, CoolingDown, KnownAccount;
    code := match a case ForgotRequest(_, _, code) => code case _ => "";
  }

  /** Some active user has this name and address. */
  predicate ActiveUser(users: map<UserId, User>, username: string, email: string) {
    exists id :: id in users && users[id].active && users[id].username == username && users[id].email == email
  }

  lemma CoolsUntilAMinute(codes: seq<Code>, username: string, now: Seconds)
    ensures !CoolingDown(codes, username, now)
            <==> forall c | c in codes && c.username == username :: c.created + 60 <= now
  {
    if CoolingDown(codes, username, now) {
      var i :| 0 <= i < |codes| && codes[i].username == username && now - codes[i].created < COOLDOWN;
      assert codes[i] in codes;
    } else {
      forall c | c in codes && c.username == username
        ensures c.created + 60 <= now
      {
        var i :| 0 <= i < |codes| && codes[i] == c;
      }
    }
  }

  lemma RequestExactly(db: Db, username: string, email: string, code: string, now: Seconds)
    ensures |Handle(db, ForgotRequest(username, email, code), now).codes| > |db.codes|
            <==> username != "" && email != "" && ActiveUser(db.users, username, email)
                 && '\r' !in username && '\n' !in username && '\r' !in email && '\n' !in email
                 && forall c | c in db.codes && c.username == username :: c.created + 60 <= now
  {
    hide CoolingDown;
    CoolsUntilAMinute(db.codes, username, now);
  }

  /** A code is issued exactly for a name and an address that fit on a mail header line and are those of an account
      which is active at that moment, when no code of that name is less than a minute old. */
  lemma {:induction false} IssuedExactly(es: seq<Event>, k: nat, username: string, email: string, code: string)
    ensures Issues(es, k, username, email, code)
            <==> k < |es| && es[k].a == ForgotRequest(username, email, code)
                 && username != "" && email != "" && ActiveUser(At(es, k).users, username, email)
                 && '\r' !in username && '\n' !in username && '\r' !in email && '\n' !in email
                 && forall c | c in At(es, k).codes && c.username == username :: c.created + 60 <= es[k].now
  {
    hide Handle, ActiveUser;
    if k < |es| {
      RequestExactly(At(es, k), username, email, code, es[k].now);
    }
  }

  /** So every code that is redeemed was issued to an account that was active then, under five minutes before. */
  lemma RedeemedWasIssued(es: seq<Event>, k: nat, i: nat) returns (j: nat)
    requires Timed(es) && Redeems(es, k, i)
    ensures j < k && es[j].a == ForgotRequest(es[k].a.username, es[k].a.email, es[k].a.code)
    ensures ActiveUser(At(es, j).users, es[k].a.username, es[k].a.email)
    ensures es[j].now <= es[k].now < es[j].now + 300
  {
    hide Handle, CheckCode, RecentFails, LatestOpen, Length, CodesOK, ActiveUser;
    var code;
    j, code := RowOrigin(es, k, i);
    RedeemedRow(es, k, i);
    CodesAlwaysOK(es, k, es[k].now);
    RowAndPairs(At(es, k).codes, es[k].now, i);
    IssuedExactly(es, j, es[k].a.username, es[k].a.email, code);
  }

  /** The code in row i is the one that a verification at this moment looks at, and both gates are open. */
  predicate Judged(codes: seq<Code>, username: string, email: string, now: Seconds, i: nat) {
    && i < |codes| && codes[i].username == username && codes[i].email == email && !codes[i].used
    && now < codes[i].expires && codes[i].attempts < 5 && Attempts(codes, username, now - 600) < 20
    && forall j | i < j < |codes| && codes[j].username == username && codes[j].email == email ::
         codes[j].used || codes[j].expires <= now
  }

  lemma {:induction false} LatestIsLast(codes: seq<Code>, username: string, email: string, now: Seconds)
    ensures var r := LatestOpen(codes, username, email, now);
            r.Some? ==> forall j | r.value < j < |codes| :: !Open(codes[j], username, email, now)
  {
    if codes != [] {
      var n := |codes| - 1;
      LatestIsLast(codes[..n], username, email, now);
    }
  }

  lemma VerdictExactly(db: Db, username: string, email: string, code: string, now: Seconds, i: nat)
    ensures CheckCode(db, username, email, code, now) == Right(i)
            <==> Judged(db.codes, username, email, now, i) && db.codes[i].mac == CodeMac(code)
    ensures CheckCode(db, username, email, code, now) == Wrong(i)
            <==> Judged(db.codes, username, email, now, i) && db.codes[i].mac != CodeMac(code)
  {
    hide RecentFails, LatestOpen, Attempts;
    FailsAreAttempts(db.codes, username, now);
    LatestIsLast(db.codes, username, email, now);
    var r := LatestOpen(db.codes, username, email, now);
    if Judged(db.codes, username, email, now, i) && r.Some? {
      assert Open(db.codes[i], username, email, now);
      assert r.value == i;
    }
  }

  /** The whole effect of a verification, for a password long enough: a right code of a judged row is used up and
      sets the password of the named user, a wrong one is charged to that row, and else nothing happens. */
  lemma VerificationExactly(db: Db, username: string, email: string, code: string, new_: Text, now: Seconds)
    requires Unique(db.users) && Length(new_) >= 6
    ensures var db' := Handle(db, ForgotVerify(username, email, code, new_), now);
            && (forall i: nat | i < |db.codes| && Judged(db.codes, username, email, now, i) ::
                  if db.codes[i].mac == CodeMac(code)
                  then db'.codes == db.codes[i := db.codes[i].(used := true)]
                       && db'.users.Keys == db.users.Keys
                       && forall id | id in db.users ::
                            db'.users[id]
                            == if db.users[id].username == username
                               then db.users[id].(hash := Bcrypt(Wrapped(new_, db.users[id].salt)),
                                                  version := db.users[id].version + 1)
                               else db.users[id]
                  else db' == db.(codes := db.codes[i := db.codes[i].(attempts := db.codes[i].attempts + 1)]))
            && ((forall i: nat :: !Judged(db.codes, username, email, now, i)) ==> db' == db)
  {
    hide RecentFails, LatestOpen, Length, IsHexText, CheckCode, Judged;
    var v := CheckCode(db, username, email, code, now);
    forall i: nat | i < |db.codes|
      ensures v == Right(i) <==> Judged(db.codes, username, email, now, i) && db.codes[i].mac == CodeMac(code)
      ensures v == Wrong(i) <==> Judged(db.codes, username, email, now, i) && db.codes[i].mac != CodeMac(code)
    {
      VerdictExactly(db, username, email, code, now, i);
    }
  }

  /** Between the two events nothing else happened to the user's codes: no newer one, no other redeemed. */
  ghost predicate Undisturbed(es: seq<Event>, j: nat, k: nat, username: string) {
    forall m | j < m < k ::
      && (forall email, code :: !Issues(es, m, username, email, code))
      && (m < |es| && es[m].a.ForgotVerify? && es[m].a.username == username ==> forall i :: !Redeems(es, m, i))
  }

  /** Whenever a reset changes the users table, its code is the one last mailed to that name and address,
      less than five minutes ago, and it has not been redeemed since. */
  lemma ResetNeedsLatestCode(es: seq<Event>, k: nat) returns (j: nat)
    requires Timed(es) && k < |es| && es[k].a.ForgotVerify? && At(es, k + 1).users != At(es, k).users
    ensures j < k && Issues(es, j, es[k].a.username, es[k].a.email, es[k].a.code)
    ensures es[k].now < es[j].now + 300
    ensures Undisturbed(es, j, k, es[k].a.username)
  {
    hide Handle, CheckCode, RecentFails, LatestOpen, Length, CodesOK;
    var i := ChangeRedeems(es, k);
    var username := es[k].a.username;
    var codes := At(es, k).codes;
    var code;
    j, code := RowOrigin(es, k, i);
    RedeemedRow(es, k, i);
    CodesAlwaysOK(es, k, es[k].now);
    RowAndPairs(codes, es[k].now, i);
    forall m, email, code | j < m < k
      ensures !Issues(es, m, username, email, code)
    {
      if Issues(es, m, username, email, code) {
        NotSuperseded(es, j, m, k, i, email, code);
      }
    }
    forall m, i' | j < m < k && es[m].a.ForgotVerify? && es[m].a.username == username
      ensures !Redeems(es, m, i')
    {
      if Redeems(es, m, i') {
        NotOutlived(es, j, m, k, i, i');
      }
    }
  }

  lemma ChangeRedeems(es: seq<Event>, k: nat) returns (i: nat)
    requires k < |es| && es[k].a.ForgotVerify? && At(es, k + 1).users != At(es, k).users
    ensures Redeems(es, k, i)
  {
    hide RecentFails, LatestOpen, Length, IsHexText;
    i := CheckCode(At(es, k), es[k].a.username, es[k].a.email, es[k].a.code, es[k].now).index;
  }

  lemma RedeemedRow(es: seq<Event>, k: nat, i: nat)
    requires Redeems(es, k, i)
    ensures var codes := At(es, k).codes;
            i < |codes| && codes[i].mac == CodeMac(es[k].a.code)
            && Open(codes[i], es[k].a.username, es[k].a.email, es[k].now)
  {
    hide RecentFails, LatestOpen, Length, IsHexText, Handle;
  }

  lemma RowAndPairs(codes: seq<Code>, now: Seconds, i: nat)
    requires CodesOK(codes, now) && i < |codes|
    ensures codes[i].expires == codes[i].created + CODE_LIFE
    ensures forall j | i < j < |codes| && codes[j].username == codes[i].username :: codes[i].used
    ensures forall j | 0 <= j < i && codes[j].username == codes[i].username :: codes[j].used
  {
    assert RowOK(codes[i], now);
    forall j | i < j < |codes| && codes[j].username == codes[i].username
      ensures codes[i].used
    {
      assert PairOK(codes[i], codes[j]);
    }
    forall j | 0 <= j < i && codes[j].username == codes[i].username
      ensures codes[j].used
    {
      assert PairOK(codes[j], codes[i]);
    }
  }

  lemma NotSuperseded(es: seq<Event>, j: nat, m: nat, k: nat, i: nat, email: string, code: string)
    requires Timed(es) && j < m < k && Redeems(es, k, i) && |At(es, j + 1).codes| == i + 1
    ensures !Issues(es, m, es[k].a.username, email, code)
  {
    hide Handle, CheckCode, RecentFails, LatestOpen, Length, CodesOK;
    var username := es[k].a.username;
    if Issues(es, m, username, email, code) {
      RowsStay(es, j + 1, m);
      RowsStay(es, m + 1, k);
      RedeemedRow(es, k, i);
      var at := |At(es, m).codes|;
      var _ := NewRow(At(es, m), es[m].a, es[m].now);
      assert SameRow(At(es, m + 1).codes[at], At(es, k).codes[at]);
      CodesAlwaysOK(es, k, es[k].now);
      RowAndPairs(At(es, k).codes, es[k].now, i);
    }
  }

  lemma NotOutlived(es: seq<Event>, j: nat, m: nat, k: nat, i: nat, i': nat)
    requires Timed(es) && j < m < k && Redeems(es, k, i) && |At(es, j + 1).codes| == i + 1
    requires Redeems(es, m, i')
    ensures es[m].a.username != es[k].a.username
  {
    hide Handle, CheckCode, RecentFails, LatestOpen, Length, CodesOK;
    RedeemedRow(es, m, i');
    RedeemedRow(es, k, i);
    RowsStay(es, j + 1, m);
    RowsStay(es, m, k);
    if es[m].a.username == es[k].a.username {
      assert SameRow(At(es, m).codes[i], At(es, k).codes[i]);
      CodesAlwaysOK(es, m, es[m].now);
      RowAndPairs(At(es, m).codes, es[m].now, i);
      if i' == i {
        RedeemedOnce(es, m, k, i);
      }
    }
  }
}
