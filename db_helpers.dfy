/** The database helpers: syncing a signed-in account into the user table, crediting a
    balance, and the friendship queries. */
module DbHelpers {
  import opened Schema
  import opened Ledger

  /** The signed-in account as the authentication provider reports it. */
  datatype Account = Account(uid: string, email: Option<string>, displayName: Option<string>, photoURL: Option<string>)

  /** `getUserByFirebaseUid`: the row with this account id. */
  function UserByUid(d: Db, uid: string): (r: Option<nat>)
    ensures r.Some? ==> r.value in d.users && d.users[r.value].firebaseUid == uid
    ensures r.None? ==> forall i :: i in d.users && i < d.nextUser ==> d.users[i].firebaseUid != uid
  {
    var p := (i: nat) => i in d.users && d.users[i].firebaseUid == uid;
    var r := Lowest(p, d.nextUser);
    assert forall i: nat :: p(i) == (i in d.users && d.users[i].firebaseUid == uid);
    r
  }

  /** `getUserByEmail`: the row whose email is exactly `email` (no case folding). */
  function UserByEmail(d: Db, email: string): (r: Option<nat>)
    ensures r.Some? ==> r.value in d.users && d.users[r.value].email == email
    ensures r.None? ==> forall i :: i in d.users && i < d.nextUser ==> d.users[i].email != email
  {
    var p := (i: nat) => i in d.users && d.users[i].email == email;
    var r := Lowest(p, d.nextUser);
    assert forall i: nat :: p(i) == (i in d.users && d.users[i].email == email);
    r
  }

  /** Whether the account's profile differs from the stored row in a field it would overwrite. */
  predicate ProfileChanged(u: User, a: Account) {
    (Filled(a.displayName) && a.displayName != u.displayName) || (Filled(a.photoURL) && a.photoURL != u.photoURL)
  }

  /** The stored row after the sync: each profile field the account reports is copied over. */
  function Synced(u: User, a: Account): (r: User)
    ensures r.displayName == (if Filled(a.displayName) then a.displayName else u.displayName)
    ensures r.photoURL == (if Filled(a.photoURL) then a.photoURL else u.photoURL)
    ensures r.(displayName := u.displayName, photoURL := u.photoURL) == u
    ensures !ProfileChanged(u, a) <==> r == u
  {
    var u1 := if Filled(a.displayName) && a.displayName != u.displayName then u.(displayName := a.displayName) else u;
    if Filled(a.photoURL) && a.photoURL != u.photoURL then u1.(photoURL := a.photoURL) else u1
  }

  /** `getOrCreateUserFromFirebase`. A new row starts with the column defaults `gems` and `credits`. */
  function GetOrCreateUser(d: Db, account: Option<Account>, gems: int, credits: int): (s: Step<nat>)
    ensures s.result.Err? ==> s.db == d
    ensures account.None? ==> s.result == Err(MissingFields)
    ensures account.Some? && UserByUid(d, account.value.uid).Some? ==>
      var i := UserByUid(d, account.value.uid).value;
      var u := d.users[i];
      var a := account.value;
      s.result == Ok(i) && s.db.(users := d.users) == d && s.db.users.Keys == d.users.Keys &&
      (forall j :: j in d.users && j != i ==> s.db.users[j] == d.users[j]) &&
      s.db.users[i].displayName == (if Filled(a.displayName) then a.displayName else u.displayName) &&
      s.db.users[i].photoURL == (if Filled(a.photoURL) then a.photoURL else u.photoURL) &&
      s.db.users[i].(displayName := u.displayName, photoURL := u.photoURL) == u &&
      (!ProfileChanged(u, a) ==> s.db == d)
    ensures account.Some? && UserByUid(d, account.value.uid).None? ==>
      var a := account.value;
      (s.result.Ok? <==> a.email.Some? && UserByEmail(d, a.email.value).None?) &&
      (s.result.Ok? ==>
        s.result.value == d.nextUser &&
        s.db == d.(users := d.users[d.nextUser := User(a.uid, a.email.value, a.displayName, a.photoURL,
                                                       gems, credits, None)],
                   nextUser := d.nextUser + 1))
  {
    if account.None? then Step(d, Err(MissingFields))
    else
      var a := account.value;
      var found := UserByUid(d, a.uid);
      if found.Some? then
        var i := found.value;
        if ProfileChanged(d.users[i], a) then Step(d.(users := d.users[i := Synced(d.users[i], a)]), Ok(i))
        else Step(d, Ok(i))
      // a missing email violates the required column; a taken one the unique constraint
      else if a.email.None? || UserByEmail(d, a.email.value).Some? then Step(d, Err(Failed))
      else
        var u := User(a.uid, a.email.value, a.displayName, a.photoURL, gems, credits, None);
        Step(d.(users := d.users[d.nextUser := u], nextUser := d.nextUser + 1), Ok(d.nextUser))
  }

  /** Two tables whose rows carry the same account ids find the same row for every uid. */
  lemma UserByUidOfSameUids(d: Db, e: Db, uid: string)
    requires e.users.Keys == d.users.Keys && e.nextUser == d.nextUser
    requires forall i :: i in d.users ==> e.users[i].firebaseUid == d.users[i].firebaseUid
    ensures UserByUid(e, uid) == UserByUid(d, uid)
  {
    var p := (i: nat) => i in d.users && d.users[i].firebaseUid == uid;
    var q := (i: nat) => i in e.users && e.users[i].firebaseUid == uid;
    LowestExt(p, q, d.nextUser);
  }

  /** Syncing the same account again finds the same row and writes nothing. */
  lemma GetOrCreateIdempotent(d: Db, account: Option<Account>, gems: int, credits: int)
    requires IdsFresh(d)
    ensures var s1 := GetOrCreateUser(d, account, gems, credits);
      GetOrCreateUser(s1.db, account, gems, credits) == s1
  {
    var s1 := GetOrCreateUser(d, account, gems, credits);
    if s1.result.Ok? {
      var a := account.value;
      var e := s1.db;
      if UserByUid(d, a.uid).Some? {
        UserByUidOfSameUids(d, e, a.uid);
      } else {
        var n := d.nextUser;
        var p := (i: nat) => i in d.users && d.users[i].firebaseUid == a.uid;
        var q := (i: nat) => i in e.users && e.users[i].firebaseUid == a.uid;
        assert forall i: nat :: i < n ==> p(i) == q(i);
        LowestExt(p, q, n);
        assert q(n);
        assert Lowest(q, n + 1) == Some(n);
        assert UserByUid(e, a.uid) == Some(n);
      }
    }
  }

  /** Syncing an account brings money into the system only when it creates a row: exactly
      the column defaults. It keeps the invariant, and the table solvent when the
      defaults are non-negative. */
  lemma GetOrCreateUserMoves(d: Db, account: Option<Account>, gems: int, credits: int)
    requires Valid(d)
    ensures var s := GetOrCreateUser(d, account, gems, credits);
      var created := account.Some? && UserByUid(d, account.value.uid).None? && s.result.Ok?;
      Total(s.db, GEMS) == Total(d, GEMS) + (if created then gems else 0) &&
      Total(s.db, REAL_MONEY) == Total(d, REAL_MONEY) + (if created then credits else 0) &&
      Valid(s.db) && (Solvent(d) && gems >= 0 && credits >= 0 ==> Solvent(s.db))
  {
    var s := GetOrCreateUser(d, account, gems, credits);
    if account.Some? && s.result.Ok? {
      var a := account.value;
      var found := UserByUid(d, a.uid);
      if found.Some? {
        var i := found.value;
        var u := Synced(d.users[i], a);
        assert s.db == d.(users := d.users[i := u]);
        SyncTotal(d, i, u, GEMS);
        SyncTotal(d, i, u, REAL_MONEY);
        BalancesOnlyValid(d, s.db);
      } else {
        var u := User(a.uid, a.email.value, a.displayName, a.photoURL, gems, credits, None);
        assert s.db == d.(users := d.users[d.nextUser := u], nextUser := d.nextUser + 1);
        NewUserTotal(d, u, GEMS);
        NewUserTotal(d, u, REAL_MONEY);
        NewUserValid(d, u);
      }
    }
  }

  /** Rewriting a user row with the same balances leaves every total alone. */
  lemma SyncTotal(d: Db, i: nat, u: User, c: Currency)
    requires i in d.users && u.gems == d.users[i].gems && u.credits == d.users[i].credits
    ensures Total(d.(users := d.users[i := u]), c) == Total(d, c)
  {
    BalancesUpdate(d.users, i, u, c);
    TotalOfBalances(d, d.(users := d.users[i := u]), c, 0);
  }

  /** A new user row adds its own balances to the totals. */
  lemma NewUserTotal(d: Db, u: User, c: Currency)
    requires IdsFresh(d)
    ensures Total(d.(users := d.users[d.nextUser := u], nextUser := d.nextUser + 1), c) ==
            Total(d, c) + Balance(u, c)
  {
    assert d.nextUser !in d.users;
    BalancesInsert(d.users, d.nextUser, u, c);
    TotalOfBalances(d, d.(users := d.users[d.nextUser := u], nextUser := d.nextUser + 1), c, Balance(u, c));
  }

  /** A new user row under a fresh id keeps the invariant, and solvency when its
      balances are non-negative. */
  lemma NewUserValid(d: Db, u: User)
    requires Valid(d)
    ensures var e := d.(users := d.users[d.nextUser := u], nextUser := d.nextUser + 1);
      Valid(e) && (Solvent(d) && u.gems >= 0 && u.credits >= 0 ==> Solvent(e))
  {
    var e := d.(users := d.users[d.nextUser := u], nextUser := d.nextUser + 1);
    forall o | o in e.oaths && e.oaths[o].status == CANCELLED
      ensures HasDecliner(e, o)
    {
      var k :| k in d.participants && k.oath == o && d.participants[k].status == DECLINED;
      assert k in e.participants;
    }
  }

  /** `updateUserCredits`: add `amount` (negative to withdraw) to the credit balance. */
  function UpdateUserCredits(d: Db, userId: nat, amount: int): (s: Step<()>)
    ensures s.result.Err? ==> s.db == d
    ensures s.result.Ok? <==> userId in d.users
    ensures s.result.Ok? ==>
      s.db.(users := d.users) == d && s.db.users.Keys == d.users.Keys &&
      s.db.users[userId].credits == d.users[userId].credits + amount &&
      s.db.users[userId].(credits := d.users[userId].credits) == d.users[userId] &&
      forall j :: j in d.users && j != userId ==> s.db.users[j] == d.users[j]
  {
    // updating a missing row throws
    if userId !in d.users then Step(d, Err(Failed))
    else
      var u := d.users[userId];
      Step(d.(users := d.users[userId := u.(credits := u.credits + amount)]), Ok(()))
  }

  /** Crediting an existing user creates or destroys exactly `amount` of credits and no
      gems. It keeps the invariant, and the table solvent while the new balance is
      non-negative. */
  lemma UpdateUserCreditsMoves(d: Db, userId: nat, amount: int)
    requires Valid(d)
    requires userId in d.users
    ensures var e := UpdateUserCredits(d, userId, amount).db;
      Total(e, REAL_MONEY) == Total(d, REAL_MONEY) + amount && Total(e, GEMS) == Total(d, GEMS) &&
      Valid(e) && (Solvent(d) && d.users[userId].credits + amount >= 0 ==> Solvent(e))
  {
    var u := d.users[userId];
    assert UpdateUserCredits(d, userId, amount).db == d.(users := d.users[userId := Debit(u, REAL_MONEY, -amount)]);
    CreditMoves(d, userId, amount);
  }

  /** The store with `amount` credited to user `i`, stated on the new row itself. */
  lemma CreditMoves(d: Db, i: nat, amount: int)
    requires Valid(d)
    requires i in d.users
    ensures var e := d.(users := d.users[i := Debit(d.users[i], REAL_MONEY, -amount)]);
      Total(e, REAL_MONEY) == Total(d, REAL_MONEY) + amount && Total(e, GEMS) == Total(d, GEMS) &&
      Valid(e) && (Solvent(d) && d.users[i].credits + amount >= 0 ==> Solvent(e))
  {
    var e := d.(users := d.users[i := Debit(d.users[i], REAL_MONEY, -amount)]);
    BalancesOnlyValid(d, e);
    if Solvent(d) && d.users[i].credits + amount >= 0 {
      assert -amount <= Balance(d.users[i], REAL_MONEY);
      SolventDebit(d, e, i, REAL_MONEY, -amount);
    }
    CreditTotal(d, i, amount, REAL_MONEY);
    CreditTotal(d, i, amount, GEMS);
  }

  /** Crediting changes the credit total by `amount` and leaves the gem total alone. */
  lemma CreditTotal(d: Db, i: nat, amount: int, c: Currency)
    requires i in d.users
    ensures var e := d.(users := d.users[i := Debit(d.users[i], REAL_MONEY, -amount)]);
      Total(e, c) == Total(d, c) + (if c == REAL_MONEY then amount else 0)
  {
    var e := d.(users := d.users[i := Debit(d.users[i], REAL_MONEY, -amount)]);
    BalancesDebit(d.users, i, REAL_MONEY, -amount, c);
    TotalOfBalances(d, e, c, if c == REAL_MONEY then amount else 0);
  }

  /** Rewriting user rows in place keeps the invariant. */
  lemma BalancesOnlyValid(d: Db, e: Db)
    requires Valid(d)
    requires e == d.(users := e.users) && e.users.Keys == d.users.Keys
    ensures Valid(e)
  {
  }

  /** `areFriends`: some ACCEPTED friendship joins the two users, in either direction. */
  predicate AreFriends(d: Db, a: nat, b: nat) {
    exists f :: f in d.friendships && d.friendships[f].status == FRIENDS && Links(d.friendships[f], a, b)
  }

  lemma AreFriendsSymmetric(d: Db, a: nat, b: nat)
    ensures AreFriends(d, a, b) <==> AreFriends(d, b, a)
  {
  }

  /** The party of `f` that is not `u`. */
  function OtherParty(f: Friendship, u: nat): nat {
    if f.initiator == u then f.receiver else f.initiator
  }

  predicate Involves(f: Friendship, u: nat) { f.initiator == u || f.receiver == u }

  /** The ACCEPTED friendships `u` takes part in, in ascending id. */
  function AcceptedOf(d: Db, u: nat): (r: seq<nat>)
    ensures forall f: nat :: f in r <==>
      f < d.nextFriendship && f in d.friendships && d.friendships[f].status == FRIENDS && Involves(d.friendships[f], u)
  {
    var p := (f: nat) => f in d.friendships && d.friendships[f].status == FRIENDS && Involves(d.friendships[f], u);
    var r := Upto(p, d.nextFriendship);
    assert forall f: nat :: p(f) == (f in d.friendships && d.friendships[f].status == FRIENDS && Involves(d.friendships[f], u));
    r
  }

  /** `getUserFriends`: the other party of each of `u`'s ACCEPTED friendships. */
  function UserFriends(d: Db, u: nat): (r: seq<nat>)
    ensures |r| == |AcceptedOf(d, u)|
    ensures forall i :: 0 <= i < |r| ==>
      AcceptedOf(d, u)[i] in d.friendships && r[i] == OtherParty(d.friendships[AcceptedOf(d, u)[i]], u)
  {
    var fs := AcceptedOf(d, u);
    assert forall i :: 0 <= i < |fs| ==> fs[i] in fs;
    seq(|fs|, i requires 0 <= i < |fs| => OtherParty(d.friendships[fs[i]], u))
  }

  /** The friend list and the friendship test agree: `x` is listed exactly when the two are friends. */
  lemma UserFriendsAreFriends(d: Db, u: nat, x: nat)
    requires IdsFresh(d)
    ensures x in UserFriends(d, u) <==> AreFriends(d, u, x)
  {
    if x in UserFriends(d, u) {
      ListedAreFriends(d, u, x);
    }
    if AreFriends(d, u, x) {
      FriendsAreListed(d, u, x);
    }
  }

  lemma ListedAreFriends(d: Db, u: nat, x: nat)
    requires x in UserFriends(d, u)
    ensures AreFriends(d, u, x)
  {
    var fs := AcceptedOf(d, u);
    var r := UserFriends(d, u);
    var i :| 0 <= i < |r| && r[i] == x;
    assert fs[i] in fs;
    assert Links(d.friendships[fs[i]], u, x);
  }

  lemma FriendsAreListed(d: Db, u: nat, x: nat)
    requires IdsFresh(d) && AreFriends(d, u, x)
    ensures x in UserFriends(d, u)
  {
    var fs := AcceptedOf(d, u);
    var r := UserFriends(d, u);
    var f :| f in d.friendships && d.friendships[f].status == FRIENDS && Links(d.friendships[f], u, x);
    assert f in fs;
    var i :| 0 <= i < |fs| && fs[i] == f;
    assert r[i] == x;
  }
}
