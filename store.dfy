/** The database as the server actions see it: one mutable field per table. Every action
    is a method that performs the source's reads and writes one after another, and is
    proved to leave the tables exactly as the action's function in its own module says. */
module Store {
  import opened Schema
  import opened Json
  import Oaths
  import CheckIns
  import Friends
  import DbHelpers
  import Users
  import LeetCodeSolved
  import Text

  class Database {
    var users: map<nat, User>
    var nextUser: nat
    var oaths: map<nat, Oath>
    var nextOath: nat
    var participants: map<PKey, Participant>
    var checkIns: map<CKey, CheckIn>
    var disputes: map<CKey, Dispute>
    var friendships: map<nat, Friendship>
    var nextFriendship: nat

    /** The tables as one value. */
    function Snapshot(): Db
      reads this
    {
      Db(users, nextUser, oaths, nextOath, participants, checkIns, disputes, friendships, nextFriendship)
    }

    constructor (d: Db)
      ensures Snapshot() == d
    {
      users := d.users;
      nextUser := d.nextUser;
      oaths := d.oaths;
      nextOath := d.nextOath;
      participants := d.participants;
      checkIns := d.checkIns;
      disputes := d.disputes;
      friendships := d.friendships;
      nextFriendship := d.nextFriendship;
    }

    // -------------------------------------------------------------------------
    // Oaths

    /** `createSoloOath`: the oath with its one participant row, then the debit. */
    method CreateSoloOath(userId: nat, input: Oaths.SoloInput) returns (r: Result<nat>)
      modifies this
      ensures var s := Oaths.CreateSoloOath(old(Snapshot()), userId, input);
        Snapshot() == s.db && r == s.result
    {
      if input.title == "" || input.description == "" {
        return Err(MissingFields);
      }
      if input.stakeAmount < 0 {
        return Err(NegativeStake);
      }
      if input.startDate >= input.endDate {
        return Err(BadDates);
      }
      if userId !in users {
        return Err(UserNotFound);
      }
      if Balance(users[userId], input.currency) < input.stakeAmount {
        return Err(Oaths.ShortOf(input.currency));
      }
      var o := nextOath;
      oaths := oaths[o := Oath(input.title, input.description, input.oathType, ACTIVE, input.startDate,
                               input.endDate, input.stakeAmount, input.currency,
                               Oaths.SoloPrompt(input.title, input.description))];
      nextOath := o + 1;
      participants := participants[PKey(o, userId) := Oaths.NewRow(ACCEPTED, input.stakeAmount, true)];
      users := users[userId := Debit(users[userId], input.currency, input.stakeAmount)];
      return Ok(o);
    }

    /** `createOath`: the friendship check runs invitee by invitee, then the oath is
        created with one row per invitee, then the creator is debited. */
    method CreateOath(creator: nat, input: Oaths.OathInput) returns (r: Result<nat>)
      modifies this
      ensures var s := Oaths.CreateOath(old(Snapshot()), creator, input);
        Snapshot() == s.db && r == s.result
    {
      var d := Snapshot();
      var refused := CheckOath(d, creator, input);
      if refused.Some? {
        return Err(refused.value);
      }
      CreateOathWrites(d, creator, input);
      var o := InsertOath(creator, input);
      return Ok(o);
    }

    /** The writes of an accepted `createOath`: the oath with its nested participant rows,
        then the creator's debit. */
    method InsertOath(creator: nat, input: Oaths.OathInput) returns (o: nat)
      requires creator in users
      modifies this
      ensures o == old(nextOath)
      ensures Snapshot() == Oaths.Created(old(Snapshot()), creator, input)
    {
      ghost var d := Snapshot();
      var ids := Oaths.WithCreator(input.participantUserIds, creator);
      o := nextOath;
      oaths := oaths[o := Oath(input.title, input.description, input.oathType, PENDING, input.startDate,
                               input.endDate, input.stakeAmount, input.currency, input.verificationPrompt)];
      nextOath := o + 1;
      participants := CreateRows(participants, o, ids, creator, input.stakeAmount);
      users := users[creator := Debit(users[creator], input.currency, input.stakeAmount)];
      assert Snapshot() == d.(oaths := oaths, nextOath := nextOath, participants := participants, users := users);
    }

    /** `acceptOathInvitation`: the answer, the debit, then the start once everyone is in. */
    method AcceptOathInvitation(userId: nat, oathId: nat, now: int) returns (r: Result<bool>)
      modifies this
      ensures var s := Oaths.AcceptOathInvitation(old(Snapshot()), userId, oathId, now);
        Snapshot() == s.db && r == s.result
    {
      var k := PKey(oathId, userId);
      if k !in participants {
        return Err(InvitationNotFound);
      }
      var p := participants[k];
      if p.status == ACCEPTED {
        return Err(AlreadyAccepted);
      }
      if p.status != INVITED {
        return Err(InvitationInvalid);
      }
      if oathId !in oaths || userId !in users {
        return Err(Failed);
      }
      var oath := oaths[oathId];
      if Balance(users[userId], oath.currency) < p.stakeAmount {
        return Err(Oaths.ShortOf(oath.currency));
      }
      participants := participants[k := p.(status := ACCEPTED, stakePaid := true)];
      users := users[userId := Debit(users[userId], oath.currency, p.stakeAmount)];
      var all := Oaths.AllAccepted(participants, oathId);
      if all && oath.startDate <= now {
        oaths := oaths[oathId := oath.(status := ACTIVE)];
      }
      return Ok(all);
    }

    /** `declineOathInvitation`: the answer, then the cancellation. */
    method DeclineOathInvitation(userId: nat, oathId: nat) returns (r: Result<()>)
      modifies this
      ensures var s := Oaths.DeclineOathInvitation(old(Snapshot()), userId, oathId);
        Snapshot() == s.db && r == s.result
    {
      var k := PKey(oathId, userId);
      if k !in participants {
        return Err(InvitationNotFound);
      }
      if participants[k].status != INVITED {
        return Err(InvitationInvalid);
      }
      participants := participants[k := participants[k].(status := DECLINED)];
      if oathId !in oaths {
        return Err(Failed);
      }
      oaths := oaths[oathId := oaths[oathId].(status := CANCELLED)];
      return Ok(());
    }

    // -------------------------------------------------------------------------
    // Check-ins and disputes

    /** `createCheckIn`: the row, then the success counted at once. */
    method CreateCheckIn(input: CheckIns.CreateInput, now: int) returns (r: Result<CKey>)
      modifies this
      ensures var s := CheckIns.CreateCheckIn(old(Snapshot()), input, now);
        Snapshot() == s.db && r == s.result
    {
      var g := CheckIns.Gate(Snapshot(), input.oathId, input.userId);
      if g.Some? {
        return Err(g.value);
      }
      var key := CKey(input.oathId, input.userId, now);
      if key in checkIns {
        return Err(Failed);
      }
      checkIns := checkIns[key := CheckIn(Some(input.proofUrl), input.notes, None, now,
                                          PENDING_VERIFICATION, None, None)];
      var k := PKey(input.oathId, input.userId);
      participants := participants[k := CheckIns.Bump(participants[k], 1, 0, 0, 0)];
      return Ok(key);
    }

    /** `submitCheckIn`: the upsert of the row for the due date. */
    method SubmitCheckIn(input: CheckIns.SubmitInput, now: int) returns (r: Result<CKey>)
      modifies this
      ensures var s := CheckIns.SubmitCheckIn(old(Snapshot()), input, now);
        Snapshot() == s.db && r == s.result
    {
      var g := CheckIns.Gate(Snapshot(), input.oathId, input.userId);
      if g.Some? {
        return Err(g.value);
      }
      if !Filled(input.proofUrl) && !Filled(input.proofText) && !Filled(input.proofImageUrl) {
        return Err(NoProof);
      }
      var key := CKey(input.oathId, input.userId, input.dueDate);
      var prior := CheckIns.Lookup(checkIns, key);
      checkIns := checkIns[key := CheckIns.Submitted(prior, input, now)];
      return Ok(key);
    }

    /** `verifyCheckIn`: the verdict on the row, then one counter moves. */
    method VerifyCheckIn(key: CKey, isComplete: bool, reasoning: string, now: int) returns (r: Result<CheckIn>)
      modifies this
      ensures var s := CheckIns.VerifyCheckIn(old(Snapshot()), key, isComplete, reasoning, now);
        Snapshot() == s.db && r == s.result
    {
      if key !in checkIns {
        return Err(CheckInNotFound);
      }
      if checkIns[key].status != PENDING_VERIFICATION {
        return Err(AlreadyVerified);
      }
      var row := checkIns[key].(status := if isComplete then VERIFIED_COMPLETE else VERIFIED_INCOMPLETE,
                                aiVerificationResult := Some(reasoning), aiVerifiedAt := Some(now));
      checkIns := checkIns[key := row];
      var k := PKey(key.oath, key.user);
      if k in participants {
        var p := participants[k];
        if isComplete {
          participants := participants[k := p.(successCount := p.successCount + 1)];
        } else {
          participants := participants[k := p.(failureCount := p.failureCount + 1)];
        }
      }
      return Ok(row);
    }

    /** `createDispute`: the dispute row, then the check-in marked DISPUTED. */
    method CreateDispute(key: CKey, userId: nat, reason: string) returns (r: Result<CKey>)
      modifies this
      ensures var s := CheckIns.CreateDispute(old(Snapshot()), key, userId, reason);
        Snapshot() == s.db && r == s.result
    {
      if key !in checkIns {
        return Err(CheckInNotFound);
      }
      if key.user != userId {
        return Err(NotOwner);
      }
      if checkIns[key].status != VERIFIED_INCOMPLETE {
        return Err(NotIncomplete);
      }
      if key in disputes {
        return Err(DisputeExists);
      }
      if key.oath !in oaths {
        return Err(Failed);
      }
      var rival := CheckIns.Rival(Snapshot(), key.oath, userId);
      if rival.None? {
        return Err(NoRival);
      }
      disputes := disputes[key := Dispute(userId, rival.value, reason, OPEN, None, None, None)];
      checkIns := checkIns[key := checkIns[key].(status := DISPUTED)];
      return Ok(key);
    }

    /** `resolveDispute`: the dispute, then the check-in, then the counters. */
    method ResolveDispute(key: CKey, judgeId: nat, isComplete: bool, notes: Option<string>, now: int)
      returns (r: Result<Dispute>)
      modifies this
      ensures var s := CheckIns.ResolveDispute(old(Snapshot()), key, judgeId, isComplete, notes, now);
        Snapshot() == s.db && r == s.result
    {
      if key !in disputes {
        return Err(DisputeNotFound);
      }
      var dp := disputes[key];
      if dp.judge != judgeId {
        return Err(NotJudge);
      }
      if dp.status != OPEN {
        return Err(AlreadyResolved);
      }
      var dp' := dp.(status := RESOLVED, outcome := Some(if isComplete then COMPLETE else INCOMPLETE),
                     judgeNotes := CheckIns.Override(dp.judgeNotes, notes), resolvedAt := Some(now));
      disputes := disputes[key := dp'];
      if key !in checkIns {
        return Err(Failed);
      }
      checkIns := checkIns[key := checkIns[key].(status := if isComplete then RESOLVED_COMPLETE else RESOLVED_INCOMPLETE)];
      var k := PKey(key.oath, key.user);
      if k in participants {
        var p := participants[k];
        if isComplete {
          participants := participants[k := p.(successCount := p.successCount + 1,
                                               failureCount := p.failureCount - 1,
                                               disputesWon := p.disputesWon + 1)];
        } else {
          participants := participants[k := p.(disputesLost := p.disputesLost + 1)];
        }
      }
      return Ok(dp');
    }

    // -------------------------------------------------------------------------
    // Friendships

    /** `addFriendByEmail`: the lookups, then the new PENDING row. */
    method AddFriendByEmail(currentUserId: nat, friendEmail: string) returns (r: Result<nat>)
      modifies this
      ensures var s := Friends.AddFriendByEmail(old(Snapshot()), currentUserId, friendEmail);
        Snapshot() == s.db && r == s.result
    {
      if friendEmail == "" {
        return Err(MissingFields);
      }
      var normalized := Friends.NormalizeEmail(friendEmail);
      if currentUserId !in users {
        return Err(UserNotFound);
      }
      if Text.ToLower(users[currentUserId].email) == normalized {
        return Err(SelfFriend);
      }
      var friend := DbHelpers.UserByEmail(Snapshot(), normalized);
      if friend.None? {
        return Err(UserNotFound);
      }
      var existing := Friends.Between(Snapshot(), currentUserId, friend.value);
      if existing.Some? {
        var status := friendships[existing.value].status;
        if status == FRIENDS {
          return Err(AlreadyFriends);
        }
        if status == REQUESTED {
          return Err(RequestPending);
        }
        if status == BLOCKED {
          return Err(Blocked);
        }
      }
      var f := nextFriendship;
      friendships := friendships[f := Friendship(currentUserId, friend.value, REQUESTED)];
      nextFriendship := f + 1;
      return Ok(f);
    }

    /** `acceptFriendRequest`. */
    method AcceptFriendRequest(currentUserId: nat, friendshipId: nat) returns (r: Result<Friendship>)
      modifies this
      ensures var s := Friends.AcceptFriendRequest(old(Snapshot()), currentUserId, friendshipId);
        Snapshot() == s.db && r == s.result
    {
      if friendshipId !in friendships {
        return Err(RequestNotFound);
      }
      var f := friendships[friendshipId];
      if f.receiver != currentUserId {
        return Err(NotReceiver);
      }
      if f.status == FRIENDS {
        return Err(AlreadyFriends);
      }
      if f.status != REQUESTED {
        return Err(RequestInvalid);
      }
      var g := f.(status := FRIENDS);
      friendships := friendships[friendshipId := g];
      return Ok(g);
    }

    /** `rejectFriendRequest`. */
    method RejectFriendRequest(currentUserId: nat, friendshipId: nat) returns (r: Result<()>)
      modifies this
      ensures var s := Friends.RejectFriendRequest(old(Snapshot()), currentUserId, friendshipId);
        Snapshot() == s.db && r == s.result
    {
      if friendshipId !in friendships {
        return Err(RequestNotFound);
      }
      var f := friendships[friendshipId];
      if f.receiver != currentUserId {
        return Err(NotReceiver);
      }
      friendships := friendships[friendshipId := f.(status := REJECTED)];
      return Ok(());
    }

    /** `removeFriend`. */
    method RemoveFriend(currentUserId: nat, friendshipId: nat) returns (r: Result<()>)
      modifies this
      ensures var s := Friends.RemoveFriend(old(Snapshot()), currentUserId, friendshipId);
        Snapshot() == s.db && r == s.result
    {
      if friendshipId !in friendships {
        return Err(RequestNotFound);
      }
      var f := friendships[friendshipId];
      if f.initiator != currentUserId && f.receiver != currentUserId {
        return Err(NotMember);
      }
      friendships := friendships - {friendshipId};
      return Ok(());
    }

    // -------------------------------------------------------------------------
    // Users

    /** `getOrCreateUserFromFirebase`: the changed profile fields are collected one by one
        and written only when there is at least one. */
    method GetOrCreateUser(account: Option<DbHelpers.Account>, gems: int, credits: int) returns (r: Result<nat>)
      modifies this
      ensures var s := DbHelpers.GetOrCreateUser(old(Snapshot()), account, gems, credits);
        Snapshot() == s.db && r == s.result
    {
      if account.None? {
        return Err(MissingFields);
      }
      var a := account.value;
      var found := DbHelpers.UserByUid(Snapshot(), a.uid);
      if found.Some? {
        var i := found.value;
        var u := users[i];
        var updates := u;
        var changed := false;
        if Filled(a.displayName) && a.displayName != u.displayName {
          updates := updates.(displayName := a.displayName);
          changed := true;
        }
        if Filled(a.photoURL) && a.photoURL != u.photoURL {
          updates := updates.(photoURL := a.photoURL);
          changed := true;
        }
        if changed {
          users := users[i := updates];
        }
        return Ok(i);
      }
      if a.email.None? || DbHelpers.UserByEmail(Snapshot(), a.email.value).Some? {
        return Err(Failed);
      }
      var id := nextUser;
      users := users[id := User(a.uid, a.email.value, a.displayName, a.photoURL, gems, credits, None)];
      nextUser := id + 1;
      return Ok(id);
    }

    /** `updateUserCredits`: an increment of the credit column. */
    method UpdateUserCredits(userId: nat, amount: int) returns (r: Result<()>)
      modifies this
      ensures var s := DbHelpers.UpdateUserCredits(old(Snapshot()), userId, amount);
        Snapshot() == s.db && r == s.result
    {
      if userId !in users {
        return Err(Failed);
      }
      users := users[userId := users[userId].(credits := users[userId].credits + amount)];
      return Ok(());
    }

    /** `updateLeetCodeUsername`. */
    method UpdateLeetCodeUsername(userId: nat, name: string) returns (r: Result<User>)
      modifies this
      ensures var s := Users.UpdateLeetCodeUsername(old(Snapshot()), userId, name);
        Snapshot() == s.db && r == s.result
    {
      if userId !in users {
        return Err(Failed);
      }
      var u := users[userId].(leetcodeUsername := Users.NormalizeUsername(name));
      users := users[userId := u];
      return Ok(u);
    }

    // -------------------------------------------------------------------------
    // The LeetCode webhook

    /** `POST /api/leetcode-solved`: for each linked user, for each of their daily oaths,
        the day's row is upserted and, unless the day was already complete, one success
        is counted; `processed` counts the pairs. */
    method PostLeetCodeSolved(raw: JVal, now: int) returns (reply: LeetCodeSolved.Reply)
      modifies this
      ensures var s := LeetCodeSolved.LeetCodeSolved(old(Snapshot()), raw, now);
        Snapshot() == s.db && reply == s.reply
    {
      var p := LeetCodeSolved.ReadPayload(raw);
      if p.None? {
        return LeetCodeSolved.BadRequest;
      }
      var v := LeetCodeSolved.SolveOf(p.value, now);
      var d := Snapshot();
      var us := LeetCodeSolved.Solvers(d, p.value.username);
      if us == [] {
        return LeetCodeSolved.Processed(0);
      }
      var processed: nat := 0;
      ghost var done: seq<PKey> := [];
      for i := 0 to |us|
        invariant done == LeetCodeSolved.PairsOf(d, us[..i]) && processed == |done|
        invariant Snapshot() == LeetCodeSolved.RecordAll(d, done, v)
        invariant !LeetCodeSolved.InTimeRange(v.ts) ==> done == []
      {
        var u := us[i];
        PairsStayPut(d, done, v, u);
        var os := LeetCodeSolved.OathPairs(Snapshot(), u);
        // the first upsert keyed by an invalid day start throws
        if os != [] && !LeetCodeSolved.InTimeRange(v.ts) {
          assert os[0] in os;
          TargetsNotEmpty(d, us, i, os[0]);
          return LeetCodeSolved.ServerError;
        }
        RecordPairs(d, done, os, v);
        processed := processed + |os|;
        PairsOfStep(d, us, i);
        done := done + os;
      }
      assert us[..|us|] == us;
      return LeetCodeSolved.Processed(processed);
    }

    /** The inner loop of the webhook: the pairs `os` of one user, in order. */
    method RecordPairs(ghost d: Db, ghost done: seq<PKey>, os: seq<PKey>, v: LeetCodeSolved.Solve)
      requires Snapshot() == LeetCodeSolved.RecordAll(d, done, v)
      modifies this
      ensures Snapshot() == LeetCodeSolved.RecordAll(d, done + os, v)
    {
      assert done + os[..0] == done;
      for j := 0 to |os|
        invariant Snapshot() == LeetCodeSolved.RecordAll(d, done + os[..j], v)
      {
        ghost var before := done + os[..j];
        RecordPair(os[j], v);
        assert done + os[..j + 1] == before + [os[j]];
        LeetCodeSolved.RecordAllSnoc(d, before, os[j], v);
      }
      assert os[..|os|] == os;
    }

    /** One iteration of the inner loop: the day's row is upserted, then one success is
        counted unless the day was already complete. */
    method RecordPair(k: PKey, v: LeetCodeSolved.Solve)
      modifies this
      ensures Snapshot() == LeetCodeSolved.Record(old(Snapshot()), k, v)
    {
      var key := LeetCodeSolved.DayKey(k, v.day);
      var alreadyComplete := key in checkIns && IsComplete(checkIns[key].status);
      if key in checkIns {
        checkIns := checkIns[key := LeetCodeSolved.Stamp(checkIns[key], v)];
      } else {
        checkIns := checkIns[key := CheckIn(Some(LeetCodeSolved.ProofUrl(v.titleSlug)),
                                            Some(LeetCodeSolved.ProofText(v.title)), None, v.ts,
                                            VERIFIED_COMPLETE, Some(LeetCodeSolved.AutoVerdict), Some(v.now))];
      }
      if !alreadyComplete && k in participants {
        participants := participants[k := participants[k].(successCount := participants[k].successCount + 1)];
      }
    }
  }

  /** The checks `createOath` runs before its first write, in the source's order: the
      error it reports, or nothing when the oath can be created. */
  method CheckOath(d: Db, creator: nat, input: Oaths.OathInput) returns (refused: Option<Error>)
    ensures refused.Some? ==> Oaths.CreateOath(d, creator, input) == Step(d, Err(refused.value))
    ensures refused.None? <==> Oaths.CreateOath(d, creator, input).result.Ok?
  {
    if input.title == "" || input.description == "" {
      return Some(MissingFields);
    }
    if |input.participantUserIds| == 0 {
      return Some(NoParticipants);
    }
    var ids := input.participantUserIds;
    if creator !in ids {
      ids := ids + [creator];
    }
    assert ids == Oaths.WithCreator(input.participantUserIds, creator);
    if |ids| < 2 {
      return Some(TooFewParticipants);
    }
    if input.stakeAmount < 0 {
      return Some(NegativeStake);
    }
    if input.startDate >= input.endDate {
      return Some(BadDates);
    }
    var friends := CheckFriends(d, creator, ids);
    if !friends {
      return Some(NotFriends);
    }
    if creator !in d.users {
      return Some(UserNotFound);
    }
    if Balance(d.users[creator], input.currency) < input.stakeAmount {
      return Some(Oaths.ShortOf(input.currency));
    }
    if !Oaths.Distinct(ids) {
      return Some(Failed);
    }
    return None;
  }

  /** A successful `createOath` writes exactly `Oaths.Created`. */
  lemma CreateOathWrites(d: Db, creator: nat, input: Oaths.OathInput)
    requires Oaths.CreateOath(d, creator, input).result.Ok?
    ensures creator in d.users
    ensures Oaths.CreateOath(d, creator, input) == Step(Oaths.Created(d, creator, input), Ok(d.nextOath))
  {
  }

  /** `createOath`'s friendship check, invitee by invitee: a `findFirst` for an ACCEPTED
      row in either direction, stopping at the first invitee without one. */
  method CheckFriends(d: Db, creator: nat, ids: seq<nat>) returns (ok: bool)
    ensures ok == Oaths.AllFriends(d, creator, ids)
  {
    for i := 0 to |ids|
      invariant forall j :: 0 <= j < i && ids[j] != creator ==> DbHelpers.AreFriends(d, creator, ids[j])
    {
      if ids[i] != creator && !DbHelpers.AreFriends(d, creator, ids[i]) {
        return false;
      }
    }
    return true;
  }

  /** The nested create of `createOath`: one row per invitee, in list order. */
  method CreateRows(ps: map<PKey, Participant>, o: nat, ids: seq<nat>, creator: nat, stake: int)
    returns (r: map<PKey, Participant>)
    ensures r == Oaths.AddRows(ps, o, ids, creator, stake)
  {
    r := ps;
    for k := 0 to |ids|
      invariant r == Oaths.AddRows(ps, o, ids[..k], creator, stake)
    {
      assert ids[..k + 1][..k] == ids[..k];
      r := r[PKey(o, ids[k]) := Oaths.InviteRow(ids[k], creator, stake)];
    }
    assert ids[..|ids|] == ids;
  }

  /** The loops never change which oaths a user is visited for. */
  lemma PairsStayPut(d: Db, done: seq<PKey>, v: LeetCodeSolved.Solve, u: nat)
    ensures LeetCodeSolved.OathPairs(LeetCodeSolved.RecordAll(d, done, v), u) == LeetCodeSolved.OathPairs(d, u)
  {
    LeetCodeSolved.RecordAllFrame(d, done, v);
    LeetCodeSolved.OathPairsUnmoved(d, LeetCodeSolved.RecordAll(d, done, v), u);
  }

  /** The outer loop visits the users in order: one more user adds that user's pairs. */
  lemma PairsOfStep(d: Db, us: seq<nat>, i: nat)
    requires i < |us|
    ensures LeetCodeSolved.PairsOf(d, us[..i + 1]) == LeetCodeSolved.PairsOf(d, us[..i]) + LeetCodeSolved.OathPairs(d, us[i])
  {
    assert us[..i + 1][..i] == us[..i];
  }

  /** A pair the loops reach is a target, so the pairs are not empty. */
  lemma TargetsNotEmpty(d: Db, us: seq<nat>, i: nat, k: PKey)
    requires i < |us|
    requires k in LeetCodeSolved.OathPairs(d, us[i])
    ensures LeetCodeSolved.PairsOf(d, us) != []
  {
    var os := LeetCodeSolved.DailyOaths(d, us[i]);
    var n :| 0 <= n < |os| && LeetCodeSolved.OathPairs(d, us[i])[n] == k;
    assert os[n] in os;
    assert k in LeetCodeSolved.PairsOf(d, us);
  }
}
