/** Check-ins and disputes: proof submission, the one-shot verification that counts a
    success or a failure, and the arbitration that can turn a failure into a success. */
module CheckIns {
  import opened Schema
  import opened Ledger

  datatype CreateInput = CreateInput(oathId: nat, userId: nat, proofUrl: string, notes: Option<string>)

  datatype SubmitInput = SubmitInput(
    oathId: nat,
    userId: nat,
    dueDate: int,
    proofUrl: Option<string>,
    proofText: Option<string>,
    proofImageUrl: Option<string>)

  /** A Prisma update field: an absent value leaves the column as it was. */
  function Override<T>(current: Option<T>, given: Option<T>): (r: Option<T>)
    ensures given.Some? ==> r == given
    ensures given.None? ==> r == current
  {
    if given.Some? then given else current
  }

  /** The guard both check-in actions start with: an ACCEPTED participant of an ACTIVE oath. */
  function Gate(d: Db, oathId: nat, userId: nat): (r: Option<Error>)
    ensures r.None? <==>
      PKey(oathId, userId) in d.participants && d.participants[PKey(oathId, userId)].status == ACCEPTED &&
      oathId in d.oaths && d.oaths[oathId].status == ACTIVE
  {
    var k := PKey(oathId, userId);
    if k !in d.participants || d.participants[k].status != ACCEPTED then Some(NotParticipant)
    // the included oath is dereferenced; a missing row throws
    else if oathId !in d.oaths then Some(Failed)
    else if d.oaths[oathId].status != ACTIVE then Some(OathNotActive)
    else None
  }

  function Bump(p: Participant, success: int, failure: int, won: int, lost: int): Participant {
    p.(successCount := p.successCount + success, failureCount := p.failureCount + failure,
       disputesWon := p.disputesWon + won, disputesLost := p.disputesLost + lost)
  }

  /** `createCheckIn`: a new PENDING_VERIFICATION row due now, and one success counted
      straight away, before any verification. */
  function CreateCheckIn(d: Db, input: CreateInput, now: int): (s: Step<CKey>)
    ensures s.result.Err? ==> s.db == d
    ensures s.result.Ok? <==>
      Gate(d, input.oathId, input.userId).None? && CKey(input.oathId, input.userId, now) !in d.checkIns
    ensures s.result.Ok? ==>
      var key := CKey(input.oathId, input.userId, now);
      var k := PKey(input.oathId, input.userId);
      s.result.value == key &&
      s.db == d.(checkIns := d.checkIns[key := CheckIn(Some(input.proofUrl), input.notes, None, now,
                                                     PENDING_VERIFICATION, None, None)],
                 participants := d.participants[k := Bump(d.participants[k], 1, 0, 0, 0)])
  {
    var g := Gate(d, input.oathId, input.userId);
    if g.Some? then Step(d, Err(g.value))
    else
      var key := CKey(input.oathId, input.userId, now);
      // a second row with the same due date violates the unique constraint
      if key in d.checkIns then Step(d, Err(Failed))
      else
        var d1 := d.(checkIns := d.checkIns[key := CheckIn(Some(input.proofUrl), input.notes, None, now,
                                                         PENDING_VERIFICATION, None, None)]);
        var k := PKey(input.oathId, input.userId);
        Step(d1.(participants := d1.participants[k := Bump(d1.participants[k], 1, 0, 0, 0)]), Ok(key))
  }

  /** The row `submitCheckIn` leaves for its key, given the row already there, if any. */
  function Submitted(prior: Option<CheckIn>, input: SubmitInput, now: int): (c: CheckIn)
    ensures c.status == PENDING_VERIFICATION && c.submittedAt == now
    ensures prior.None? ==>
      c == CheckIn(input.proofUrl, input.proofText, input.proofImageUrl, now, PENDING_VERIFICATION, None, None)
    ensures prior.Some? ==>
      c.aiVerificationResult == prior.value.aiVerificationResult && c.aiVerifiedAt == prior.value.aiVerifiedAt &&
      c.proofUrl == Override(prior.value.proofUrl, input.proofUrl) &&
      c.proofText == Override(prior.value.proofText, input.proofText) &&
      c.proofImageUrl == Override(prior.value.proofImageUrl, input.proofImageUrl)
  {
    match prior
    case None =>
      CheckIn(input.proofUrl, input.proofText, input.proofImageUrl, now, PENDING_VERIFICATION, None, None)
    case Some(c) =>
      c.(proofUrl := Override(c.proofUrl, input.proofUrl),
         proofText := Override(c.proofText, input.proofText),
         proofImageUrl := Override(c.proofImageUrl, input.proofImageUrl),
         submittedAt := now, status := PENDING_VERIFICATION)
  }

  function Lookup<K, V>(m: map<K, V>, k: K): (r: Option<V>)
    ensures r.Some? <==> k in m
    ensures r.Some? ==> r.value == m[k]
  {
    if k in m then Some(m[k]) else None
  }

  /** `submitCheckIn`: upsert the row for (oath, user, dueDate); no counter moves. */
  function SubmitCheckIn(d: Db, input: SubmitInput, now: int): (s: Step<CKey>)
    ensures s.result.Err? ==> s.db == d
    ensures s.result.Ok? <==>
      Gate(d, input.oathId, input.userId).None? &&
      (Filled(input.proofUrl) || Filled(input.proofText) || Filled(input.proofImageUrl))
    ensures s.result.Ok? ==>
      var key := CKey(input.oathId, input.userId, input.dueDate);
      s.result.value == key &&
      s.db == d.(checkIns := d.checkIns[key := Submitted(Lookup(d.checkIns, key), input, now)])
  {
    var g := Gate(d, input.oathId, input.userId);
    if g.Some? then Step(d, Err(g.value))
    else if !Filled(input.proofUrl) && !Filled(input.proofText) && !Filled(input.proofImageUrl) then
      Step(d, Err(NoProof))
    else
      var key := CKey(input.oathId, input.userId, input.dueDate);
      Step(d.(checkIns := d.checkIns[key := Submitted(Lookup(d.checkIns, key), input, now)]), Ok(key))
  }

  /** `verifyCheckIn`: the verdict on a PENDING_VERIFICATION row, counted once as a
      success or a failure. Replies with the updated row. */
  function VerifyCheckIn(d: Db, key: CKey, isComplete: bool, reasoning: string, now: int): (s: Step<CheckIn>)
    ensures s.result.Err? ==> s.db == d
    ensures s.result.Ok? <==> key in d.checkIns && d.checkIns[key].status == PENDING_VERIFICATION
    ensures key in d.checkIns && d.checkIns[key].status != PENDING_VERIFICATION ==>
      s.result == Err(AlreadyVerified)
    ensures s.result.Ok? ==>
      var k := PKey(key.oath, key.user);
      var row := d.checkIns[key].(status := if isComplete then VERIFIED_COMPLETE else VERIFIED_INCOMPLETE,
                                  aiVerificationResult := Some(reasoning), aiVerifiedAt := Some(now));
      s.result.value == row &&
      s.db == d.(checkIns := d.checkIns[key := row],
                 participants := if k in d.participants
                                 then d.participants[k := Bump(d.participants[k], if isComplete then 1 else 0,
                                                               if isComplete then 0 else 1, 0, 0)]
                                 else d.participants)
  {
    if key !in d.checkIns then Step(d, Err(CheckInNotFound))
    else if d.checkIns[key].status != PENDING_VERIFICATION then Step(d, Err(AlreadyVerified))
    else
      var row := d.checkIns[key].(status := if isComplete then VERIFIED_COMPLETE else VERIFIED_INCOMPLETE,
                                  aiVerificationResult := Some(reasoning), aiVerifiedAt := Some(now));
      var d1 := d.(checkIns := d.checkIns[key := row]);
      var k := PKey(key.oath, key.user);
      if k in d1.participants then
        var p := d1.participants[k];
        var p' := if isComplete then p.(successCount := p.successCount + 1)
                  else p.(failureCount := p.failureCount + 1);
        Step(d1.(participants := d1.participants[k := p']), Ok(row))
      else Step(d1, Ok(row))
  }

  /** The judge of a dispute on a check-in of `userId` in oath `o`: the first other
      participant, in ascending user id. */
  function Rival(d: Db, o: nat, userId: nat): (r: Option<nat>)
    ensures r.Some? ==>
      PKey(o, r.value) in d.participants && r.value != userId &&
      forall u: nat :: u < r.value && PKey(o, u) in d.participants ==> u == userId
    ensures r.None? ==>
      forall u: nat :: u < d.nextUser && PKey(o, u) in d.participants ==> u == userId
  {
    var other := (u: nat) => PKey(o, u) in d.participants && u != userId;
    var r := Lowest(other, d.nextUser);
    assert forall u: nat :: other(u) == (PKey(o, u) in d.participants && u != userId);
    r
  }

  /** `createDispute`: the owner of a VERIFIED_INCOMPLETE check-in appeals it to the rival. */
  function CreateDispute(d: Db, key: CKey, userId: nat, reason: string): (s: Step<CKey>)
    ensures s.result.Err? ==> s.db == d
    ensures s.result.Ok? <==>
      key in d.checkIns && key.user == userId && d.checkIns[key].status == VERIFIED_INCOMPLETE &&
      key !in d.disputes && key.oath in d.oaths && Rival(d, key.oath, userId).Some?
    ensures s.result.Ok? ==>
      s.result.value == key &&
      s.db == d.(disputes := d.disputes[key := Dispute(userId, Rival(d, key.oath, userId).value, reason,
                                                       OPEN, None, None, None)],
                 checkIns := d.checkIns[key := d.checkIns[key].(status := DISPUTED)])
  {
    if key !in d.checkIns then Step(d, Err(CheckInNotFound))
    else if key.user != userId then Step(d, Err(NotOwner))
    else if d.checkIns[key].status != VERIFIED_INCOMPLETE then Step(d, Err(NotIncomplete))
    else if key in d.disputes then Step(d, Err(DisputeExists))
    // the included oath is dereferenced for its participants; a missing row throws
    else if key.oath !in d.oaths then Step(d, Err(Failed))
    else
      var rival := Rival(d, key.oath, userId);
      if rival.None? then Step(d, Err(NoRival))
      else
        var d1 := d.(disputes := d.disputes[key := Dispute(userId, rival.value, reason, OPEN, None, None, None)]);
        Step(d1.(checkIns := d1.checkIns[key := d1.checkIns[key].(status := DISPUTED)]), Ok(key))
  }

  /** The counter changes of a resolution: a won dispute turns the failure into a success. */
  function Resolved(p: Participant, isComplete: bool): (q: Participant)
    ensures isComplete ==> q == Bump(p, 1, -1, 1, 0)
    ensures !isComplete ==> q == Bump(p, 0, 0, 0, 1)
  {
    if isComplete then
      p.(successCount := p.successCount + 1, failureCount := p.failureCount - 1,
         disputesWon := p.disputesWon + 1)
    else p.(disputesLost := p.disputesLost + 1)
  }

  /** `resolveDispute`: the judge's one-shot verdict on an OPEN dispute. Replies with the
      resolved dispute. */
  function ResolveDispute(d: Db, key: CKey, judgeId: nat, isComplete: bool, notes: Option<string>, now: int)
    : (s: Step<Dispute>)
    ensures s.result.Err? && key in d.checkIns ==> s.db == d
    ensures s.result.Ok? <==>
      key in d.disputes && d.disputes[key].judge == judgeId && d.disputes[key].status == OPEN &&
      key in d.checkIns
    ensures key in d.disputes && d.disputes[key].judge == judgeId && d.disputes[key].status != OPEN ==>
      s.result == Err(AlreadyResolved)
    ensures s.result.Ok? ==>
      var k := PKey(key.oath, key.user);
      var dp := d.disputes[key];
      var dp' := dp.(status := RESOLVED, outcome := Some(if isComplete then COMPLETE else INCOMPLETE),
                     judgeNotes := Override(dp.judgeNotes, notes), resolvedAt := Some(now));
      s.result.value == dp' &&
      s.db == d.(disputes := d.disputes[key := dp'],
                 checkIns := d.checkIns[key := d.checkIns[key].(
                               status := if isComplete then RESOLVED_COMPLETE else RESOLVED_INCOMPLETE)],
                 participants := if k in d.participants
                                 then d.participants[k := Resolved(d.participants[k], isComplete)]
                                 else d.participants)
  {
    if key !in d.disputes then Step(d, Err(DisputeNotFound))
    else
      var dp := d.disputes[key];
      if dp.judge != judgeId then Step(d, Err(NotJudge))
      else if dp.status != OPEN then Step(d, Err(AlreadyResolved))
      else
        var dp' := dp.(status := RESOLVED, outcome := Some(if isComplete then COMPLETE else INCOMPLETE),
                       judgeNotes := Override(dp.judgeNotes, notes), resolvedAt := Some(now));
        var d1 := d.(disputes := d.disputes[key := dp']);
        // the check-in update of a missing row throws after the dispute write
        if key !in d1.checkIns then Step(d1, Err(Failed))
        else
          var d2 := d1.(checkIns := d1.checkIns[key := d1.checkIns[key].(
                          status := if isComplete then RESOLVED_COMPLETE else RESOLVED_INCOMPLETE)]);
          var k := PKey(key.oath, key.user);
          if k in d2.participants then
            Step(d2.(participants := d2.participants[k := Resolved(d2.participants[k], isComplete)]), Ok(dp'))
          else Step(d2, Ok(dp'))
  }

  /** Every dispute is raised by the owner of its check-in and judged by another
      participant of the same oath. */
  predicate DisputesWellFormed(d: Db) {
    forall c :: c in d.disputes ==>
      d.disputes[c].disputer == c.user && d.disputes[c].judge != c.user &&
      PKey(c.oath, d.disputes[c].judge) in d.participants
  }

  /** An action that only writes check-in, dispute and participant-counter rows keeps
      the invariant, moves no money, and touches no balance or oath. */
  lemma RowsValid(d: Db, e: Db)
    requires Valid(d)
    requires e.users == d.users && e.nextUser == d.nextUser && e.oaths == d.oaths && e.nextOath == d.nextOath
    requires e.friendships == d.friendships && e.nextFriendship == d.nextFriendship
    requires SameStakes(d.participants, e.participants)
    requires forall c :: c in e.checkIns ==> PKey(c.oath, c.user) in e.participants
    requires forall c :: c in e.disputes ==> c in e.checkIns
    ensures Valid(e) && Conserved(d, e) && StatusGuarded(d, e) && ParticipantsGuarded(d, e)
  {
    forall o | o in e.oaths && e.oaths[o].status == CANCELLED
      ensures HasDecliner(e, o)
    {
      var k :| k in d.participants && k.oath == o && d.participants[k].status == DECLINED;
      assert k in e.participants;
    }
    RowsConserved(d, e);
  }

  /** The same balances and stakes hold the same money. */
  lemma RowsConserved(d: Db, e: Db)
    requires e.users == d.users && e.oaths == d.oaths
    requires SameStakes(d.participants, e.participants)
    ensures Conserved(d, e)
  {
    forall c
      ensures Total(e, c) == Total(d, c)
    {
      EscrowSameStakes(d.participants, e.participants, d.oaths, c);
    }
  }

  lemma CreateCheckInPreserves(d: Db, input: CreateInput, now: int)
    requires Valid(d)
    ensures var e := CreateCheckIn(d, input, now).db;
      Valid(e) && Conserved(d, e) && StatusGuarded(d, e) && ParticipantsGuarded(d, e) &&
      e.users == d.users && e.oaths == d.oaths && (DisputesWellFormed(d) ==> DisputesWellFormed(e))
  {
    RowsValid(d, CreateCheckIn(d, input, now).db);
  }

  lemma SubmitCheckInPreserves(d: Db, input: SubmitInput, now: int)
    requires Valid(d)
    ensures var e := SubmitCheckIn(d, input, now).db;
      Valid(e) && Conserved(d, e) && StatusGuarded(d, e) && ParticipantsGuarded(d, e) &&
      e.users == d.users && e.oaths == d.oaths && e.participants == d.participants &&
      (DisputesWellFormed(d) ==> DisputesWellFormed(e))
  {
    RowsValid(d, SubmitCheckIn(d, input, now).db);
  }

  lemma VerifyCheckInPreserves(d: Db, key: CKey, isComplete: bool, reasoning: string, now: int)
    requires Valid(d)
    ensures var e := VerifyCheckIn(d, key, isComplete, reasoning, now).db;
      Valid(e) && Conserved(d, e) && StatusGuarded(d, e) && ParticipantsGuarded(d, e) &&
      e.users == d.users && e.oaths == d.oaths && (DisputesWellFormed(d) ==> DisputesWellFormed(e))
  {
    RowsValid(d, VerifyCheckIn(d, key, isComplete, reasoning, now).db);
  }

  lemma CreateDisputePreserves(d: Db, key: CKey, userId: nat, reason: string)
    requires Valid(d)
    ensures var e := CreateDispute(d, key, userId, reason).db;
      Valid(e) && Conserved(d, e) && StatusGuarded(d, e) && ParticipantsGuarded(d, e) &&
      e.users == d.users && e.oaths == d.oaths && e.participants == d.participants &&
      (DisputesWellFormed(d) ==> DisputesWellFormed(e))
  {
    var s := CreateDispute(d, key, userId, reason);
    if s.result.Ok? {
      var dp := Dispute(userId, Rival(d, key.oath, userId).value, reason, OPEN, None, None, None);
      var e := d.(disputes := d.disputes[key := dp], checkIns := d.checkIns[key := d.checkIns[key].(status := DISPUTED)]);
      assert s.db == e;
      assert e.checkIns.Keys == d.checkIns.Keys && e.disputes.Keys == d.disputes.Keys + {key};
      RowsValid(d, e);
      if DisputesWellFormed(d) {
        DisputeWrite(d, e, key, dp);
      }
    } else {
      assert s.db == d;
      RowsValid(d, d);
    }
  }

  lemma ResolveDisputePreserves(d: Db, key: CKey, judgeId: nat, isComplete: bool, notes: Option<string>, now: int)
    requires Valid(d)
    ensures var s := ResolveDispute(d, key, judgeId, isComplete, notes, now);
      (s.result.Err? ==> s.db == d) &&
      Valid(s.db) && Conserved(d, s.db) && StatusGuarded(d, s.db) && ParticipantsGuarded(d, s.db) &&
      s.db.users == d.users && s.db.oaths == d.oaths && (DisputesWellFormed(d) ==> DisputesWellFormed(s.db))
  {
    var s := ResolveDispute(d, key, judgeId, isComplete, notes, now);
    if s.result.Ok? {
      var dp := s.result.value;
      var k := PKey(key.oath, key.user);
      var ps := if k in d.participants then d.participants[k := Resolved(d.participants[k], isComplete)]
                else d.participants;
      var e := d.(disputes := d.disputes[key := dp],
                  checkIns := d.checkIns[key := d.checkIns[key].(
                                status := if isComplete then RESOLVED_COMPLETE else RESOLVED_INCOMPLETE)],
                  participants := ps);
      assert s.db == e;
      assert dp.disputer == d.disputes[key].disputer && dp.judge == d.disputes[key].judge;
      assert e.disputes.Keys == d.disputes.Keys && e.checkIns.Keys == d.checkIns.Keys;
      ResolvedSameStakes(d.participants, k, isComplete);
      RowsValid(d, e);
      if DisputesWellFormed(d) {
        DisputeWrite(d, e, key, dp);
      }
    } else {
      assert key in d.disputes ==> key in d.checkIns;
      assert s.db == d;
      RowsValid(d, d);
    }
  }

  /** A written dispute raised by the check-in's owner and judged by another participant
      keeps every dispute well formed. */
  lemma DisputeWrite(d: Db, e: Db, key: CKey, dp: Dispute)
    requires DisputesWellFormed(d)
    requires e.disputes == d.disputes[key := dp] && e.participants.Keys == d.participants.Keys
    requires dp.disputer == key.user && dp.judge != key.user && PKey(key.oath, dp.judge) in d.participants
    ensures DisputesWellFormed(e)
  {
  }

  /** Creating a check-in counts one success at once and lowers no counter. */
  lemma CreateCheckInCountersGrow(d: Db, input: CreateInput, now: int)
    ensures CountersGrow(d, CreateCheckIn(d, input, now).db)
  {
    var s := CreateCheckIn(d, input, now);
    if s.result.Ok? {
      var k := PKey(input.oathId, input.userId);
      BumpGrows(d, s.db, k, 1, 0);
    }
  }

  /** Submitting proof writes only the check-in row, so no counter moves. */
  lemma SubmitCheckInCountersGrow(d: Db, input: SubmitInput, now: int)
    ensures SubmitCheckIn(d, input, now).db.participants == d.participants
  {
    var s := SubmitCheckIn(d, input, now);
    if s.result.Ok? {
      var key := CKey(input.oathId, input.userId, input.dueDate);
      assert s.db == d.(checkIns := d.checkIns[key := Submitted(Lookup(d.checkIns, key), input, now)]);
    }
  }

  /** A verdict adds to one counter and lowers none. */
  lemma VerifyCheckInCountersGrow(d: Db, key: CKey, isComplete: bool, reasoning: string, now: int)
    ensures CountersGrow(d, VerifyCheckIn(d, key, isComplete, reasoning, now).db)
  {
    var s := VerifyCheckIn(d, key, isComplete, reasoning, now);
    var k := PKey(key.oath, key.user);
    if s.result.Ok? && k in d.participants {
      BumpGrows(d, s.db, k, if isComplete then 1 else 0, if isComplete then 0 else 1);
    }
  }

  /** Opening a dispute writes only the dispute and the check-in status. */
  lemma CreateDisputeCountersGrow(d: Db, key: CKey, userId: nat, reason: string)
    ensures CreateDispute(d, key, userId, reason).db.participants == d.participants
  {
  }

  /** Adding non-negative amounts to the success and failure counters of one row lowers
      no counter of any row. */
  lemma BumpGrows(d: Db, e: Db, k: PKey, success: nat, failure: nat)
    requires k in d.participants
    requires e.participants == d.participants[k := Bump(d.participants[k], success, failure, 0, 0)]
    ensures CountersGrow(d, e)
  {
  }

  /** Resolution is the one step that lowers a counter: a won dispute takes exactly one
      failure off the owner's row; every other counter of every row only grows. */
  lemma ResolveCounters(d: Db, key: CKey, judgeId: nat, isComplete: bool, notes: Option<string>, now: int)
    ensures var s := ResolveDispute(d, key, judgeId, isComplete, notes, now);
      var ps := s.db.participants;
      ps.Keys == d.participants.Keys &&
      forall j :: j in d.participants ==>
        ps[j].successCount >= d.participants[j].successCount &&
        ps[j].disputesWon >= d.participants[j].disputesWon &&
        ps[j].disputesLost >= d.participants[j].disputesLost &&
        ps[j].failureCount == d.participants[j].failureCount -
          (if s.result.Ok? && isComplete && j == PKey(key.oath, key.user) then 1 else 0)
  {
  }

  /** Resolving moves only counters, never a status or a stake. */
  lemma ResolvedSameStakes(ps: map<PKey, Participant>, k: PKey, isComplete: bool)
    ensures SameStakes(ps, if k in ps then ps[k := Resolved(ps[k], isComplete)] else ps)
  {
  }

  /** The judge depends only on which participant rows exist. */
  lemma RivalOfSameRows(d: Db, e: Db, o: nat, userId: nat)
    requires e.participants.Keys == d.participants.Keys && e.nextUser == d.nextUser
    ensures Rival(e, o, userId) == Rival(d, o, userId)
  {
    var p := (u: nat) => PKey(o, u) in d.participants && u != userId;
    var q := (u: nat) => PKey(o, u) in e.participants && u != userId;
    LowestExt(p, q, d.nextUser);
  }

  /** A verdict counts exactly once: one success or one failure, and no other row moves. */
  lemma VerifyCountsOnce(d: Db, key: CKey, isComplete: bool, reasoning: string, now: int)
    requires Valid(d)
    requires VerifyCheckIn(d, key, isComplete, reasoning, now).result.Ok?
    ensures var ps := VerifyCheckIn(d, key, isComplete, reasoning, now).db.participants;
      var k := PKey(key.oath, key.user);
      k in d.participants && ps.Keys == d.participants.Keys &&
      ps[k] == Bump(d.participants[k], if isComplete then 1 else 0, if isComplete then 0 else 1, 0, 0) &&
      forall j :: j in d.participants && j != k ==> ps[j] == d.participants[j]
  {
  }

  /** A verified check-in cannot be verified again: the second call changes nothing. */
  lemma VerifyIsOneShot(d: Db, key: CKey, a: bool, r1: string, t1: int, b: bool, r2: string, t2: int)
    requires VerifyCheckIn(d, key, a, r1, t1).result.Ok?
    ensures var e := VerifyCheckIn(d, key, a, r1, t1).db;
      VerifyCheckIn(e, key, b, r2, t2) == Step(e, Err(AlreadyVerified))
  {
  }

  /** A resolved dispute cannot be resolved again: the second call changes nothing. */
  lemma ResolveIsOneShot(d: Db, key: CKey, judgeId: nat, a: bool, n1: Option<string>, t1: int,
                         b: bool, n2: Option<string>, t2: int)
    requires ResolveDispute(d, key, judgeId, a, n1, t1).result.Ok?
    ensures var e := ResolveDispute(d, key, judgeId, a, n1, t1).db;
      ResolveDispute(e, key, judgeId, b, n2, t2) == Step(e, Err(AlreadyResolved))
  {
  }

  /** The appeal path: a check-in judged incomplete, disputed by its owner and resolved by
      the rival. Winning turns the failure into a success; losing keeps the failure. */
  lemma Appeal(d: Db, key: CKey, reasoning: string, t1: int, reason: string, judge: nat, won: bool,
               notes: Option<string>, t2: int)
    requires Valid(d)
    requires key in d.checkIns && d.checkIns[key].status == PENDING_VERIFICATION && key !in d.disputes
    requires Rival(d, key.oath, key.user) == Some(judge)
    ensures var s1 := VerifyCheckIn(d, key, false, reasoning, t1);
      var s2 := CreateDispute(s1.db, key, key.user, reason);
      var s3 := ResolveDispute(s2.db, key, judge, won, notes, t2);
      var k := PKey(key.oath, key.user);
      s1.result.Ok? && s2.result.Ok? && s3.result.Ok? && k in d.participants && k in s3.db.participants &&
      s3.db.checkIns[key].status == (if won then RESOLVED_COMPLETE else RESOLVED_INCOMPLETE) &&
      s3.db.participants[k] == (if won then Bump(d.participants[k], 1, 0, 1, 0)
                                else Bump(d.participants[k], 0, 1, 0, 1))
  {
    var k := PKey(key.oath, key.user);
    assert k in d.participants && key.oath in d.oaths;
    var p := d.participants[k];
    var s1 := VerifyCheckIn(d, key, false, reasoning, t1);
    assert s1.result.Ok?;
    var e1 := s1.db;
    assert e1.participants == d.participants[k := Bump(p, 0, 1, 0, 0)];
    assert e1.checkIns[key].status == VERIFIED_INCOMPLETE;
    assert e1.disputes == d.disputes && e1.oaths == d.oaths && e1.nextUser == d.nextUser;
    RivalOfSameRows(d, e1, key.oath, key.user);
    DisputeThenResolve(e1, key, reason, judge, won, notes, t2);
    ResolvedAfterFailure(p, won);
  }

  /** A resolution after a failure verdict: winning swaps the failure for a success. */
  lemma ResolvedAfterFailure(p: Participant, won: bool)
    ensures Resolved(Bump(p, 0, 1, 0, 0), won) == (if won then Bump(p, 1, 0, 1, 0) else Bump(p, 0, 1, 0, 1))
  {
  }

  /** The second half of an appeal: the owner disputes an incomplete verdict and the rival
      resolves it, which moves only the owner's counters. */
  lemma DisputeThenResolve(e1: Db, key: CKey, reason: string, judge: nat, won: bool,
                           notes: Option<string>, t2: int)
    requires key in e1.checkIns && e1.checkIns[key].status == VERIFIED_INCOMPLETE && key !in e1.disputes
    requires key.oath in e1.oaths && Rival(e1, key.oath, key.user) == Some(judge)
    requires PKey(key.oath, key.user) in e1.participants
    ensures var s2 := CreateDispute(e1, key, key.user, reason);
      var s3 := ResolveDispute(s2.db, key, judge, won, notes, t2);
      var k := PKey(key.oath, key.user);
      s2.result.Ok? && s3.result.Ok? &&
      s3.db.checkIns[key].status == (if won then RESOLVED_COMPLETE else RESOLVED_INCOMPLETE) &&
      s3.db.participants == e1.participants[k := Resolved(e1.participants[k], won)]
  {
    var s2 := CreateDispute(e1, key, key.user, reason);
    assert s2.result.Ok?;
    var e2 := s2.db;
    assert e2.participants == e1.participants && key in e2.checkIns;
    assert e2.disputes[key].judge == judge && e2.disputes[key].status == OPEN;
  }

  /** Resubmitting proof for a verified check-in reopens it, so a second verdict counts a
      second success for the same due date. */
  lemma ResubmitCountsAgain(d: Db, key: CKey, r1: string, t1: int, input: SubmitInput, t2: int,
                            r2: string, t3: int)
    requires Valid(d)
    requires VerifyCheckIn(d, key, true, r1, t1).result.Ok?
    requires key.oath in d.oaths && d.oaths[key.oath].status == ACTIVE
    requires input.oathId == key.oath && input.userId == key.user && input.dueDate == key.dueDate
    requires Filled(input.proofUrl)
    ensures var s1 := VerifyCheckIn(d, key, true, r1, t1);
      var s2 := SubmitCheckIn(s1.db, input, t2);
      var s3 := VerifyCheckIn(s2.db, key, true, r2, t3);
      var k := PKey(key.oath, key.user);
      s2.result.Ok? && s3.result.Ok? && k in d.participants && k in s3.db.participants &&
      s3.db.participants[k].successCount == d.participants[k].successCount + 2
  {
    var k := PKey(key.oath, key.user);
    assert k in d.participants;
    assert d.participants[k].status == ACCEPTED;
  }
}
