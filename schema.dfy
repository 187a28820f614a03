/** The relational store behind the server actions: one record per table row, the
    database snapshot `Db`, the invariant every action preserves, and the ordered
    searches that stand for Prisma's `findFirst` / `findMany`. */
module Schema {

  datatype Option<T> = None | Some(value: T)

  /** JavaScript truthiness of a nullable string: present and non-empty. */
  predicate Filled(x: Option<string>) { x.Some? && x.value != "" }

  datatype Result<T> = Ok(value: T) | Err(error: Error)
  {
    predicate IsOk() { this.Ok? }
  }

  /** The error kinds the actions report; each stands for one error message of the source. */
  datatype Error =
    | MissingFields        // a required input is empty
    | NoParticipants       // 'At least one participant is required'
    | TooFewParticipants   // 'An oath requires at least 2 participants'
    | NegativeStake
    | BadDates             // start date not before end date
    | NotFriends           // an invitee is not an accepted friend of the creator
    | UserNotFound
    | InsufficientGems
    | InsufficientCredits
    | InvitationNotFound
    | AlreadyAccepted
    | InvitationInvalid    // participant status is not INVITED
    | NotParticipant       // no ACCEPTED participant row
    | OathNotActive
    | NoProof
    | CheckInNotFound
    | AlreadyVerified
    | NotOwner
    | NotIncomplete
    | DisputeExists
    | NoRival
    | DisputeNotFound
    | NotJudge
    | AlreadyResolved
    | SelfFriend
    | AlreadyFriends
    | RequestPending
    | Blocked
    | RequestNotFound
    | NotReceiver
    | NotMember
    | RequestInvalid       // a friend request that is no longer PENDING
    | Failed               // an exception caught by the action (unique violation, missing row)

  datatype Currency = GEMS | REAL_MONEY
  datatype OathType = DAILY | WEEKLY | CUSTOM
  datatype OathStatus = PENDING | ACTIVE | CANCELLED | COMPLETED
  datatype ParticipantStatus = INVITED | ACCEPTED | DECLINED
  datatype CheckInStatus =
    | PENDING_VERIFICATION | VERIFIED_COMPLETE | VERIFIED_INCOMPLETE
    | DISPUTED | RESOLVED_COMPLETE | RESOLVED_INCOMPLETE
  /** A check-in that counts as done: verified or resolved complete. */
  predicate IsComplete(s: CheckInStatus) { s == VERIFIED_COMPLETE || s == RESOLVED_COMPLETE }
  datatype DisputeStatus = OPEN | RESOLVED   // OPEN is the `PENDING` value of the dispute enum
  datatype Outcome = COMPLETE | INCOMPLETE
  datatype FriendshipStatus = REQUESTED | FRIENDS | REJECTED | BLOCKED  // `PENDING`, `ACCEPTED`, ...

  /** A user row; `credits` is the REAL_MONEY balance in cents. */
  datatype User = User(
    firebaseUid: string,
    email: string,
    displayName: Option<string>,
    photoURL: Option<string>,
    gems: int,
    credits: int,
    leetcodeUsername: Option<string>)

  datatype Oath = Oath(
    title: string,
    description: string,
    oathType: OathType,
    status: OathStatus,
    startDate: int,
    endDate: int,
    stakeAmount: int,
    currency: Currency,
    verificationPrompt: string)

  /** The key of the composite unique constraint (oathId, userId). */
  datatype PKey = PKey(oath: nat, user: nat)

  datatype Participant = Participant(
    status: ParticipantStatus,
    stakeAmount: int,
    stakePaid: bool,
    successCount: int,
    failureCount: int,
    disputesWon: int,
    disputesLost: int)

  /** The key of the composite unique constraint (oathId, userId, dueDate). It also
      names the check-in row and, since a dispute is unique per check-in, its dispute. */
  datatype CKey = CKey(oath: nat, user: nat, dueDate: int)

  datatype CheckIn = CheckIn(
    proofUrl: Option<string>,
    proofText: Option<string>,
    proofImageUrl: Option<string>,
    submittedAt: int,
    status: CheckInStatus,
    aiVerificationResult: Option<string>,
    aiVerifiedAt: Option<int>)

  datatype Dispute = Dispute(
    disputer: nat,
    judge: nat,
    reason: string,
    status: DisputeStatus,
    outcome: Option<Outcome>,
    judgeNotes: Option<string>,
    resolvedAt: Option<int>)

  datatype Friendship = Friendship(initiator: nat, receiver: nat, status: FriendshipStatus)

  /** A snapshot of every table. Row ids are handed out by the `next...` counters. */
  datatype Db = Db(
    users: map<nat, User>,
    nextUser: nat,
    oaths: map<nat, Oath>,
    nextOath: nat,
    participants: map<PKey, Participant>,
    checkIns: map<CKey, CheckIn>,
    disputes: map<CKey, Dispute>,
    friendships: map<nat, Friendship>,
    nextFriendship: nat)

  /** `f` joins `a` and `b`, in either direction. */
  predicate Links(f: Friendship, a: nat, b: nat) {
    (f.initiator == a && f.receiver == b) || (f.initiator == b && f.receiver == a)
  }

  /** The outcome of an action: the new snapshot and what the action returns. */
  datatype Step<T> = Step(db: Db, result: Result<T>)

  function Balance(u: User, c: Currency): int {
    match c
    case GEMS => u.gems
    case REAL_MONEY => u.credits
  }

  /** `u` with `amount` taken from its balance in currency `c`. */
  function Debit(u: User, c: Currency, amount: int): (r: User)
    ensures Balance(r, c) == Balance(u, c) - amount
    ensures forall c' :: c' != c ==> Balance(r, c') == Balance(u, c')
    ensures r.(gems := u.gems, credits := u.credits) == u
  {
    match c
    case GEMS => u.(gems := u.gems - amount)
    case REAL_MONEY => u.(credits := u.credits - amount)
  }

  /** Referential integrity, fresh id counters and the oath life-cycle invariants. */
  predicate Valid(d: Db) {
    IdsFresh(d) && RefsIntact(d) && StakesNonNegative(d) && StartedAllAccepted(d) &&
    CancelledByDecline(d)
  }

  /** Every row id is below the counter that hands out the next one. */
  predicate IdsFresh(d: Db) {
    (forall i :: i in d.users ==> i < d.nextUser) &&
    (forall o :: o in d.oaths ==> o < d.nextOath) &&
    (forall f :: f in d.friendships ==> f < d.nextFriendship)
  }

  /** Every foreign key names an existing row. */
  predicate RefsIntact(d: Db) {
    (forall f :: f in d.friendships ==>
       d.friendships[f].initiator in d.users && d.friendships[f].receiver in d.users) &&
    (forall k :: k in d.participants ==> k.oath in d.oaths && k.user in d.users) &&
    (forall c :: c in d.checkIns ==> PKey(c.oath, c.user) in d.participants) &&
    (forall c :: c in d.disputes ==> c in d.checkIns)
  }

  predicate StakesNonNegative(d: Db) {
    forall k :: k in d.participants ==> d.participants[k].stakeAmount >= 0
  }

  /** A started oath has no participant left to accept or decline. */
  predicate StartedAllAccepted(d: Db)
    requires forall k :: k in d.participants ==> k.oath in d.oaths
  {
    forall k :: k in d.participants && Started(d.oaths[k.oath].status) ==>
      d.participants[k].status == ACCEPTED
  }

  /** A CANCELLED oath was cancelled by some participant's decline. */
  predicate CancelledByDecline(d: Db) {
    forall o :: o in d.oaths && d.oaths[o].status == CANCELLED ==> HasDecliner(d, o)
  }

  predicate Started(s: OathStatus) { s == ACTIVE || s == COMPLETED }

  predicate HasDecliner(d: Db, o: nat) {
    exists k :: k in d.participants && k.oath == o && d.participants[k].status == DECLINED
  }

  /** The oath status changes an action may make: none, or leaving PENDING. */
  predicate StatusStep(a: OathStatus, b: OathStatus) {
    a == b || (a == PENDING && (b == ACTIVE || b == CANCELLED))
  }

  /** No oath disappears and every oath status moves as `StatusStep` allows. */
  predicate StatusGuarded(d: Db, e: Db) {
    forall o :: o in d.oaths ==> o in e.oaths && StatusStep(d.oaths[o].status, e.oaths[o].status)
  }

  /** The participant status changes an action may make: none, or answering an invitation. */
  predicate AnswerStep(a: ParticipantStatus, b: ParticipantStatus) {
    a == b || (a == INVITED && (b == ACCEPTED || b == DECLINED))
  }

  /** No participant row disappears, and stakes and statuses move only by answering. */
  predicate ParticipantsGuarded(d: Db, e: Db) {
    forall k :: k in d.participants ==>
      k in e.participants && e.participants[k].stakeAmount == d.participants[k].stakeAmount &&
      AnswerStep(d.participants[k].status, e.participants[k].status)
  }

  /** No participant row disappears, and none of its four counters goes down. */
  predicate CountersGrow(d: Db, e: Db) {
    forall k :: k in d.participants ==>
      k in e.participants &&
      e.participants[k].successCount >= d.participants[k].successCount &&
      e.participants[k].failureCount >= d.participants[k].failureCount &&
      e.participants[k].disputesWon >= d.participants[k].disputesWon &&
      e.participants[k].disputesLost >= d.participants[k].disputesLost
  }

  /** The same participant rows, each keeping its status and its stake. */
  predicate SameStakes(ps: map<PKey, Participant>, qs: map<PKey, Participant>) {
    ps.Keys == qs.Keys &&
    forall k :: k in ps ==> qs[k].status == ps[k].status && qs[k].stakeAmount == ps[k].stakeAmount
  }

  /** Every balance is non-negative. */
  predicate Solvent(d: Db) {
    forall i :: i in d.users ==> d.users[i].gems >= 0 && d.users[i].credits >= 0
  }

  /** Debiting no more than the balance keeps every balance non-negative. */
  lemma SolventDebit(d: Db, e: Db, i: nat, c: Currency, amount: int)
    requires Solvent(d) && i in d.users && amount <= Balance(d.users[i], c)
    requires e.users == d.users[i := Debit(d.users[i], c, amount)]
    ensures Solvent(e)
  {
    forall j | j in e.users
      ensures e.users[j].gems >= 0 && e.users[j].credits >= 0
    {
      if j == i {
        assert e.users[j] == Debit(d.users[i], c, amount);
      }
    }
  }

  /** The ids below `n` satisfying `p`, ascending: a `findMany` without `orderBy`. */
  function Upto(p: nat -> bool, n: nat): (r: seq<nat>)
    ensures forall i: nat :: i in r <==> i < n && p(i)
    ensures forall a, b :: 0 <= a < b < |r| ==> r[a] < r[b]
  {
    if n == 0 then []
    else
      var r0 := Upto(p, n - 1);
      assert forall a :: 0 <= a < |r0| ==> r0[a] in r0;
      r0 + (if p(n - 1) then [n - 1] else [])
  }

  /** The ids below `n` satisfying `p`, descending: `orderBy: { createdAt: 'desc' }`. */
  function Downfrom(p: nat -> bool, n: nat): (r: seq<nat>)
    ensures forall i: nat :: i in r <==> i < n && p(i)
    ensures forall a, b :: 0 <= a < b < |r| ==> r[a] > r[b]
  {
    if n == 0 then []
    else
      var r0 := Downfrom(p, n - 1);
      assert forall a :: 0 <= a < |r0| ==> r0[a] in r0;
      (if p(n - 1) then [n - 1] else []) + r0
  }

  /** The least id below `n` satisfying `p`: a `findFirst` without `orderBy`. */
  function Lowest(p: nat -> bool, n: nat): (r: Option<nat>)
    ensures r.Some? ==> r.value < n && p(r.value) && forall j: nat :: j < r.value ==> !p(j)
    ensures r.None? <==> forall j: nat :: j < n ==> !p(j)
  {
    if n == 0 then None
    else if Lowest(p, n - 1).Some? then Lowest(p, n - 1)
    else if p(n - 1) then Some(n - 1)
    else None
  }

  /** Two predicates that agree below `n` select the same ids. */
  lemma {:induction false} UptoExt(p: nat -> bool, q: nat -> bool, n: nat)
    requires forall i: nat :: i < n ==> p(i) == q(i)
    ensures Upto(p, n) == Upto(q, n)
  {
    if n > 0 {
      UptoExt(p, q, n - 1);
    }
  }

  /** Ids at or above `n` never satisfy `p`: raising the bound selects nothing new. */
  lemma {:induction false} UptoBound(p: nat -> bool, n: nat, m: nat)
    requires n <= m
    requires forall i: nat :: n <= i < m ==> !p(i)
    ensures Upto(p, m) == Upto(p, n)
    decreases m - n
  {
    if n < m {
      UptoBound(p, n, m - 1);
    }
  }

  /** Two predicates that agree below `n` have the same least witness. */
  lemma {:induction false} LowestExt(p: nat -> bool, q: nat -> bool, n: nat)
    requires forall i: nat :: i < n ==> p(i) == q(i)
    ensures Lowest(p, n) == Lowest(q, n)
  {
    if n > 0 {
      LowestExt(p, q, n - 1);
    }
  }

  /** The descending listing is the ascending one read backwards. */
  lemma {:induction false} DownfromReversesUpto(p: nat -> bool, q: nat -> bool, n: nat)
    requires forall i: nat :: i < n ==> p(i) == q(i)
    ensures |Downfrom(p, n)| == |Upto(q, n)|
    ensures forall i :: 0 <= i < |Upto(q, n)| ==> Downfrom(p, n)[i] == Upto(q, n)[|Upto(q, n)| - 1 - i]
  {
    if n > 0 {
      DownfromReversesUpto(p, q, n - 1);
    }
  }
}
