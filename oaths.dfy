/** Oath creation, invitation answers and the per-user oath listing. Each action is a
    function from the database before the call to the database after it and the reply. */
module Oaths {
  import opened Schema
  import opened Ledger
  import DbHelpers

  datatype SoloInput = SoloInput(
    title: string,
    description: string,
    oathType: OathType,
    startDate: int,
    endDate: int,
    stakeAmount: int,
    currency: Currency)

  datatype OathInput = OathInput(
    title: string,
    description: string,
    oathType: OathType,
    startDate: int,
    endDate: int,
    stakeAmount: int,
    currency: Currency,
    verificationPrompt: string,
    participantUserIds: seq<nat>)

  /** The error reported when a balance in `c` is below the stake. */
  function ShortOf(c: Currency): Error {
    match c
    case GEMS => InsufficientGems
    case REAL_MONEY => InsufficientCredits
  }

  /** The verification prompt a solo oath is given. */
  function SoloPrompt(title: string, description: string): string {
    "Verify that the user completed their daily commitment for: " + title + ". " + description
  }

  /** A fresh participant row: no check-ins counted yet. */
  function NewRow(status: ParticipantStatus, stake: int, paid: bool): Participant {
    Participant(status, stake, paid, 0, 0, 0, 0)
  }

  /** `createSoloOath`: an ACTIVE oath whose only participant is the creator, stake paid. */
  function CreateSoloOath(d: Db, userId: nat, input: SoloInput): (s: Step<nat>)
    ensures s.result.Err? ==> s.db == d
    ensures s.result.Ok? <==>
      input.title != "" && input.description != "" && input.stakeAmount >= 0 &&
      input.startDate < input.endDate && userId in d.users &&
      Balance(d.users[userId], input.currency) >= input.stakeAmount
    ensures s.result.Ok? ==>
      var o := s.result.value;
      o == d.nextOath &&
      s.db == d.(oaths := d.oaths[o := Oath(input.title, input.description, input.oathType, ACTIVE,
                                            input.startDate, input.endDate, input.stakeAmount, input.currency,
                                            SoloPrompt(input.title, input.description))],
                 nextOath := o + 1,
                 participants := d.participants[PKey(o, userId) := NewRow(ACCEPTED, input.stakeAmount, true)],
                 users := d.users[userId := Debit(d.users[userId], input.currency, input.stakeAmount)])
  {
    if input.title == "" || input.description == "" then Step(d, Err(MissingFields))
    else if input.stakeAmount < 0 then Step(d, Err(NegativeStake))
    else if input.startDate >= input.endDate then Step(d, Err(BadDates))
    else if userId !in d.users then Step(d, Err(UserNotFound))
    else if Balance(d.users[userId], input.currency) < input.stakeAmount then
      Step(d, Err(ShortOf(input.currency)))
    else
      var o := d.nextOath;
      var oath := Oath(input.title, input.description, input.oathType, ACTIVE, input.startDate,
                       input.endDate, input.stakeAmount, input.currency,
                       SoloPrompt(input.title, input.description));
      var d1 := d.(oaths := d.oaths[o := oath], nextOath := o + 1,
                   participants := d.participants[PKey(o, userId) := NewRow(ACCEPTED, input.stakeAmount, true)]);
      Step(d1.(users := d1.users[userId := Debit(d1.users[userId], input.currency, input.stakeAmount)]), Ok(o))
  }

  /** The invitee list with the creator appended when absent. */
  function WithCreator(ids: seq<nat>, creator: nat): (r: seq<nat>)
    ensures creator in r
    ensures forall u :: u in r <==> u in ids || u == creator
  {
    if creator in ids then ids else ids + [creator]
  }

  /** Every invitee other than the creator is an accepted friend of the creator. */
  predicate AllFriends(d: Db, creator: nat, ids: seq<nat>) {
    forall i :: 0 <= i < |ids| && ids[i] != creator ==> DbHelpers.AreFriends(d, creator, ids[i])
  }

  predicate Distinct(ids: seq<nat>) {
    forall i, j :: 0 <= i < j < |ids| ==> ids[i] != ids[j]
  }

  /** The row created for invitee `u`: the creator starts ACCEPTED, everyone else INVITED;
      no row is marked paid. */
  function InviteRow(u: nat, creator: nat, stake: int): Participant {
    NewRow(if u == creator then ACCEPTED else INVITED, stake, false)
  }

  /** The participant table after the nested create of the rows for `ids` in oath `o`. */
  function AddRows(ps: map<PKey, Participant>, o: nat, ids: seq<nat>, creator: nat, stake: int)
    : (r: map<PKey, Participant>)
    ensures forall k :: k in r <==> k in ps || (k.oath == o && k.user in ids)
    ensures forall k :: k in r && k.oath == o && k.user in ids ==> r[k] == InviteRow(k.user, creator, stake)
    ensures forall k :: k in ps && !(k.oath == o && k.user in ids) ==> r[k] == ps[k]
  {
    if ids == [] then ps
    else
      var u := ids[|ids| - 1];
      AddRows(ps, o, ids[..|ids| - 1], creator, stake)[PKey(o, u) := InviteRow(u, creator, stake)]
  }

  /** `createOath`: a PENDING oath with the creator ACCEPTED and every other invitee
      INVITED at the same stake; only the creator is debited. */
  function CreateOath(d: Db, creator: nat, input: OathInput): (s: Step<nat>)
    ensures s.result.Err? ==> s.db == d
    ensures s.result.Ok? <==>
      input.title != "" && input.description != "" && |input.participantUserIds| > 0 &&
      |WithCreator(input.participantUserIds, creator)| >= 2 && input.stakeAmount >= 0 &&
      input.startDate < input.endDate &&
      AllFriends(d, creator, WithCreator(input.participantUserIds, creator)) &&
      creator in d.users && Balance(d.users[creator], input.currency) >= input.stakeAmount &&
      Distinct(WithCreator(input.participantUserIds, creator))
    ensures s.result.Ok? ==>
      var o := s.result.value;
      var ids := WithCreator(input.participantUserIds, creator);
      o == d.nextOath &&
      s.db == d.(oaths := d.oaths[o := Oath(input.title, input.description, input.oathType, PENDING,
                                            input.startDate, input.endDate, input.stakeAmount, input.currency,
                                            input.verificationPrompt)],
                 nextOath := o + 1,
                 participants := AddRows(d.participants, o, ids, creator, input.stakeAmount),
                 users := d.users[creator := Debit(d.users[creator], input.currency, input.stakeAmount)])
  {
    if input.title == "" || input.description == "" then Step(d, Err(MissingFields))
    else if |input.participantUserIds| == 0 then Step(d, Err(NoParticipants))
    else
      var ids := WithCreator(input.participantUserIds, creator);
      if |ids| < 2 then Step(d, Err(TooFewParticipants))
      else if input.stakeAmount < 0 then Step(d, Err(NegativeStake))
      else if input.startDate >= input.endDate then Step(d, Err(BadDates))
      else if !AllFriends(d, creator, ids) then Step(d, Err(NotFriends))
      else if creator !in d.users then Step(d, Err(UserNotFound))
      else if Balance(d.users[creator], input.currency) < input.stakeAmount then
        Step(d, Err(ShortOf(input.currency)))
      // a repeated id violates the (oathId, userId) constraint and the nested create rolls back
      else if !Distinct(ids) then Step(d, Err(Failed))
      else
        Step(Created(d, creator, input), Ok(d.nextOath))
  }

  /** The store after an accepted `createOath`: the oath, its nested participant rows,
      then the creator's debit. */
  function Created(d: Db, creator: nat, input: OathInput): Db
    requires creator in d.users
  {
    var o := d.nextOath;
    var oath := Oath(input.title, input.description, input.oathType, PENDING, input.startDate,
                     input.endDate, input.stakeAmount, input.currency, input.verificationPrompt);
    var ids := WithCreator(input.participantUserIds, creator);
    var d1 := d.(oaths := d.oaths[o := oath], nextOath := o + 1,
                 participants := AddRows(d.participants, o, ids, creator, input.stakeAmount));
    d1.(users := d1.users[creator := Debit(d1.users[creator], input.currency, input.stakeAmount)])
  }

  /** Every participant row of oath `o` is ACCEPTED. */
  predicate AllAccepted(ps: map<PKey, Participant>, o: nat) {
    forall k :: k in ps && k.oath == o ==> ps[k].status == ACCEPTED
  }

  /** `acceptOathInvitation`: the invitee pays the stake, and the oath starts once everyone
      has accepted and its start date has come. Replies whether everyone has accepted. */
  function AcceptOathInvitation(d: Db, userId: nat, oathId: nat, now: int): (s: Step<bool>)
    ensures s.result.Err? ==> s.db == d
    ensures s.result.Ok? <==>
      PKey(oathId, userId) in d.participants && d.participants[PKey(oathId, userId)].status == INVITED &&
      oathId in d.oaths && userId in d.users &&
      Balance(d.users[userId], d.oaths[oathId].currency) >= d.participants[PKey(oathId, userId)].stakeAmount
    ensures (PKey(oathId, userId) in d.participants &&
             d.participants[PKey(oathId, userId)].status == ACCEPTED) ==> s.result == Err(AlreadyAccepted)
    ensures s.result.Ok? ==>
      var k := PKey(oathId, userId);
      var p := d.participants[k];
      var c := d.oaths[oathId].currency;
      s.result.value == AllAccepted(s.db.participants, oathId) &&
      s.db == d.(participants := d.participants[k := p.(status := ACCEPTED, stakePaid := true)],
                 users := d.users[userId := Debit(d.users[userId], c, p.stakeAmount)],
                 oaths := if s.result.value && d.oaths[oathId].startDate <= now
                          then d.oaths[oathId := d.oaths[oathId].(status := ACTIVE)] else d.oaths)
  {
    var k := PKey(oathId, userId);
    if k !in d.participants then Step(d, Err(InvitationNotFound))
    else
      var p := d.participants[k];
      if p.status == ACCEPTED then Step(d, Err(AlreadyAccepted))
      else if p.status != INVITED then Step(d, Err(InvitationInvalid))
      // the included oath and user rows are read before any write
      else if oathId !in d.oaths || userId !in d.users then Step(d, Err(Failed))
      else
        var oath := d.oaths[oathId];
        if Balance(d.users[userId], oath.currency) < p.stakeAmount then Step(d, Err(ShortOf(oath.currency)))
        else
          var d1 := d.(participants := d.participants[k := p.(status := ACCEPTED, stakePaid := true)]);
          var d2 := d1.(users := d1.users[userId := Debit(d1.users[userId], oath.currency, p.stakeAmount)]);
          var all := AllAccepted(d2.participants, oathId);
          if all && oath.startDate <= now then
            Step(d2.(oaths := d2.oaths[oathId := oath.(status := ACTIVE)]), Ok(all))
          else Step(d2, Ok(all))
  }

  /** `declineOathInvitation`: the invitee declines and the whole oath is cancelled; no
      balance moves. */
  function DeclineOathInvitation(d: Db, userId: nat, oathId: nat): (s: Step<()>)
    ensures s.result.Err? && oathId in d.oaths ==> s.db == d
    ensures s.result.Ok? <==>
      PKey(oathId, userId) in d.participants && d.participants[PKey(oathId, userId)].status == INVITED &&
      oathId in d.oaths
    ensures s.result.Ok? ==>
      var k := PKey(oathId, userId);
      s.db == d.(participants := d.participants[k := d.participants[k].(status := DECLINED)],
                 oaths := d.oaths[oathId := d.oaths[oathId].(status := CANCELLED)])
  {
    var k := PKey(oathId, userId);
    if k !in d.participants then Step(d, Err(InvitationNotFound))
    else if d.participants[k].status != INVITED then Step(d, Err(InvitationInvalid))
    else
      var d1 := d.(participants := d.participants[k := d.participants[k].(status := DECLINED)]);
      // the oath update of a missing row throws after the participant write
      if oathId !in d1.oaths then Step(d1, Err(Failed))
      else Step(d1.(oaths := d1.oaths[oathId := d1.oaths[oathId].(status := CANCELLED)]), Ok(()))
  }

  /** A solo oath adds one row with zero counters and keeps every other row. */
  lemma CreateSoloOathCountersGrow(d: Db, userId: nat, input: SoloInput)
    requires Valid(d)
    ensures CountersGrow(d, CreateSoloOath(d, userId, input).db)
  {
    var s := CreateSoloOath(d, userId, input);
    if s.result.Ok? {
      assert forall k :: k in d.participants ==> k.oath != d.nextOath;
      assert s.db.participants ==
        d.participants[PKey(d.nextOath, userId) := NewRow(ACCEPTED, input.stakeAmount, true)];
    }
  }

  /** A versus oath adds rows with zero counters and keeps every other row. */
  lemma CreateOathCountersGrow(d: Db, creator: nat, input: OathInput)
    requires Valid(d)
    ensures CountersGrow(d, CreateOath(d, creator, input).db)
  {
    var s := CreateOath(d, creator, input);
    if s.result.Ok? {
      var o := d.nextOath;
      assert forall k :: k in d.participants ==> k.oath != o;
      assert s.db.participants ==
        AddRows(d.participants, o, WithCreator(input.participantUserIds, creator), creator, input.stakeAmount);
    }
  }

  /** Accepting changes a status and the paid flag, never a counter. */
  lemma AcceptCountersGrow(d: Db, userId: nat, oathId: nat, now: int)
    ensures CountersGrow(d, AcceptOathInvitation(d, userId, oathId, now).db)
  {
    var s := AcceptOathInvitation(d, userId, oathId, now);
    if s.result.Ok? {
      var k := PKey(oathId, userId);
      var p := d.participants[k];
      assert s.db.participants == d.participants[k := p.(status := ACCEPTED, stakePaid := true)];
    }
  }

  /** Declining changes a status, never a counter. */
  lemma DeclineCountersGrow(d: Db, userId: nat, oathId: nat)
    ensures CountersGrow(d, DeclineOathInvitation(d, userId, oathId).db)
  {
    var k := PKey(oathId, userId);
    if k in d.participants && d.participants[k].status == INVITED {
      assert DeclineOathInvitation(d, userId, oathId).db.participants ==
        d.participants[k := d.participants[k].(status := DECLINED)];
    }
  }

  /** `getUserOaths`: the oaths the user has ACCEPTED, optionally of one status, newest first. */
  function GetUserOaths(d: Db, userId: nat, status: Option<OathStatus>): (r: seq<nat>)
    ensures forall o :: o in r <==>
      o < d.nextOath && o in d.oaths && PKey(o, userId) in d.participants &&
      d.participants[PKey(o, userId)].status == ACCEPTED &&
      (status.Some? ==> d.oaths[o].status == status.value)
    ensures forall a, b :: 0 <= a < b < |r| ==> r[a] > r[b]
  {
    Downfrom(o => o in d.oaths && PKey(o, userId) in d.participants &&
                  d.participants[PKey(o, userId)].status == ACCEPTED &&
                  (status.Some? ==> d.oaths[o].status == status.value), d.nextOath)
  }

  // ---------------------------------------------------------------------------
  // Invariants and conservation

  /** A solo oath keeps the invariant, moves no existing oath or participant and keeps
      balances non-negative. */
  lemma CreateSoloOathPreserves(d: Db, userId: nat, input: SoloInput)
    requires Valid(d)
    ensures var e := CreateSoloOath(d, userId, input).db;
      Valid(e) && (Solvent(d) ==> Solvent(e)) && StatusGuarded(d, e) && ParticipantsGuarded(d, e)
  {
    var s := CreateSoloOath(d, userId, input);
    if s.result.Ok? {
      assert s.db.users == d.users[userId := Debit(d.users[userId], input.currency, input.stakeAmount)];
      NewOathValid(d, s.db, s.result.value);
      if Solvent(d) {
        SolventDebit(d, s.db, userId, input.currency, input.stakeAmount);
      }
    }
  }

  /** Adding oath `o` with rows only for `o`, whose users exist, keeps the invariant when
      the new oath is started only if all its rows are ACCEPTED. */
  lemma NewOathValid(d: Db, e: Db, o: nat)
    requires Valid(d)
    requires o == d.nextOath && e.nextOath == o + 1 && o in e.oaths && e.oaths == d.oaths[o := e.oaths[o]]
    requires e.users.Keys == d.users.Keys && e.nextUser == d.nextUser
    requires forall k :: k in d.participants ==> k in e.participants && e.participants[k] == d.participants[k]
    requires forall k :: k in e.participants && k !in d.participants ==>
      k.oath == o && k.user in d.users && e.participants[k].stakeAmount >= 0
    requires e.oaths[o].status != CANCELLED
    requires Started(e.oaths[o].status) ==> AllAccepted(e.participants, o)
    requires e.checkIns == d.checkIns && e.disputes == d.disputes
    requires e.friendships == d.friendships && e.nextFriendship == d.nextFriendship
    ensures Valid(e) && StatusGuarded(d, e) && ParticipantsGuarded(d, e)
  {
    assert forall k :: k in d.participants ==> k.oath != o;
    forall o' | o' in e.oaths && e.oaths[o'].status == CANCELLED
      ensures HasDecliner(e, o')
    {
      var w :| w in d.participants && w.oath == o' && d.participants[w].status == DECLINED;
      assert w in e.participants && e.participants[w] == d.participants[w];
    }
  }

  /** A solo oath moves exactly the stake from the creator's balance into the oath. */
  lemma CreateSoloOathConserves(d: Db, userId: nat, input: SoloInput)
    requires Valid(d)
    ensures Conserved(d, CreateSoloOath(d, userId, input).db)
  {
    var s := CreateSoloOath(d, userId, input);
    if s.result.Ok? {
      var e := s.db;
      var o := d.nextOath;
      var k := PKey(o, userId);
      assert forall k' :: k' in d.participants ==> k'.oath != o;
      forall c
        ensures Total(e, c) == Total(d, c)
      {
        BalancesDebit(d.users, userId, input.currency, input.stakeAmount, c);
        EscrowNewOath(d.participants, d.oaths, o, e.oaths[o], c);
        EscrowInsert(d.participants, e.oaths, k, NewRow(ACCEPTED, input.stakeAmount, true), c);
      }
    }
  }

  /** The rows added for a new oath hold exactly the creator's stake. */
  lemma {:induction false} EscrowAddRows(ps: map<PKey, Participant>, oaths: map<nat, Oath>, o: nat,
                                          ids: seq<nat>, creator: nat, stake: int, c: Currency)
    requires forall k :: k in ps ==> k.oath != o
    requires Distinct(ids)
    ensures Sum(Escrow(AddRows(ps, o, ids, creator, stake), oaths, c)) ==
            Sum(Escrow(ps, oaths, c)) + (if creator in ids && o in oaths && oaths[o].currency == c then stake else 0)
  {
    if ids != [] {
      var u := ids[|ids| - 1];
      var init := ids[..|ids| - 1];
      assert ids == init + [u];
      assert u !in init;
      assert Distinct(init);
      EscrowAddRows(ps, oaths, o, init, creator, stake, c);
      EscrowInsert(AddRows(ps, o, init, creator, stake), oaths, PKey(o, u), InviteRow(u, creator, stake), c);
    }
  }

  /** A multi-party oath keeps the invariant, moves no existing oath or participant and
      keeps balances non-negative. */
  lemma CreateOathPreserves(d: Db, creator: nat, input: OathInput)
    requires Valid(d)
    ensures var e := CreateOath(d, creator, input).db;
      Valid(e) && (Solvent(d) ==> Solvent(e)) && StatusGuarded(d, e) && ParticipantsGuarded(d, e)
  {
    var s := CreateOath(d, creator, input);
    if s.result.Ok? {
      assert s.db == Created(d, creator, input);
      CreatedPreserves(d, creator, input);
    } else {
      assert s.db == d;
    }
  }

  lemma CreatedPreserves(d: Db, creator: nat, input: OathInput)
    requires Valid(d) && creator in d.users
    requires AllFriends(d, creator, WithCreator(input.participantUserIds, creator))
    requires 0 <= input.stakeAmount <= Balance(d.users[creator], input.currency)
    ensures var e := Created(d, creator, input);
      Valid(e) && (Solvent(d) ==> Solvent(e)) && StatusGuarded(d, e) && ParticipantsGuarded(d, e)
  {
    var e := Created(d, creator, input);
    assert e.oaths == d.oaths[d.nextOath := e.oaths[d.nextOath]] && e.oaths[d.nextOath].status == PENDING;
    assert e.users == d.users[creator := Debit(d.users[creator], input.currency, input.stakeAmount)];
    CreatedRows(d, creator, input);
    NewOathValid(d, e, d.nextOath);
    if Solvent(d) {
      SolventDebit(d, e, creator, input.currency, input.stakeAmount);
    }
  }

  /** The nested create keeps every existing row and adds rows only for the new oath,
      each for an existing user. */
  lemma CreatedRows(d: Db, creator: nat, input: OathInput)
    requires Valid(d) && creator in d.users
    requires AllFriends(d, creator, WithCreator(input.participantUserIds, creator))
    requires 0 <= input.stakeAmount
    ensures var e := Created(d, creator, input);
      (forall k :: k in d.participants ==> k in e.participants && e.participants[k] == d.participants[k]) &&
      (forall k :: k in e.participants && k !in d.participants ==>
         k.oath == d.nextOath && k.user in d.users && e.participants[k].stakeAmount >= 0)
  {
    var e := Created(d, creator, input);
    var o := d.nextOath;
    var ids := WithCreator(input.participantUserIds, creator);
    assert e.participants == AddRows(d.participants, o, ids, creator, input.stakeAmount);
    assert forall k' :: k' in d.participants ==> k'.oath != o;
    forall k' | k' in e.participants && k' !in d.participants
      ensures k'.oath == o && k'.user in d.users && e.participants[k'].stakeAmount >= 0
    {
      if k'.user != creator {
        var i :| 0 <= i < |ids| && ids[i] == k'.user;
        assert DbHelpers.AreFriends(d, creator, ids[i]);
      }
    }
  }

  /** A multi-party oath moves exactly the creator's stake into the oath. */
  lemma CreateOathConserves(d: Db, creator: nat, input: OathInput)
    requires Valid(d)
    ensures Conserved(d, CreateOath(d, creator, input).db)
  {
    var s := CreateOath(d, creator, input);
    if s.result.Ok? {
      assert s.db == Created(d, creator, input);
      CreatedConserves(d, creator, input);
    } else {
      assert s.db == d;
    }
  }

  lemma CreatedConserves(d: Db, creator: nat, input: OathInput)
    requires Valid(d) && creator in d.users && Distinct(WithCreator(input.participantUserIds, creator))
    ensures Conserved(d, Created(d, creator, input))
  {
    forall c
      ensures Total(Created(d, creator, input), c) == Total(d, c)
    {
      CreatedTotal(d, creator, input, c);
    }
  }

  /** The creator's debit in currency `c` equals what the creator's new row holds in `c`. */
  lemma CreatedTotal(d: Db, creator: nat, input: OathInput, c: Currency)
    requires Valid(d) && creator in d.users && Distinct(WithCreator(input.participantUserIds, creator))
    ensures Total(Created(d, creator, input), c) == Total(d, c)
  {
    CreatedBalances(d, creator, input, c);
    CreatedEscrow(d, creator, input, c);
  }

  lemma CreatedBalances(d: Db, creator: nat, input: OathInput, c: Currency)
    requires creator in d.users
    ensures Sum(Balances(Created(d, creator, input).users, c)) ==
            Sum(Balances(d.users, c)) - (if input.currency == c then input.stakeAmount else 0)
  {
    assert Created(d, creator, input).users ==
           d.users[creator := Debit(d.users[creator], input.currency, input.stakeAmount)];
    BalancesDebit(d.users, creator, input.currency, input.stakeAmount, c);
  }

  lemma CreatedEscrow(d: Db, creator: nat, input: OathInput, c: Currency)
    requires Valid(d) && creator in d.users && Distinct(WithCreator(input.participantUserIds, creator))
    ensures Sum(Escrow(Created(d, creator, input).participants, Created(d, creator, input).oaths, c)) ==
            Sum(Escrow(d.participants, d.oaths, c)) + (if input.currency == c then input.stakeAmount else 0)
  {
    var e := Created(d, creator, input);
    var o := d.nextOath;
    var ids := WithCreator(input.participantUserIds, creator);
    assert e.participants == AddRows(d.participants, o, ids, creator, input.stakeAmount);
    assert e.oaths == d.oaths[o := e.oaths[o]] && e.oaths[o].currency == input.currency;
    assert forall k' :: k' in d.participants ==> k'.oath != o;
    EscrowNewOath(d.participants, d.oaths, o, e.oaths[o], c);
    EscrowAddRows(d.participants, e.oaths, o, ids, creator, input.stakeAmount, c);
  }

  /** Accepting keeps the invariant and balances non-negative; the only status moves are
      the invitee's INVITED -> ACCEPTED and the oath's PENDING -> ACTIVE. A CANCELLED oath
      stays CANCELLED. */
  lemma AcceptPreserves(d: Db, userId: nat, oathId: nat, now: int)
    requires Valid(d)
    ensures var e := AcceptOathInvitation(d, userId, oathId, now).db;
      Valid(e) && (Solvent(d) ==> Solvent(e)) && StatusGuarded(d, e) && ParticipantsGuarded(d, e)
  {
    var s := AcceptOathInvitation(d, userId, oathId, now);
    if s.result.Ok? {
      var k := PKey(oathId, userId);
      AnswerValid(d, s.db, k, s.db.oaths[oathId].status);
      if Solvent(d) {
        SolventDebit(d, s.db, userId, d.oaths[oathId].currency, d.participants[k].stakeAmount);
      }
    }
  }

  /** `e` is `d` after answering invitation `k`: the row leaves INVITED, and the oath either
      keeps its status, is cancelled by a decline, or starts once all rows are ACCEPTED. */
  predicate Answered(d: Db, e: Db, k: PKey, st: OathStatus) {
    k in d.participants && d.participants[k].status == INVITED && k.oath in d.oaths &&
    k in e.participants && e.participants == d.participants[k := e.participants[k]] &&
    e.participants[k].stakeAmount == d.participants[k].stakeAmount &&
    (e.participants[k].status == ACCEPTED || e.participants[k].status == DECLINED) &&
    e.oaths == d.oaths[k.oath := d.oaths[k.oath].(status := st)] &&
    (st == d.oaths[k.oath].status ||
     (st == ACTIVE && AllAccepted(e.participants, k.oath)) ||
     (st == CANCELLED && e.participants[k].status == DECLINED)) &&
    e.users.Keys == d.users.Keys &&
    e.nextUser == d.nextUser && e.nextOath == d.nextOath &&
    e.checkIns == d.checkIns && e.disputes == d.disputes &&
    e.friendships == d.friendships && e.nextFriendship == d.nextFriendship
  }

  lemma AnswerValid(d: Db, e: Db, k: PKey, st: OathStatus)
    requires Valid(d) && Answered(d, e, k, st)
    ensures Valid(e) && StatusGuarded(d, e) && ParticipantsGuarded(d, e)
  {
    AnswerStarted(d, e, k, st);
    AnswerCancelled(d, e, k, st);
    AnswerStatus(d, e, k, st);
    AnswerParticipants(d, e, k, st);
    AnswerRefs(d, e, k, st);
  }

  lemma AnswerParticipants(d: Db, e: Db, k: PKey, st: OathStatus)
    requires Answered(d, e, k, st)
    ensures ParticipantsGuarded(d, e)
  {
    forall k' | k' in d.participants
      ensures k' in e.participants && e.participants[k'].stakeAmount == d.participants[k'].stakeAmount &&
              AnswerStep(d.participants[k'].status, e.participants[k'].status)
    {
      if k' != k {
        assert e.participants[k'] == d.participants[k'];
      }
    }
  }

  lemma AnswerRefs(d: Db, e: Db, k: PKey, st: OathStatus)
    requires Valid(d) && Answered(d, e, k, st)
    ensures IdsFresh(e) && RefsIntact(e) && StakesNonNegative(e)
  {
    assert e.participants.Keys == d.participants.Keys && e.oaths.Keys == d.oaths.Keys;
    forall k' | k' in e.participants
      ensures e.participants[k'].stakeAmount >= 0
    {
      if k' != k {
        assert e.participants[k'] == d.participants[k'];
      }
    }
  }

  lemma AnswerStatus(d: Db, e: Db, k: PKey, st: OathStatus)
    requires Valid(d) && Answered(d, e, k, st)
    ensures StatusGuarded(d, e)
  {
    var o := k.oath;
    assert !Started(d.oaths[o].status);
    if d.oaths[o].status == CANCELLED {
      var w :| w in d.participants && w.oath == o && d.participants[w].status == DECLINED;
      assert w != k && e.participants[w].status == DECLINED;
      assert !AllAccepted(e.participants, o);
    }
    assert StatusStep(d.oaths[o].status, st);
    forall o' | o' in d.oaths
      ensures o' in e.oaths && StatusStep(d.oaths[o'].status, e.oaths[o'].status)
    {
      if o' != o {
        assert e.oaths[o'] == d.oaths[o'];
      }
    }
  }

  lemma AnswerStarted(d: Db, e: Db, k: PKey, st: OathStatus)
    requires Valid(d) && Answered(d, e, k, st)
    ensures forall k' :: k' in e.participants ==> k'.oath in e.oaths
    ensures StartedAllAccepted(e)
  {
    var o := k.oath;
    assert !Started(d.oaths[o].status);
    if d.oaths[o].status == CANCELLED {
      var w :| w in d.participants && w.oath == o && d.participants[w].status == DECLINED;
      assert w != k && e.participants[w].status == DECLINED;
      assert !AllAccepted(e.participants, o);
    }
    forall k' | k' in e.participants && Started(e.oaths[k'.oath].status)
      ensures e.participants[k'].status == ACCEPTED
    {
      if k'.oath != o && k' != k {
        assert e.participants[k'] == d.participants[k'];
      }
    }
  }

  lemma AnswerCancelled(d: Db, e: Db, k: PKey, st: OathStatus)
    requires Valid(d) && Answered(d, e, k, st)
    ensures CancelledByDecline(e)
  {
    var o := k.oath;
    forall o' | o' in e.oaths && e.oaths[o'].status == CANCELLED
      ensures HasDecliner(e, o')
    {
      if o' == o && e.participants[k].status == DECLINED {
        assert k in e.participants && k.oath == o';
      } else {
        var w :| w in d.participants && w.oath == o' && d.participants[w].status == DECLINED;
        assert w != k && e.participants[w] == d.participants[w];
      }
    }
  }


  /** Accepting moves exactly the invitee's stake from their balance into the oath. */
  lemma AcceptConserves(d: Db, userId: nat, oathId: nat, now: int)
    requires Valid(d)
    ensures Conserved(d, AcceptOathInvitation(d, userId, oathId, now).db)
  {
    var s := AcceptOathInvitation(d, userId, oathId, now);
    if s.result.Ok? {
      var e := s.db;
      var k := PKey(oathId, userId);
      var p := d.participants[k];
      var cur := d.oaths[oathId].currency;
      forall c
        ensures Total(e, c) == Total(d, c)
      {
        BalancesDebit(d.users, userId, cur, p.stakeAmount, c);
        EscrowOathStatus(e.participants, d.oaths, oathId, ACTIVE, c);
        EscrowUpdate(d.participants, d.oaths, k, p.(status := ACCEPTED, stakePaid := true), c);
      }
    }
  }

  /** Declining keeps the invariant, moves no balance, and cancels a PENDING oath (a
      CANCELLED one stays so); under the invariant no error leaves a partial write. */
  lemma DeclinePreserves(d: Db, userId: nat, oathId: nat)
    requires Valid(d)
    ensures var s := DeclineOathInvitation(d, userId, oathId);
      Valid(s.db) && (s.result.Err? ==> s.db == d) && s.db.users == d.users &&
      StatusGuarded(d, s.db) && ParticipantsGuarded(d, s.db)
  {
    var s := DeclineOathInvitation(d, userId, oathId);
    if s.result.Ok? {
      AnswerValid(d, s.db, PKey(oathId, userId), CANCELLED);
    }
  }

  /** Declining moves no currency: there is no refund of the stakes already paid. */
  lemma DeclineConserves(d: Db, userId: nat, oathId: nat)
    requires Valid(d)
    ensures Conserved(d, DeclineOathInvitation(d, userId, oathId).db)
  {
    var s := DeclineOathInvitation(d, userId, oathId);
    if s.result.Ok? {
      var e := s.db;
      var k := PKey(oathId, userId);
      var p := d.participants[k];
      forall c
        ensures Total(e, c) == Total(d, c)
      {
        EscrowOathStatus(e.participants, d.oaths, oathId, CANCELLED, c);
        EscrowUpdate(d.participants, d.oaths, k, p.(status := DECLINED), c);
      }
    }
  }
}
