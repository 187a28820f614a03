/** The friendship graph: requests by email, answers by the receiver, removal by either
    party, and the listings built from it. */
module Friends {
  import opened Text
  import opened Schema
  import opened DbHelpers

  /** The typed email as compared: lower-cased, then trimmed. */
  function NormalizeEmail(email: string): string {
    Trim(ToLower(email))
  }

  /** The first friendship row between `a` and `b`, in either direction: `findFirst` on ids. */
  function Between(d: Db, a: nat, b: nat): (r: Option<nat>)
    ensures r.Some? ==>
      r.value in d.friendships && Links(d.friendships[r.value], a, b) &&
      forall j: nat :: j < r.value && j in d.friendships ==> !Links(d.friendships[j], a, b)
    ensures r.None? ==>
      forall j :: j in d.friendships && j < d.nextFriendship ==> !Links(d.friendships[j], a, b)
  {
    var p := (j: nat) => j in d.friendships && Links(d.friendships[j], a, b);
    var r := Lowest(p, d.nextFriendship);
    assert forall j: nat :: p(j) == (j in d.friendships && Links(d.friendships[j], a, b));
    r
  }

  /** Whether an existing friendship row stops a new request: all but a REJECTED one do. */
  predicate Blocks(f: Option<nat>, d: Db)
    requires f.Some? ==> f.value in d.friendships
  {
    f.Some? && d.friendships[f.value].status != REJECTED
  }

  /** `addFriendByEmail`: a PENDING request from the current user to the user with that email. */
  function AddFriendByEmail(d: Db, currentUserId: nat, friendEmail: string): (s: Step<nat>)
    ensures s.result.Err? ==> s.db == d
    ensures s.result.Ok? <==>
      friendEmail != "" && currentUserId in d.users &&
      ToLower(d.users[currentUserId].email) != NormalizeEmail(friendEmail) &&
      UserByEmail(d, NormalizeEmail(friendEmail)).Some? &&
      !Blocks(Between(d, currentUserId, UserByEmail(d, NormalizeEmail(friendEmail)).value), d)
    ensures s.result.Ok? ==>
      var friend := UserByEmail(d, NormalizeEmail(friendEmail)).value;
      s.result.value == d.nextFriendship &&
      s.db == d.(friendships := d.friendships[d.nextFriendship := Friendship(currentUserId, friend, REQUESTED)],
                 nextFriendship := d.nextFriendship + 1)
  {
    if friendEmail == "" then Step(d, Err(MissingFields))
    else
      var normalized := NormalizeEmail(friendEmail);
      if currentUserId !in d.users then Step(d, Err(UserNotFound))
      else if ToLower(d.users[currentUserId].email) == normalized then Step(d, Err(SelfFriend))
      else
        var friend := UserByEmail(d, normalized);
        if friend.None? then Step(d, Err(UserNotFound))
        else
          var existing := Between(d, currentUserId, friend.value);
          if existing.Some? && d.friendships[existing.value].status == FRIENDS then Step(d, Err(AlreadyFriends))
          else if existing.Some? && d.friendships[existing.value].status == REQUESTED then Step(d, Err(RequestPending))
          else if existing.Some? && d.friendships[existing.value].status == BLOCKED then Step(d, Err(Blocked))
          else
            var f := Friendship(currentUserId, friend.value, REQUESTED);
            Step(d.(friendships := d.friendships[d.nextFriendship := f], nextFriendship := d.nextFriendship + 1),
                 Ok(d.nextFriendship))
  }

  /** No user is their own friend. */
  predicate NoSelfFriendship(d: Db) {
    forall f :: f in d.friendships ==> d.friendships[f].initiator != d.friendships[f].receiver
  }

  /** The self check catches every way of naming oneself, whatever the case of the typed email. */
  lemma AddFriendNeverSelf(d: Db, currentUserId: nat, friendEmail: string)
    requires AddFriendByEmail(d, currentUserId, friendEmail).result.Ok?
    ensures UserByEmail(d, NormalizeEmail(friendEmail)).value != currentUserId
  {
    NormalizedEmailIsLower(friendEmail);
  }

  /** The lookup is exact on the normalised email, so a user whose stored email has upper-case
      letters can never be sent a request. */
  lemma MixedCaseEmailUnreachable(d: Db, currentUserId: nat, friendEmail: string, j: nat)
    requires j in d.users && ToLower(d.users[j].email) != d.users[j].email
    requires AddFriendByEmail(d, currentUserId, friendEmail).result.Ok?
    ensures UserByEmail(d, NormalizeEmail(friendEmail)).value != j
  {
    NormalizedEmailIsLower(friendEmail);
  }

  function Lookup(d: Db, friendshipId: nat): (r: Option<Friendship>)
    ensures r.Some? <==> friendshipId in d.friendships
    ensures r.Some? ==> r.value == d.friendships[friendshipId]
  {
    if friendshipId in d.friendships then Some(d.friendships[friendshipId]) else None
  }

  /** `acceptFriendRequest`: the receiver turns a PENDING request into a friendship. */
  function AcceptFriendRequest(d: Db, currentUserId: nat, friendshipId: nat): (s: Step<Friendship>)
    ensures s.result.Err? ==> s.db == d
    ensures s.result.Ok? <==>
      friendshipId in d.friendships && d.friendships[friendshipId].receiver == currentUserId &&
      d.friendships[friendshipId].status == REQUESTED
    ensures (friendshipId in d.friendships && d.friendships[friendshipId].receiver == currentUserId &&
             d.friendships[friendshipId].status == FRIENDS) ==> s.result == Err(AlreadyFriends)
    ensures s.result.Ok? ==>
      s.result.value == d.friendships[friendshipId].(status := FRIENDS) &&
      s.db == d.(friendships := d.friendships[friendshipId := s.result.value])
  {
    var f := Lookup(d, friendshipId);
    if f.None? then Step(d, Err(RequestNotFound))
    else if f.value.receiver != currentUserId then Step(d, Err(NotReceiver))
    else if f.value.status == FRIENDS then Step(d, Err(AlreadyFriends))
    else if f.value.status != REQUESTED then Step(d, Err(RequestInvalid))
    else
      var g := f.value.(status := FRIENDS);
      Step(d.(friendships := d.friendships[friendshipId := g]), Ok(g))
  }

  /** `rejectFriendRequest`: the receiver marks the row REJECTED, whatever its status. */
  function RejectFriendRequest(d: Db, currentUserId: nat, friendshipId: nat): (s: Step<()>)
    ensures s.result.Err? ==> s.db == d
    ensures s.result.Ok? <==>
      friendshipId in d.friendships && d.friendships[friendshipId].receiver == currentUserId
    ensures s.result.Ok? ==>
      s.db == d.(friendships := d.friendships[friendshipId := d.friendships[friendshipId].(status := REJECTED)])
  {
    var f := Lookup(d, friendshipId);
    if f.None? then Step(d, Err(RequestNotFound))
    else if f.value.receiver != currentUserId then Step(d, Err(NotReceiver))
    else Step(d.(friendships := d.friendships[friendshipId := f.value.(status := REJECTED)]), Ok(()))
  }

  /** `removeFriend`: either party deletes the row. */
  function RemoveFriend(d: Db, currentUserId: nat, friendshipId: nat): (s: Step<()>)
    ensures s.result.Err? ==> s.db == d
    ensures s.result.Ok? <==>
      friendshipId in d.friendships && Involves(d.friendships[friendshipId], currentUserId)
    ensures s.result.Ok? ==> s.db == d.(friendships := d.friendships - {friendshipId})
  {
    var f := Lookup(d, friendshipId);
    if f.None? then Step(d, Err(RequestNotFound))
    else if f.value.initiator != currentUserId && f.value.receiver != currentUserId then Step(d, Err(NotMember))
    else Step(d.(friendships := d.friendships - {friendshipId}), Ok(()))
  }

  /** A change confined to the friendship table keeps the store invariant as long as every
      row stays below the id counter and joins two existing users. */
  lemma GraphOnlyValid(d: Db, e: Db)
    requires Valid(d)
    requires e == d.(friendships := e.friendships, nextFriendship := e.nextFriendship)
    requires forall f :: f in e.friendships ==>
      f < e.nextFriendship && e.friendships[f].initiator in d.users && e.friendships[f].receiver in d.users
    ensures Valid(e)
  {
  }

  lemma AddFriendPreserves(d: Db, currentUserId: nat, friendEmail: string)
    requires Valid(d)
    ensures var e := AddFriendByEmail(d, currentUserId, friendEmail).db;
      Valid(e) && e.(friendships := d.friendships, nextFriendship := d.nextFriendship) == d &&
      (NoSelfFriendship(d) ==> NoSelfFriendship(e))
  {
    var s := AddFriendByEmail(d, currentUserId, friendEmail);
    if s.result.Ok? {
      var friend := UserByEmail(d, NormalizeEmail(friendEmail)).value;
      AddFriendNeverSelf(d, currentUserId, friendEmail);
      RequestPreserves(d, currentUserId, friend);
    }
  }

  /** A new request row between two distinct existing users keeps the invariant. */
  lemma RequestPreserves(d: Db, a: nat, b: nat)
    requires Valid(d) && a in d.users && b in d.users
    ensures var e := d.(friendships := d.friendships[d.nextFriendship := Friendship(a, b, REQUESTED)],
                        nextFriendship := d.nextFriendship + 1);
      Valid(e) && (NoSelfFriendship(d) && a != b ==> NoSelfFriendship(e))
  {
    var e := d.(friendships := d.friendships[d.nextFriendship := Friendship(a, b, REQUESTED)],
                nextFriendship := d.nextFriendship + 1);
    GraphOnlyValid(d, e);
  }

  lemma AcceptFriendPreserves(d: Db, currentUserId: nat, friendshipId: nat)
    requires Valid(d)
    ensures var s := AcceptFriendRequest(d, currentUserId, friendshipId);
      Valid(s.db) && s.db.(friendships := d.friendships) == d &&
      (NoSelfFriendship(d) ==> NoSelfFriendship(s.db)) &&
      (s.result.Ok? ==> AreFriends(s.db, s.result.value.initiator, currentUserId))
  {
    var s := AcceptFriendRequest(d, currentUserId, friendshipId);
    if s.result.Ok? {
      GraphOnlyValid(d, s.db);
      assert s.db.friendships[friendshipId].status == FRIENDS;
      assert Links(s.db.friendships[friendshipId], s.result.value.initiator, currentUserId);
    }
  }

  lemma RejectFriendPreserves(d: Db, currentUserId: nat, friendshipId: nat)
    requires Valid(d)
    ensures var e := RejectFriendRequest(d, currentUserId, friendshipId).db;
      Valid(e) && e.(friendships := d.friendships) == d && (NoSelfFriendship(d) ==> NoSelfFriendship(e))
  {
    var s := RejectFriendRequest(d, currentUserId, friendshipId);
    if s.result.Ok? {
      GraphOnlyValid(d, s.db);
    }
  }

  lemma RemoveFriendPreserves(d: Db, currentUserId: nat, friendshipId: nat)
    requires Valid(d)
    ensures var e := RemoveFriend(d, currentUserId, friendshipId).db;
      Valid(e) && e.(friendships := d.friendships) == d && (NoSelfFriendship(d) ==> NoSelfFriendship(e))
  {
    var s := RemoveFriend(d, currentUserId, friendshipId);
    if s.result.Ok? {
      GraphOnlyValid(d, s.db);
    }
  }

  /** One line of a listing: the friendship row and the other user on it. */
  datatype Entry = Entry(friendshipId: nat, user: nat)

  /** The listing of the friendship rows `fs`, each with the user `pick` selects from it. */
  function Project(d: Db, fs: seq<nat>, pick: Friendship -> nat): (r: seq<Entry>)
    requires forall f :: f in fs ==> f in d.friendships
    ensures |r| == |fs|
    ensures forall i :: 0 <= i < |r| ==> r[i].friendshipId == fs[i]
  {
    seq(|fs|, i requires 0 <= i < |fs| => Entry(fs[i], pick(d.friendships[fs[i]])))
  }

  /** A projected entry is one of the rows with its picked user, and every row is projected. */
  lemma ProjectMembers(d: Db, fs: seq<nat>, pick: Friendship -> nat)
    requires forall f :: f in fs ==> f in d.friendships
    ensures forall e :: e in Project(d, fs, pick) <==>
      e.friendshipId in fs && e.user == pick(d.friendships[e.friendshipId])
  {
    var r := Project(d, fs, pick);
    forall e: Entry | e.friendshipId in fs && e.user == pick(d.friendships[e.friendshipId])
      ensures e in r
    {
      var i :| 0 <= i < |fs| && fs[i] == e.friendshipId;
      assert r[i] == e;
    }
  }

  /** The ACCEPTED friendships `u` takes part in, newest first. */
  function AcceptedNewestFirst(d: Db, u: nat): (r: seq<nat>)
    ensures forall f: nat :: f in r <==>
      f < d.nextFriendship && f in d.friendships && d.friendships[f].status == FRIENDS && Involves(d.friendships[f], u)
    ensures forall a, b :: 0 <= a < b < |r| ==> r[a] > r[b]
  {
    var p := (f: nat) => f in d.friendships && d.friendships[f].status == FRIENDS && Involves(d.friendships[f], u);
    var r := Downfrom(p, d.nextFriendship);
    assert forall f: nat :: p(f) == (f in d.friendships && d.friendships[f].status == FRIENDS && Involves(d.friendships[f], u));
    r
  }

  /** `getFriends`: each ACCEPTED friendship of `u` with the party that is not `u`. */
  function GetFriends(d: Db, u: nat): (r: seq<Entry>)
    ensures forall e :: e in r <==>
      e.friendshipId < d.nextFriendship && e.friendshipId in d.friendships &&
      d.friendships[e.friendshipId].status == FRIENDS && Involves(d.friendships[e.friendshipId], u) &&
      e.user == OtherParty(d.friendships[e.friendshipId], u)
    ensures forall a, b :: 0 <= a < b < |r| ==> r[a].friendshipId > r[b].friendshipId
  {
    var fs := AcceptedNewestFirst(d, u);
    var pick := (f: Friendship) => OtherParty(f, u);
    ProjectMembers(d, fs, pick);
    Project(d, fs, pick)
  }

  /** The friend listing and the helper's friend list name the same users, in opposite order. */
  lemma GetFriendsMatchesUserFriends(d: Db, u: nat)
    ensures |GetFriends(d, u)| == |UserFriends(d, u)|
    ensures forall i :: 0 <= i < |GetFriends(d, u)| ==>
      GetFriends(d, u)[i].user == UserFriends(d, u)[|UserFriends(d, u)| - 1 - i]
  {
    var p := (f: nat) => f in d.friendships && d.friendships[f].status == FRIENDS && Involves(d.friendships[f], u);
    DownfromReversesUpto(p, p, d.nextFriendship);
    var down := AcceptedNewestFirst(d, u);
    var up := AcceptedOf(d, u);
    assert down == Downfrom(p, d.nextFriendship);
    assert up == Upto(p, d.nextFriendship);
  }

  /** The PENDING requests `u` received, newest first, with their senders. */
  function GetPendingFriendRequests(d: Db, u: nat): (r: seq<Entry>)
    ensures forall e :: e in r <==>
      e.friendshipId < d.nextFriendship && e.friendshipId in d.friendships &&
      d.friendships[e.friendshipId].status == REQUESTED && d.friendships[e.friendshipId].receiver == u &&
      e.user == d.friendships[e.friendshipId].initiator
    ensures forall a, b :: 0 <= a < b < |r| ==> r[a].friendshipId > r[b].friendshipId
  {
    var p := (f: nat) => f in d.friendships && d.friendships[f].status == REQUESTED && d.friendships[f].receiver == u;
    var fs := Downfrom(p, d.nextFriendship);
    assert forall f: nat :: p(f) == (f in d.friendships && d.friendships[f].status == REQUESTED && d.friendships[f].receiver == u);
    var pick := (f: Friendship) => f.initiator;
    ProjectMembers(d, fs, pick);
    Project(d, fs, pick)
  }

  /** The PENDING requests `u` sent, newest first, with their receivers. */
  function GetSentFriendRequests(d: Db, u: nat): (r: seq<Entry>)
    ensures forall e :: e in r <==>
      e.friendshipId < d.nextFriendship && e.friendshipId in d.friendships &&
      d.friendships[e.friendshipId].status == REQUESTED && d.friendships[e.friendshipId].initiator == u &&
      e.user == d.friendships[e.friendshipId].receiver
    ensures forall a, b :: 0 <= a < b < |r| ==> r[a].friendshipId > r[b].friendshipId
  {
    var p := (f: nat) => f in d.friendships && d.friendships[f].status == REQUESTED && d.friendships[f].initiator == u;
    var fs := Downfrom(p, d.nextFriendship);
    assert forall f: nat :: p(f) == (f in d.friendships && d.friendships[f].status == REQUESTED && d.friendships[f].initiator == u);
    var pick := (f: Friendship) => f.receiver;
    ProjectMembers(d, fs, pick);
    Project(d, fs, pick)
  }

  /** A request shows up in the sender's sent list exactly when it shows up in the
      receiver's pending list. */
  lemma SentMatchesPending(d: Db, a: nat, b: nat, f: nat)
    ensures Entry(f, b) in GetSentFriendRequests(d, a) <==> Entry(f, a) in GetPendingFriendRequests(d, b)
  {
  }

  /** The enum value of a friendship status as stored. */
  function StatusName(s: FriendshipStatus): string {
    match s
    case REQUESTED => "PENDING"
    case FRIENDS => "ACCEPTED"
    case REJECTED => "REJECTED"
    case BLOCKED => "BLOCKED"
  }

  /** The relationship a search reports for an existing row. */
  function StatusLabel(s: FriendshipStatus): (r: string)
    ensures r == ToLower(StatusName(s))
    ensures r != "none"
  {
    match s
    case REQUESTED => assert ToLower("PENDING") == "pending"; "pending"
    case FRIENDS => assert ToLower("ACCEPTED") == "accepted"; "accepted"
    case REJECTED => assert ToLower("REJECTED") == "rejected"; "rejected"
    case BLOCKED => assert ToLower("BLOCKED") == "blocked"; "blocked"
  }

  datatype SearchHit = SearchHit(id: nat, relationshipStatus: string)

  /** `searchUserByEmail`: the user with that email and how the caller stands with them. */
  function SearchUserByEmail(d: Db, currentUserId: nat, email: string): (r: Result<SearchHit>)
    ensures r.Ok? <==>
      currentUserId in d.users && ToLower(d.users[currentUserId].email) != NormalizeEmail(email) &&
      UserByEmail(d, NormalizeEmail(email)).Some?
    ensures r.Ok? ==>
      var other := UserByEmail(d, NormalizeEmail(email)).value;
      var f := Between(d, currentUserId, other);
      r.value.id == other &&
      (r.value.relationshipStatus == "none" <==> f.None?) &&
      (f.Some? ==> r.value.relationshipStatus == ToLower(StatusName(d.friendships[f.value].status)))
  {
    var normalized := NormalizeEmail(email);
    if currentUserId !in d.users then Err(UserNotFound)
    else if ToLower(d.users[currentUserId].email) == normalized then Err(SelfFriend)
    else
      var other := UserByEmail(d, normalized);
      if other.None? then Err(UserNotFound)
      else
        var f := Between(d, currentUserId, other.value);
        Ok(SearchHit(other.value, if f.Some? then StatusLabel(d.friendships[f.value].status) else "none"))
  }

  /** Search predicts a request: for a non-empty email, a request can be sent exactly when
      the search finds the user and reports no relationship or a rejected one. */
  lemma SearchPredictsAdd(d: Db, currentUserId: nat, email: string)
    requires email != ""
    ensures AddFriendByEmail(d, currentUserId, email).result.Ok? <==>
      var r := SearchUserByEmail(d, currentUserId, email);
      r.Ok? && (r.value.relationshipStatus == "none" || r.value.relationshipStatus == "rejected")
  {
    var r := SearchUserByEmail(d, currentUserId, email);
    if r.Ok? {
      var f := Between(d, currentUserId, r.value.id);
      if f.Some? {
        var st := d.friendships[f.value].status;
        assert r.value.relationshipStatus == StatusLabel(st);
        assert StatusLabel(st) == "rejected" <==> st == REJECTED;
      }
    }
  }
}
