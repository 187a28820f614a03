/** `updateLeetCodeUsername`: the only profile field a user sets directly. */
module Users {
  import opened Text
  import opened Schema

  /** The stored form of a typed username: trimmed, and null when nothing is left. */
  function NormalizeUsername(name: string): Option<string> {
    var t := Trim(name);
    if t == [] then None else Some(t)
  }

  /** Null exactly when only whitespace was typed; otherwise the typed name without its outer whitespace. */
  lemma NormalizeUsernameMeaning(name: string)
    ensures var r := NormalizeUsername(name);
      (r.None? <==> forall i :: 0 <= i < |name| ==> IsWhitespace(name[i])) &&
      (r.Some? ==> r.value == Trim(name) && r.value != [] &&
                   !IsWhitespace(r.value[0]) && !IsWhitespace(r.value[|r.value| - 1]))
  {
    var t := TrimStart(name);
    if forall i :: 0 <= i < |name| ==> IsWhitespace(name[i]) {
      assert t == [];
    } else {
      TrimmedHasNoOuterWhitespace(name);
    }
  }

  /** A stored username reads back as itself: normalising it again changes nothing. */
  lemma NormalizeUsernameIdempotent(name: string)
    ensures var r := NormalizeUsername(name); r.Some? ==> NormalizeUsername(r.value) == r
  {
    TrimIdempotent(name);
  }

  /** Writes the normalised username into the user row; a missing row throws. */
  function UpdateLeetCodeUsername(d: Db, userId: nat, name: string): (s: Step<User>)
    ensures s.result.Err? ==> s.db == d
    ensures s.result.Ok? <==> userId in d.users
    ensures s.result.Ok? ==>
      s.db.(users := d.users) == d && s.db.users.Keys == d.users.Keys &&
      s.result.value == s.db.users[userId] &&
      s.db.users[userId].leetcodeUsername == NormalizeUsername(name) &&
      s.db.users[userId].(leetcodeUsername := d.users[userId].leetcodeUsername) == d.users[userId] &&
      forall j :: j in d.users && j != userId ==> s.db.users[j] == d.users[j]
  {
    if userId !in d.users then Step(d, Err(Failed))
    else
      var u := d.users[userId].(leetcodeUsername := NormalizeUsername(name));
      Step(d.(users := d.users[userId := u]), Ok(u))
  }

  /** Setting the same username twice stores what setting it once does. */
  lemma UpdateLeetCodeUsernameIdempotent(d: Db, userId: nat, name: string)
    ensures var e := UpdateLeetCodeUsername(d, userId, name).db;
      UpdateLeetCodeUsername(e, userId, name).db == e
  {
    var e := UpdateLeetCodeUsername(d, userId, name).db;
    if userId in d.users {
      assert e.users[userId := e.users[userId]] == e.users;
    }
  }
}
