/** The LeetCode webhook: an accepted submission marks today's check-in of every ACTIVE
    DAILY oath of the users linked to that LeetCode account as complete, and counts a
    success the first time that day is completed. */
module LeetCodeSolved {
  import opened Text
  import opened Json
  import opened Schema
  import opened Ledger
  import CheckIns

  const DayMs: int := 86400000
  /** Timestamps below this are taken to be in seconds. */
  const SecondsCutoff: int := 1000000000000
  /** The largest time, in milliseconds either side of the epoch, a JavaScript `Date` can hold. */
  const MaxTimeMs: int := 8640000000000000

  /** `toStartOfDay`: the UTC midnight that begins the day of `ts`. */
  function ToStartOfDay(ts: int): (r: int)
    ensures r <= ts < r + DayMs
    ensures r % DayMs == 0
  {
    (ts / DayMs) * DayMs
  }

  lemma ToStartOfDayIdempotent(ts: int)
    ensures ToStartOfDay(ToStartOfDay(ts)) == ToStartOfDay(ts)
  {
    var r := ToStartOfDay(ts);
    assert r / DayMs == ts / DayMs;
  }

  /** A later instant never has an earlier day start, and two instants less than a day
      after the same day start share it. */
  lemma ToStartOfDayMonotone(a: int, b: int)
    requires a <= b
    ensures ToStartOfDay(a) <= ToStartOfDay(b)
    ensures b < ToStartOfDay(a) + DayMs ==> ToStartOfDay(b) == ToStartOfDay(a)
  {
    assert a / DayMs <= b / DayMs;
    if b < ToStartOfDay(a) + DayMs {
      assert b / DayMs == a / DayMs;
    }
  }

  /** A value below the cutoff is read as seconds. */
  function ToMillis(n: int): int {
    if n < SecondsCutoff then n * 1000 else n
  }

  /** Every plausible seconds timestamp (from 2001 on) becomes milliseconds at the cutoff
      or above, which are kept as they are: converting again changes nothing. */
  lemma ToMillisStable(n: int)
    requires n >= 1000000000
    ensures ToMillis(n) >= SecondsCutoff && ToMillis(ToMillis(n)) == ToMillis(n)
  {
  }

  /** `normalizeTimestamp`: a number, or a string read by `parseInt`, made into milliseconds;
      anything else falls back to `fallbackMs`. */
  function NormalizeTimestamp(value: JVal, fallbackMs: int): int {
    match value
    case JNum(n) => ToMillis(n)
    case JStr(s) =>
      (match ParseInt(s)
       case Finite(n) => ToMillis(n)
       case NaN => fallbackMs)
    case _ => fallbackMs
  }

  /** A timestamp sent as a decimal string means what the same number means. */
  lemma NormalizeTimestampOfString(n: int, fallbackMs: int)
    ensures NormalizeTimestamp(JStr(IntToString(n)), fallbackMs) == NormalizeTimestamp(JNum(n), fallbackMs)
  {
    ParseIntOfIntToString(n);
  }

  /** A string with no leading digits, and any value that is neither number nor string, gives the fallback. */
  lemma NormalizeTimestampFallback(value: JVal, fallbackMs: int)
    requires !value.JNum? && !(value.JStr? && ParseInt(value.s).Finite?)
    ensures NormalizeTimestamp(value, fallbackMs) == fallbackMs
  {
  }

  /** The fields of an accepted payload. */
  datatype Solved = Solved(id: string, title: string, titleSlug: string, username: string, solvedAt: JVal)

  /** The payload check: `id`, `title`, `titleSlug` and `username` must be non-empty strings.
      A `null` body reads as an empty object. */
  function ReadPayload(raw: JVal): (r: Option<Solved>)
    ensures var body := Coalesce(raw, JObj(map[]));
      r.Some? <==>
        NonEmptyString(Get(body, "id")) && NonEmptyString(Get(body, "title")) &&
        NonEmptyString(Get(body, "titleSlug")) && NonEmptyString(Get(body, "username"))
    ensures r.Some? ==>
      var body := Coalesce(raw, JObj(map[]));
      r.value == Solved(Get(body, "id").s, Get(body, "title").s, Get(body, "titleSlug").s,
                        Get(body, "username").s, Get(body, "solvedAt"))
  {
    var body := Coalesce(raw, JObj(map[]));
    var id, title, slug, user := Get(body, "id"), Get(body, "title"), Get(body, "titleSlug"), Get(body, "username");
    if !id.JStr? || id.s == "" || !title.JStr? || title.s == "" || !slug.JStr? || slug.s == "" ||
       !user.JStr? || user.s == "" then None
    else Some(Solved(id.s, title.s, slug.s, user.s, Get(body, "solvedAt")))
  }

  /** The users linked to the LeetCode account, in id order. */
  function Solvers(d: Db, username: string): (r: seq<nat>)
    ensures forall i: nat :: i in r <==> i < d.nextUser && i in d.users && d.users[i].leetcodeUsername == Some(username)
    ensures forall a, b :: 0 <= a < b < |r| ==> r[a] < r[b]
  {
    var p := (i: nat) => i in d.users && d.users[i].leetcodeUsername == Some(username);
    var r := Upto(p, d.nextUser);
    assert forall i: nat :: p(i) == (i in d.users && d.users[i].leetcodeUsername == Some(username));
    r
  }

  /** An ACTIVE DAILY oath with `k.user` as an ACCEPTED participant. */
  predicate Eligible(d: Db, k: PKey) {
    k.oath in d.oaths && d.oaths[k.oath].oathType == DAILY && d.oaths[k.oath].status == ACTIVE &&
    k in d.participants && d.participants[k].status == ACCEPTED
  }

  /** The oaths the webhook touches for user `u`, in id order. */
  function DailyOaths(d: Db, u: nat): (r: seq<nat>)
    ensures forall o: nat :: o in r <==> o < d.nextOath && Eligible(d, PKey(o, u))
    ensures forall a, b :: 0 <= a < b < |r| ==> r[a] < r[b]
  {
    var p := (o: nat) => Eligible(d, PKey(o, u));
    var r := Upto(p, d.nextOath);
    assert forall o: nat :: p(o) == Eligible(d, PKey(o, u));
    r
  }

  function OathPairs(d: Db, u: nat): (r: seq<PKey>)
    ensures |r| == |DailyOaths(d, u)|
    ensures forall i :: 0 <= i < |r| ==> r[i] == PKey(DailyOaths(d, u)[i], u)
  {
    var os := DailyOaths(d, u);
    seq(|os|, i requires 0 <= i < |os| => PKey(os[i], u))
  }

  /** The (user, oath) pairs in the order the nested loops visit them. */
  function PairsOf(d: Db, us: seq<nat>): (r: seq<PKey>)
    ensures forall k :: k in r <==> k.user in us && k.oath < d.nextOath && Eligible(d, k)
  {
    if us == [] then []
    else
      var init := PairsOf(d, us[..|us| - 1]);
      var last := OathPairs(d, us[|us| - 1]);
      assert forall k :: k in last <==> k.user == us[|us| - 1] && k.oath < d.nextOath && Eligible(d, k) by {
        forall k | k in last
          ensures k.user == us[|us| - 1] && k.oath < d.nextOath && Eligible(d, k)
        {
          var i :| 0 <= i < |last| && last[i] == k;
          assert DailyOaths(d, us[|us| - 1])[i] in DailyOaths(d, us[|us| - 1]);
        }
        forall k: PKey | k.user == us[|us| - 1] && k.oath < d.nextOath && Eligible(d, k)
          ensures k in last
        {
          var os := DailyOaths(d, us[|us| - 1]);
          var i :| 0 <= i < |os| && os[i] == k.oath;
          assert last[i] == k;
        }
      }
      assert forall u :: u in us <==> u in us[..|us| - 1] || u == us[|us| - 1];
      init + last
  }

  predicate NoRepeats(ks: seq<PKey>) {
    forall i, j :: 0 <= i < j < |ks| ==> ks[i] != ks[j]
  }

  /** Every pair is visited once: users and their oaths are each listed in strictly increasing id. */
  lemma {:induction false} PairsOfNoRepeats(d: Db, us: seq<nat>)
    requires forall a, b :: 0 <= a < b < |us| ==> us[a] < us[b]
    ensures NoRepeats(PairsOf(d, us))
  {
    if us != [] {
      var front := us[..|us| - 1];
      var u := us[|us| - 1];
      PairsOfNoRepeats(d, front);
      var init, last := PairsOf(d, front), OathPairs(d, u);
      var os := DailyOaths(d, u);
      assert forall k :: k in init ==> k.user in front;
      assert u !in front;
      var r := init + last;
      forall i, j | 0 <= i < j < |r|
        ensures r[i] != r[j]
      {
        if j >= |init| && i < |init| {
          assert r[i] in init;
          assert r[j].user == u;
        }
        if i >= |init| {
          assert os[i - |init|] < os[j - |init|];
        }
      }
    }
  }

  /** The check-in row of pair `k` for the day starting at `day`. */
  function DayKey(k: PKey, day: int): CKey {
    CKey(k.oath, k.user, day)
  }

  /** Whether the day already has a completed check-in, in which case no success is counted. */
  predicate AlreadyComplete(d: Db, c: CKey) {
    c in d.checkIns && IsComplete(d.checkIns[c].status)
  }

  /** What one accepted submission writes into every row it touches. */
  datatype Solve = Solve(titleSlug: string, title: string, ts: int, day: int, now: int)

  const AutoVerdict: string := "Auto-verified as completed via LeetCode accepted submission."

  function ProofUrl(slug: string): string { "https://leetcode.com/problems/" + slug }

  function ProofText(title: string): string { "Auto-verified via LeetCode API: " + title }

  /** The upsert's update half: every proof field but the image is overwritten. */
  function Stamp(c: CheckIn, v: Solve): CheckIn {
    c.(proofUrl := Some(ProofUrl(v.titleSlug)), proofText := Some(ProofText(v.title)), submittedAt := v.ts,
       status := VERIFIED_COMPLETE, aiVerificationResult := Some(AutoVerdict), aiVerifiedAt := Some(v.now))
  }

  /** A row already carrying what `v` writes. */
  predicate Stamped(c: CheckIn, v: Solve) {
    Stamp(c, v) == c
  }

  /** The upsert of the day's row for pair `k`. */
  function WriteRow(d: Db, k: PKey, v: Solve): Db {
    var key := DayKey(k, v.day);
    var row := if key in d.checkIns then Stamp(d.checkIns[key], v)
               else CheckIn(Some(ProofUrl(v.titleSlug)), Some(ProofText(v.title)), None, v.ts,
                            VERIFIED_COMPLETE, Some(AutoVerdict), Some(v.now));
    d.(checkIns := d.checkIns[key := row])
  }

  /** `updateMany` on (oath, user): one more success for the one participant row, if any. */
  function CountSuccess(d: Db, k: PKey): Db {
    if k in d.participants then
      d.(participants := d.participants[k := d.participants[k].(successCount := d.participants[k].successCount + 1)])
    else d
  }

  /** One iteration of the inner loop, for the pair `k`. */
  function Record(d: Db, k: PKey, v: Solve): Db {
    var d1 := WriteRow(d, k, v);
    if AlreadyComplete(d, DayKey(k, v.day)) then d1 else CountSuccess(d1, k)
  }

  /** The loops over the pairs `ks`, in order. */
  function RecordAll(d: Db, ks: seq<PKey>, v: Solve): Db {
    if ks == [] then d else Record(RecordAll(d, ks[..|ks| - 1], v), ks[|ks| - 1], v)
  }

  /** One more pair is one more iteration. */
  lemma RecordAllSnoc(d: Db, ks: seq<PKey>, k: PKey, v: Solve)
    ensures RecordAll(d, ks + [k], v) == Record(RecordAll(d, ks, v), k, v)
  {
    assert (ks + [k])[..|ks|] == ks;
  }

  function DayKeys(ks: seq<PKey>, day: int): set<CKey> {
    set k | k in ks :: DayKey(k, day)
  }

  /** What the webhook may change: check-in rows are added or rewritten and success counts
      move; nothing else does. */
  predicate Unmoved(d: Db, e: Db) {
    e.users == d.users && e.nextUser == d.nextUser && e.oaths == d.oaths && e.nextOath == d.nextOath &&
    e.friendships == d.friendships && e.nextFriendship == d.nextFriendship && e.disputes == d.disputes &&
    SameStakes(d.participants, e.participants) &&
    forall k :: k in d.participants ==> e.participants[k].(successCount := d.participants[k].successCount) == d.participants[k]
  }

  lemma UnmovedTrans(a: Db, b: Db, c: Db)
    requires Unmoved(a, b) && Unmoved(b, c)
    ensures Unmoved(a, c)
  {
  }

  lemma WriteRowFrame(d: Db, k: PKey, v: Solve)
    ensures var e := WriteRow(d, k, v);
      var key := DayKey(k, v.day);
      e == d.(checkIns := e.checkIns) && e.checkIns.Keys == d.checkIns.Keys + {key} &&
      (forall c :: c in d.checkIns && c != key ==> e.checkIns[c] == d.checkIns[c]) &&
      e.checkIns[key].status == VERIFIED_COMPLETE && Stamped(e.checkIns[key], v)
  {
  }

  lemma CountSuccessFrame(d: Db, k: PKey)
    ensures var e := CountSuccess(d, k);
      Unmoved(d, e) && e.checkIns == d.checkIns
  {
    if k in d.participants {
      var e := CountSuccess(d, k);
      var p := d.participants[k];
      assert e == d.(participants := d.participants[k := p.(successCount := p.successCount + 1)]);
      assert SameStakes(d.participants, e.participants);
      forall j | j in d.participants
        ensures e.participants[j].(successCount := d.participants[j].successCount) == d.participants[j]
      {
        if j == k {
          assert e.participants[j] == p.(successCount := p.successCount + 1);
        }
      }
    }
  }

  /** One iteration adds or rewrites the one day key, stamped, and moves nothing else. */
  lemma RecordFrame(d: Db, k: PKey, v: Solve)
    ensures var e := Record(d, k, v);
      var key := DayKey(k, v.day);
      Unmoved(d, e) && e.checkIns.Keys == d.checkIns.Keys + {key} &&
      (forall c :: c in d.checkIns && c != key ==> e.checkIns[c] == d.checkIns[c]) &&
      e.checkIns[key].status == VERIFIED_COMPLETE && Stamped(e.checkIns[key], v)
  {
    var d1 := WriteRow(d, k, v);
    WriteRowFrame(d, k, v);
    assert Unmoved(d, d1);
    if !AlreadyComplete(d, DayKey(k, v.day)) {
      CountSuccessFrame(d1, k);
      UnmovedTrans(d, d1, Record(d, k, v));
    }
  }

  /** The frame of the loops: rows outside the day keys of `ks` are left alone, and the
      day key of every pair ends up stamped. */
  lemma {:induction false} RecordAllFrame(d: Db, ks: seq<PKey>, v: Solve)
    ensures var e := RecordAll(d, ks, v);
      Unmoved(d, e) && e.checkIns.Keys == d.checkIns.Keys + DayKeys(ks, v.day) &&
      (forall c :: c in d.checkIns && c !in DayKeys(ks, v.day) ==> e.checkIns[c] == d.checkIns[c]) &&
      (forall k :: k in ks ==> e.checkIns[DayKey(k, v.day)].status == VERIFIED_COMPLETE && Stamped(e.checkIns[DayKey(k, v.day)], v))
  {
    if ks != [] {
      var front := ks[..|ks| - 1];
      var last := ks[|ks| - 1];
      var lastKey := DayKey(last, v.day);
      RecordAllFrame(d, front, v);
      var e' := RecordAll(d, front, v);
      var e := RecordAll(d, ks, v);
      assert e == Record(e', last, v);
      RecordFrame(e', last, v);
      UnmovedTrans(d, e', e);
      DayKeysSnoc(ks, v.day);
      forall c | c in d.checkIns && c !in DayKeys(ks, v.day)
        ensures e.checkIns[c] == d.checkIns[c]
      {
        assert c !in DayKeys(front, v.day) && c != lastKey;
      }
      forall k | k in ks
        ensures e.checkIns[DayKey(k, v.day)].status == VERIFIED_COMPLETE && Stamped(e.checkIns[DayKey(k, v.day)], v)
      {
        if DayKey(k, v.day) != lastKey {
          assert k in front;
          assert DayKey(k, v.day) in e'.checkIns;
        }
      }
    }
  }

  lemma DayKeysSnoc(ks: seq<PKey>, day: int)
    requires ks != []
    ensures forall k :: k in ks <==> k in ks[..|ks| - 1] || k == ks[|ks| - 1]
    ensures DayKeys(ks, day) == DayKeys(ks[..|ks| - 1], day) + {DayKey(ks[|ks| - 1], day)}
  {
    var front := ks[..|ks| - 1];
    assert ks == front + [ks[|ks| - 1]];
    forall c | c in DayKeys(ks, day)
      ensures c in DayKeys(front, day) + {DayKey(ks[|ks| - 1], day)}
    {
      var k :| k in ks && c == DayKey(k, day);
      if k != ks[|ks| - 1] {
        assert k in front;
      }
    }
  }

  /** One iteration counts a success for `k` alone, and only when its day was not yet complete. */
  lemma RecordCount(d: Db, k: PKey, v: Solve, j: PKey)
    requires j in d.participants
    ensures var e := Record(d, k, v);
      j in e.participants &&
      e.participants[j] == d.participants[j].(successCount := d.participants[j].successCount +
        (if j == k && !AlreadyComplete(d, DayKey(k, v.day)) then 1 else 0))
  {
    var d1 := WriteRow(d, k, v);
    assert d1.participants == d.participants;
    var e := Record(d, k, v);
    if AlreadyComplete(d, DayKey(k, v.day)) || k !in d.participants {
      assert e.participants == d.participants;
    } else {
      var p := d.participants[k];
      assert e.participants == d.participants[k := p.(successCount := p.successCount + 1)];
    }
  }

  /** Exactly once per pair: the success count of `k` goes up by one when `k` is among the
      pairs and its day was not already complete, and every other field stays. */
  lemma {:induction false} RecordAllCounts(d: Db, ks: seq<PKey>, v: Solve, k: PKey)
    requires NoRepeats(ks)
    requires k in d.participants
    ensures var e := RecordAll(d, ks, v);
      k in e.participants &&
      e.participants[k] == d.participants[k].(successCount := d.participants[k].successCount +
        (if k in ks && !AlreadyComplete(d, DayKey(k, v.day)) then 1 else 0))
  {
    if ks != [] {
      var front := ks[..|ks| - 1];
      var last := ks[|ks| - 1];
      assert NoRepeats(front);
      RecordAllCounts(d, front, v, k);
      var e := RecordAll(d, front, v);
      RecordCount(e, last, v, k);
      assert k in ks <==> k in front || k == last;
      if k == last {
        RecordAllFrame(d, front, v);
        assert k !in front;
        assert DayKey(last, v.day) !in DayKeys(front, v.day);
        assert AlreadyComplete(e, DayKey(last, v.day)) == AlreadyComplete(d, DayKey(last, v.day));
      }
    }
  }

  /** Once every day key is complete, a rerun counts nothing. */
  lemma {:induction false} RecordAllNoCount(d: Db, ks: seq<PKey>, v: Solve)
    requires forall k :: k in ks ==> AlreadyComplete(d, DayKey(k, v.day))
    ensures RecordAll(d, ks, v).participants == d.participants
  {
    if ks != [] {
      var front := ks[..|ks| - 1];
      var last := ks[|ks| - 1];
      RecordAllNoCount(d, front, v);
      RecordAllFrame(d, front, v);
      assert AlreadyComplete(RecordAll(d, front, v), DayKey(last, v.day));
    }
  }

  /** Once every day key is stamped with `v`, a rerun with `v` writes nothing new. */
  lemma {:induction false} RecordAllFixpoint(d: Db, ks: seq<PKey>, v: Solve)
    requires forall k :: k in ks ==>
      DayKey(k, v.day) in d.checkIns && d.checkIns[DayKey(k, v.day)].status == VERIFIED_COMPLETE &&
      Stamped(d.checkIns[DayKey(k, v.day)], v)
    ensures RecordAll(d, ks, v) == d
  {
    if ks != [] {
      var front := ks[..|ks| - 1];
      RecordAllFixpoint(d, front, v);
      var key := DayKey(ks[|ks| - 1], v.day);
      assert d.checkIns[key := d.checkIns[key]] == d.checkIns;
    }
  }

  /** Recording the same day twice: the second pass counts nothing, and with the same
      solve it writes nothing. */
  lemma RecordTwice(d: Db, ks: seq<PKey>, v: Solve, v': Solve)
    requires v'.day == v.day
    ensures var e := RecordAll(d, ks, v);
      Unmoved(d, e) && RecordAll(e, ks, v').participants == e.participants &&
      (v' == v ==> RecordAll(e, ks, v) == e)
  {
    var e := RecordAll(d, ks, v);
    RecordAllFrame(d, ks, v);
    RecordAllNoCount(e, ks, v');
    if v' == v {
      RecordAllFixpoint(e, ks, v);
    }
  }

  /** The reply: the number of pairs processed, or an HTTP error status. */
  datatype Reply = Processed(count: nat) | BadRequest | ServerError

  datatype Response = Response(db: Db, reply: Reply)

  /** A `Date` built from `ts` is valid. */
  predicate InTimeRange(ts: int) { -MaxTimeMs <= ts <= MaxTimeMs }

  /** The pairs an accepted payload touches. */
  function Targets(d: Db, p: Solved): seq<PKey> {
    PairsOf(d, Solvers(d, p.username))
  }

  function SolveOf(p: Solved, now: int): Solve {
    var ts := NormalizeTimestamp(p.solvedAt, now);
    Solve(p.titleSlug, p.title, ts, ToStartOfDay(ts), now)
  }

  /** `POST /api/leetcode-solved`, with `now` the clock reading. */
  function LeetCodeSolved(d: Db, raw: JVal, now: int): (s: Response)
    ensures s.reply == BadRequest <==> ReadPayload(raw).None?
    ensures !s.reply.Processed? ==> s.db == d
    ensures s.reply == ServerError <==>
      ReadPayload(raw).Some? && Targets(d, ReadPayload(raw).value) != [] &&
      !InTimeRange(NormalizeTimestamp(ReadPayload(raw).value.solvedAt, now))
    ensures s.reply.Processed? ==> s.reply.count == |Targets(d, ReadPayload(raw).value)|
    ensures ReadPayload(raw).Some? && Solvers(d, ReadPayload(raw).value.username) == [] ==>
      s == Response(d, Processed(0))
  {
    var p := ReadPayload(raw);
    if p.None? then Response(d, BadRequest)
    else
      var v := SolveOf(p.value, now);
      var us := Solvers(d, p.value.username);
      if us == [] then Response(d, Processed(0))
      else
        var ks := PairsOf(d, us);
        // the first query keyed by an invalid day start throws
        if ks != [] && !InTimeRange(v.ts) then Response(d, ServerError)
        else Response(RecordAll(d, ks, v), Processed(|ks|))
  }

  /** The webhook keeps the invariant, moves no money, opens no dispute, and leaves every
      targeted day VERIFIED_COMPLETE. */
  lemma LeetCodeSolvedPreserves(d: Db, raw: JVal, now: int)
    requires Valid(d)
    ensures var s := LeetCodeSolved(d, raw, now);
      Valid(s.db) && Conserved(d, s.db) && Unmoved(d, s.db) &&
      (s.reply.Processed? ==> forall k :: k in Targets(d, ReadPayload(raw).value) ==>
         var c := DayKey(k, SolveOf(ReadPayload(raw).value, now).day);
         c in s.db.checkIns && s.db.checkIns[c].status == VERIFIED_COMPLETE)
  {
    var s := LeetCodeSolved(d, raw, now);
    if s.reply.Processed? {
      var p := ReadPayload(raw).value;
      if Solvers(d, p.username) != [] {
        LeetCodeSolvedWrites(d, raw, now);
        RecordAllValid(d, Targets(d, p), SolveOf(p, now));
      }
    }
  }

  /** Recording eligible pairs keeps the invariant and moves no money. */
  lemma RecordAllValid(d: Db, ks: seq<PKey>, v: Solve)
    requires Valid(d)
    requires forall k :: k in ks ==> Eligible(d, k)
    ensures var e := RecordAll(d, ks, v);
      Valid(e) && Conserved(d, e) && Unmoved(d, e) &&
      forall k :: k in ks ==> DayKey(k, v.day) in e.checkIns && e.checkIns[DayKey(k, v.day)].status == VERIFIED_COMPLETE
  {
    var e := RecordAll(d, ks, v);
    RecordAllFrame(d, ks, v);
    assert forall c :: c in e.checkIns ==> PKey(c.oath, c.user) in e.participants by {
      forall c | c in e.checkIns
        ensures PKey(c.oath, c.user) in e.participants
      {
        if c !in d.checkIns {
          var k :| k in ks && c == DayKey(k, v.day);
          assert Eligible(d, k);
        }
      }
    }
    CheckIns.RowsValid(d, e);
  }

  /** Success counts: one per targeted participant whose day was not already complete;
      failure counts and all other columns never move. */
  lemma LeetCodeSolvedCounts(d: Db, raw: JVal, now: int, k: PKey)
    requires k in d.participants
    ensures var s := LeetCodeSolved(d, raw, now);
      k in s.db.participants &&
      s.db.participants[k].failureCount == d.participants[k].failureCount &&
      s.db.participants[k] == d.participants[k].(successCount := d.participants[k].successCount +
        (if s.reply.Processed? && k in Targets(d, ReadPayload(raw).value) &&
            !AlreadyComplete(d, DayKey(k, SolveOf(ReadPayload(raw).value, now).day)) then 1 else 0))
  {
    var s := LeetCodeSolved(d, raw, now);
    if s.reply.Processed? {
      var p := ReadPayload(raw).value;
      var us := Solvers(d, p.username);
      PairsOfNoRepeats(d, us);
      RecordAllCounts(d, Targets(d, p), SolveOf(p, now), k);
    }
  }

  /** The webhook lowers no counter: it only ever adds successes. */
  lemma LeetCodeSolvedCountersGrow(d: Db, raw: JVal, now: int)
    ensures CountersGrow(d, LeetCodeSolved(d, raw, now).db)
  {
    var e := LeetCodeSolved(d, raw, now).db;
    forall k | k in d.participants
      ensures k in e.participants &&
        e.participants[k].successCount >= d.participants[k].successCount &&
        e.participants[k].failureCount >= d.participants[k].failureCount &&
        e.participants[k].disputesWon >= d.participants[k].disputesWon &&
        e.participants[k].disputesLost >= d.participants[k].disputesLost
    {
      LeetCodeSolvedCounts(d, raw, now, k);
    }
  }

  /** The pairs depend only on what the webhook never changes. */
  lemma TargetsUnmoved(d: Db, e: Db, p: Solved)
    requires Unmoved(d, e)
    ensures Targets(e, p) == Targets(d, p)
  {
    var us := Solvers(d, p.username);
    assert Solvers(e, p.username) == us;
    PairsOfUnmoved(d, e, us);
  }

  lemma {:induction false} PairsOfUnmoved(d: Db, e: Db, us: seq<nat>)
    requires Unmoved(d, e)
    ensures PairsOf(e, us) == PairsOf(d, us)
  {
    if us != [] {
      PairsOfUnmoved(d, e, us[..|us| - 1]);
      OathPairsUnmoved(d, e, us[|us| - 1]);
    }
  }

  /** The oaths of one user depend only on what the webhook never changes. */
  lemma OathPairsUnmoved(d: Db, e: Db, u: nat)
    requires Unmoved(d, e)
    ensures OathPairs(e, u) == OathPairs(d, u)
  {
    var p := (o: nat) => Eligible(d, PKey(o, u));
    var q := (o: nat) => Eligible(e, PKey(o, u));
    UptoExt(p, q, d.nextOath);
    assert DailyOaths(e, u) == DailyOaths(d, u);
  }

  /** An accepted payload with solvers and a usable day writes every targeted day. */
  lemma LeetCodeSolvedWrites(d: Db, raw: JVal, now: int)
    requires ReadPayload(raw).Some? && Solvers(d, ReadPayload(raw).value.username) != []
    requires var p := ReadPayload(raw).value;
      Targets(d, p) != [] ==> InTimeRange(SolveOf(p, now).ts)
    ensures var p := ReadPayload(raw).value;
      LeetCodeSolved(d, raw, now) == Response(RecordAll(d, Targets(d, p), SolveOf(p, now)), Processed(|Targets(d, p)|))
  {
  }

  /** Replaying an event is harmless: a second delivery counts no success, and with the same
      clock reading it changes nothing at all. */
  lemma LeetCodeSolvedReplay(d: Db, raw: JVal, now: int, now': int)
    requires ReadPayload(raw).Some? ==>
      NormalizeTimestamp(ReadPayload(raw).value.solvedAt, now) == NormalizeTimestamp(ReadPayload(raw).value.solvedAt, now')
    ensures var s1 := LeetCodeSolved(d, raw, now);
      var s2 := LeetCodeSolved(s1.db, raw, now');
      s2.reply == s1.reply && s2.db.participants == s1.db.participants &&
      (now == now' ==> s2.db == s1.db)
  {
    var s1 := LeetCodeSolved(d, raw, now);
    if s1.reply.Processed? {
      var p := ReadPayload(raw).value;
      if Solvers(d, p.username) != [] {
        var v, v' := SolveOf(p, now), SolveOf(p, now');
        var ks := Targets(d, p);
        assert v'.ts == v.ts;
        LeetCodeSolvedWrites(d, raw, now);
        var e := RecordAll(d, ks, v);
        assert s1.db == e;
        RecordTwice(d, ks, v, v');
        TargetsUnmoved(d, e, p);
        assert Solvers(e, p.username) == Solvers(d, p.username);
        LeetCodeSolvedWrites(e, raw, now');
      }
    }
  }
}
