/** The LeetCode poller: it reads the latest accepted submission, maps it to a solution
    and notifies once per new submission id, remembering the last id it has seen in a
    key-value state table. */
module Poller {
  import opened Text
  import opened Json
  import opened Schema

  /** The state-table key of the last submission id seen. */
  const LastSeenKey: string := "lastSeenAcSubmissionId"

  /** `String(v)`, for the values a parsed response can hold. */
  function JsString(v: JVal): string
    decreases v, 1
  {
    match v
    case JAbsent => "undefined"
    case JNull => "null"
    case JBool(b) => if b then "true" else "false"
    case JNum(n) => IntToString(n)
    case JStr(s) => s
    case JArr(items) => JoinItems(items, v)
    case JObj(_) => "[object Object]"
  }

  /** `items.join(",")`: a missing or `null` element is written as nothing. */
  function JoinItems(items: seq<JVal>, ghost parent: JVal): string
    requires forall x :: x in items ==> x < parent
    decreases parent, 0, |items|
  {
    if items == [] then ""
    else
      assert items[0] in items;
      assert forall x :: x in items[1..] ==> x in items;
      var head := if Nullish(items[0]) then "" else JsString(items[0]);
      if |items| == 1 then head else head + "," + JoinItems(items[1..], parent)
  }

  /** `extractLatestSubmission`: the first element of `data || submissions || []`, or
      nothing when that is not a non-empty array. */
  function ExtractLatest(res: JVal): (r: Option<JVal>)
    ensures var data := Get(res, "data");
      (data.JArr? && data.items != [] ==> r == Some(data.items[0])) &&
      (data.JArr? && data.items == [] ==> r.None?)
    ensures var data := Get(res, "data"); Truthy(data) && !data.JArr? ==> r.None?
    ensures var data, subs := Get(res, "data"), Get(res, "submissions");
      !Truthy(data) ==>
        (subs.JArr? && subs.items != [] ==> r == Some(subs.items[0])) &&
        (!(subs.JArr? && subs.items != []) ==> r.None?)
    ensures r.Some? ==> exists key :: key in {"data", "submissions"} && Get(res, key).JArr? &&
                                      Get(res, key).items != [] && r.value == Get(res, key).items[0]
  {
    var list := OrElse(OrElse(Get(res, "data"), Get(res, "submissions")), JArr([]));
    if !list.JArr? || list.items == [] then None
    else
      assert OrElse(Get(res, "data"), Get(res, "submissions")) == list;
      assert list == Get(res, "data") || list == Get(res, "submissions");
      Some(list.items[0])
  }

  /** The solution handed to the notifier. Its fields are copied from the response, so
      they hold whatever JSON values the response held. */
  datatype Solution = Solution(id: JVal, title: JVal, titleSlug: JVal, solvedAt: Num, username: string)

  /** `item.id ?? item.submissionId ?? String(item.timestamp)`. */
  function SubmissionId(item: JVal): JVal {
    Coalesce(Coalesce(Get(item, "id"), Get(item, "submissionId")), JStr(JsString(Get(item, "timestamp"))))
  }

  /** A string timestamp read by `parseInt`, a number kept, anything else the clock in seconds. */
  function SolvedAt(timestamp: JVal, nowSec: int): Num {
    match timestamp
    case JStr(s) => ParseInt(s)
    case JNum(n) => Finite(n)
    case _ => Finite(nowSec)
  }

  /** `mapSubmissionToSolution`. */
  function MapSubmission(item: JVal, username: string, nowSec: int): (r: Option<Solution>)
    ensures r.Some? <==>
      Truthy(item) && Truthy(SubmissionId(item)) && Truthy(Get(item, "title")) && Truthy(Get(item, "titleSlug"))
    ensures r.Some? ==>
      r.value == Solution(SubmissionId(item), Get(item, "title"), Get(item, "titleSlug"),
                          SolvedAt(Get(item, "timestamp"), nowSec), username)
  {
    if !Truthy(item) then None
    else
      var id := SubmissionId(item);
      if !Truthy(id) then None
      else
        var title, slug := Get(item, "title"), Get(item, "titleSlug");
        if !Truthy(title) || !Truthy(slug) then None
        else Some(Solution(id, title, slug, SolvedAt(Get(item, "timestamp"), nowSec), username))
  }

  /** With neither `id` nor `submissionId`, an id is still derived from any timestamp that
      is not an empty string or array, and a numeric timestamp gives an id that `parseInt`
      reads back as the solvedAt. */
  lemma SubmissionIdFallback(item: JVal, nowSec: int)
    requires Nullish(Get(item, "id")) && Nullish(Get(item, "submissionId"))
    ensures var ts := Get(item, "timestamp");
      (!ts.JStr? && !ts.JArr? ==> Truthy(SubmissionId(item))) &&
      (ts.JNum? ==> SubmissionId(item).JStr? && Finite(ParseInt(SubmissionId(item).s).n) == SolvedAt(ts, nowSec) &&
                    ParseInt(SubmissionId(item).s).Finite?)
  {
    var ts := Get(item, "timestamp");
    if ts.JNum? {
      ParseIntOfIntToString(ts.n);
    }
    if ts.JNum? && ts.n < 0 {
      assert JsString(ts) == "-" + NatToString(-ts.n);
    } else if ts.JNum? {
      assert JsString(ts) == NatToString(ts.n);
    }
  }

  /** What the state table stores for an id: a string as it is, a number as its decimal
      text; the driver refuses to bind any other value and throws. */
  function Bind(v: JVal): Option<string> {
    match v
    case JStr(s) => Some(s)
    case JNum(n) => Some(IntToString(n))
    case _ => None
  }

  /** The fetch: a non-2xx response, a parsed body, or a thrown error (network, JSON). */
  datatype Fetched = NotOk | Body(json: JVal) | Thrown

  /** The state after one poll and the solution the poll notifies, if any. */
  datatype Polled = Polled(state: map<string, string>, notify: Option<Solution>)

  /** The solution a fetch yields, if any. */
  function Latest(fetched: Fetched, username: string, nowSec: int): Option<Solution> {
    if !fetched.Body? then None
    else
      var latest := ExtractLatest(fetched.json);
      if latest.None? || !Truthy(latest.value) then None
      else MapSubmission(latest.value, username, nowSec)
  }

  /** One run of `pollLeetCode` on the state table `state`. */
  function PollStep(state: map<string, string>, fetched: Fetched, username: string, nowSec: int): (r: Polled)
    ensures r.state.Keys <= state.Keys + {LastSeenKey}
    ensures forall k :: k in state && k != LastSeenKey ==> k in r.state && r.state[k] == state[k]
    ensures Latest(fetched, username, nowSec).None? ==> r == Polled(state, None)
    ensures r.notify.Some? ==> r.notify == Latest(fetched, username, nowSec)
  {
    var sol := Latest(fetched, username, nowSec);
    if sol.None? then Polled(state, None)
    else
      var id := sol.value.id;
      var lastSeen := if LastSeenKey in state then state[LastSeenKey] else "";
      if lastSeen == "" then
        // first run: the id becomes the baseline and nothing is announced
        (match Bind(id)
         case Some(t) => Polled(state[LastSeenKey := t], None)
         case None => Polled(state, None))
      else if id == JStr(lastSeen) then Polled(state, None)
      else
        (match Bind(id)
         case Some(t) => Polled(state[LastSeenKey := t], sol)
         case None => Polled(state, None))
  }

  /** The first poll that maps a solution records its id as the baseline and notifies nothing. */
  lemma FirstPollIsBaseline(state: map<string, string>, fetched: Fetched, username: string, nowSec: int)
    requires LastSeenKey !in state || state[LastSeenKey] == ""
    requires Latest(fetched, username, nowSec).Some?
    requires Latest(fetched, username, nowSec).value.id.JStr?
    ensures var r := PollStep(state, fetched, username, nowSec);
      r.notify.None? && r.state == state[LastSeenKey := Latest(fetched, username, nowSec).value.id.s]
  {
  }

  /** A poll that sees the remembered id changes nothing and notifies nothing. */
  lemma SameIdIsNoOp(state: map<string, string>, fetched: Fetched, username: string, nowSec: int)
    requires LastSeenKey in state
    requires Latest(fetched, username, nowSec).Some?
    requires Latest(fetched, username, nowSec).value.id == JStr(state[LastSeenKey])
    ensures PollStep(state, fetched, username, nowSec) == Polled(state, None)
  {
  }

  /** A new string id after a baseline is remembered and notified exactly once. */
  lemma NewIdNotifies(state: map<string, string>, fetched: Fetched, username: string, nowSec: int)
    requires LastSeenKey in state && state[LastSeenKey] != ""
    requires Latest(fetched, username, nowSec).Some?
    requires var id := Latest(fetched, username, nowSec).value.id; id.JStr? && id.s != state[LastSeenKey]
    ensures var sol := Latest(fetched, username, nowSec).value;
      PollStep(state, fetched, username, nowSec) == Polled(state[LastSeenKey := sol.id.s], Some(sol))
  {
  }

  /** A failed fetch leaves the state alone. */
  lemma FailedFetchIsNoOp(state: map<string, string>, fetched: Fetched, username: string, nowSec: int)
    requires !fetched.Body?
    ensures PollStep(state, fetched, username, nowSec) == Polled(state, None)
  {
  }

  /** Polling again and seeing the same string id does nothing: each submission with a
      string id is announced at most once, however often it is seen. */
  lemma PollReplayIsNoOp(state: map<string, string>, fetched: Fetched, username: string, nowSec: int)
    requires var sol := Latest(fetched, username, nowSec); sol.Some? ==> sol.value.id.JStr?
    ensures var r1 := PollStep(state, fetched, username, nowSec);
      PollStep(r1.state, fetched, username, nowSec) == Polled(r1.state, None)
  {
  }

  /** Replay with a numeric id: the table stores its text, which never equals the number,
      so every later poll announces the same submission again. This case sits outside the
      declared response type, whose ids are strings. */
  lemma NumericIdIsAnnouncedAgain(state: map<string, string>, fetched: Fetched, username: string, nowSec: int)
    requires LastSeenKey in state && state[LastSeenKey] != ""
    requires Latest(fetched, username, nowSec).Some? && Latest(fetched, username, nowSec).value.id.JNum?
    ensures var r1 := PollStep(state, fetched, username, nowSec);
      PollStep(r1.state, fetched, username, nowSec).notify == Latest(fetched, username, nowSec)
  {
    var id := Latest(fetched, username, nowSec).value.id;
    var r1 := PollStep(state, fetched, username, nowSec);
    assert r1.state[LastSeenKey] == IntToString(id.n);
    assert IntToString(id.n) != "" by {
      if id.n < 0 {
        assert IntToString(id.n) == "-" + NatToString(-id.n);
      }
    }
  }

  /** The poller's persistent state and the solutions it has announced. */
  class PollerState {
    var state: map<string, string>
    var notified: seq<Solution>

    constructor (initial: map<string, string>)
      ensures state == initial && notified == []
    {
      state := initial;
      notified := [];
    }

    /** `getState`: the stored value, or nothing. */
    function GetState(key: string): (r: Option<string>)
      reads this
      ensures r.Some? <==> key in state
      ensures r.Some? ==> r.value == state[key]
    {
      if key in state then Some(state[key]) else None
    }

    /** `pollLeetCode`, with the fetch outcome and the clock reading as parameters. */
    method Poll(fetched: Fetched, username: string, nowSec: int)
      modifies this
      ensures var r := PollStep(old(state), fetched, username, nowSec);
        state == r.state &&
        notified == old(notified) + (if r.notify.Some? then [r.notify.value] else [])
    {
      var sol := Latest(fetched, username, nowSec);
      if sol.None? {
        return;
      }
      var solution := sol.value;
      var lastSeenId := GetState(LastSeenKey);
      if lastSeenId.None? || lastSeenId.value == "" {
        var stored := Bind(solution.id);
        if stored.Some? {
          state := state[LastSeenKey := stored.value];
        }
        return;
      }
      if solution.id == JStr(lastSeenId.value) {
        return;
      }
      var stored := Bind(solution.id);
      if stored.None? {
        return;
      }
      state := state[LastSeenKey := stored.value];
      notified := notified + [solution];
    }
  }
}
