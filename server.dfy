/** The LeetCode service's HTTP routes: the page size of `/solutions` and the payload
    check of its own `/api/leetcode-solved`, which forwards a solution to the notifier. */
module Server {
  import opened Text
  import opened Json
  import opened Schema

  /** A JavaScript number as `Number(...)` yields it. */
  datatype JsNumber = Fin(value: real) | NotANumber | Infinite(positive: bool)

  const DefaultLimit: real := 20.0
  const MaxLimit: real := 100.0

  /** `/solutions`: the page size, from `limit`, the number the query parameter converts
      to, or nothing when the parameter is absent. */
  function SafeLimit(limit: Option<JsNumber>): (r: real)
    ensures 0.0 < r <= MaxLimit
    ensures limit.None? || !limit.value.Fin? || limit.value.value <= 0.0 ==> r == DefaultLimit
    ensures limit.Some? && limit.value.Fin? && limit.value.value > 0.0 ==>
      r <= limit.value.value && r <= MaxLimit && (r == limit.value.value || r == MaxLimit)
  {
    var n := if limit.None? then Fin(DefaultLimit) else limit.value;
    if n.Fin? && n.value > 0.0 then (if n.value < MaxLimit then n.value else MaxLimit) else DefaultLimit
  }

  /** A page size read back as a limit is kept, and a larger request never gets a smaller page. */
  lemma SafeLimitStable(limit: Option<JsNumber>, a: real, b: real)
    ensures SafeLimit(Some(Fin(SafeLimit(limit)))) == SafeLimit(limit)
    ensures 0.0 < a <= b ==> SafeLimit(Some(Fin(a))) <= SafeLimit(Some(Fin(b)))
  {
  }

  /** The solution the route forwards. */
  datatype Forwarded = Forwarded(id: string, title: string, titleSlug: string, solvedAt: int, username: string)

  datatype Reply = Sent(solution: Forwarded) | InvalidPayload | InvalidTimestamp | InternalError

  predicate IsString(v: JVal) { v.JStr? }

  /** The payload check: four string fields, empty ones allowed, and a `solvedAt` that is
      a number or a string. */
  predicate WellTyped(body: JVal) {
    Truthy(body) && IsString(Get(body, "id")) && IsString(Get(body, "title")) &&
    IsString(Get(body, "titleSlug")) && IsString(Get(body, "username")) &&
    (Get(body, "solvedAt").JNum? || Get(body, "solvedAt").JStr?)
  }

  /** `solvedAt` as a number: a string is read by `parseInt`. */
  function SolvedAtNumber(v: JVal): Num {
    if v.JStr? then ParseInt(v.s) else if v.JNum? then Finite(v.n) else NaN
  }

  /** `POST /api/leetcode-solved`; `notifyOk` says whether forwarding the solution succeeded. */
  function HandleSolved(body: JVal, notifyOk: bool): (r: Reply)
    ensures r == InvalidPayload <==> !WellTyped(body)
    ensures r == InvalidTimestamp <==> WellTyped(body) && SolvedAtNumber(Get(body, "solvedAt")).NaN?
    ensures r.Sent? <==> WellTyped(body) && SolvedAtNumber(Get(body, "solvedAt")).Finite? && notifyOk
    ensures r.Sent? ==>
      r.solution == Forwarded(Get(body, "id").s, Get(body, "title").s, Get(body, "titleSlug").s,
                              SolvedAtNumber(Get(body, "solvedAt")).n, Get(body, "username").s)
  {
    if !Truthy(body) then InvalidPayload
    else
      var id, title, slug, user, at :=
        Get(body, "id"), Get(body, "title"), Get(body, "titleSlug"), Get(body, "username"), Get(body, "solvedAt");
      if !id.JStr? || !title.JStr? || !slug.JStr? || !user.JStr? || !(at.JNum? || at.JStr?) then InvalidPayload
      else
        var n := if at.JStr? then ParseInt(at.s) else Finite(at.n);
        if n.NaN? then InvalidTimestamp
        else if !notifyOk then InternalError
        else Sent(Forwarded(id.s, title.s, slug.s, n.n, user.s))
  }

  /** The JSON body a client sends for a solution, with `solvedAt` as a number or as its text. */
  function Encode(f: Forwarded, asText: bool): JVal {
    JObj(map["id" := JStr(f.id), "title" := JStr(f.title), "titleSlug" := JStr(f.titleSlug),
             "solvedAt" := (if asText then JStr(IntToString(f.solvedAt)) else JNum(f.solvedAt)),
             "username" := JStr(f.username)])
  }

  /** Whatever solution is sent, the route forwards that same solution, whether `solvedAt`
      travels as a number or as decimal text. */
  lemma HandleSolvedRoundTrip(f: Forwarded, asText: bool)
    ensures HandleSolved(Encode(f, asText), true) == Sent(f)
  {
    var body := Encode(f, asText);
    assert Get(body, "id") == JStr(f.id);
    assert Get(body, "title") == JStr(f.title);
    assert Get(body, "titleSlug") == JStr(f.titleSlug);
    assert Get(body, "username") == JStr(f.username);
    if asText {
      assert Get(body, "solvedAt") == JStr(IntToString(f.solvedAt));
      ParseIntOfIntToString(f.solvedAt);
    } else {
      assert Get(body, "solvedAt") == JNum(f.solvedAt);
    }
    assert SolvedAtNumber(Get(body, "solvedAt")) == Finite(f.solvedAt);
    assert WellTyped(body);
  }
}
