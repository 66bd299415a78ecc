/**
 * Client-side helpers for the judge's data: the solve-tier name and colour of
 * a difficulty level, and how the answers of the today-problems endpoint and
 * of the problem-lookup service are shaped for the pages.
 */
module BojApi {
  import opened Wrappers
  import Decimal
  import StatusTable

  /** The six tiers, lowest first; each covers five consecutive levels. */
  const TierNames: seq<string> := ["브론즈", "실버", "골드", "플래티넘", "다이아몬드", "루비"]
  const TierColors: seq<string> :=
    ["text-amber-800", "text-gray-500", "text-yellow-500", "text-emerald-300", "text-cyan-300", "text-rose-700"]

  const UnknownLevel: string := "알 수 없음"
  const FallbackColor: string := "text-gray-500"

  /** The name table of `getLevelName`: entry `k` belongs to level `k + 1`. */
  const LevelNames: seq<string> := [
    "브론즈 5", "브론즈 4", "브론즈 3", "브론즈 2", "브론즈 1",
    "실버 5", "실버 4", "실버 3", "실버 2", "실버 1",
    "골드 5", "골드 4", "골드 3", "골드 2", "골드 1",
    "플래티넘 5", "플래티넘 4", "플래티넘 3", "플래티넘 2", "플래티넘 1",
    "다이아몬드 5", "다이아몬드 4", "다이아몬드 3", "다이아몬드 2", "다이아몬드 1",
    "루비 5", "루비 4", "루비 3", "루비 2", "루비 1"
  ]

  /** The colour table of `getLevelColor`: entry `k` belongs to level `k + 1`. */
  const LevelColors: seq<string> := [
    "text-amber-800", "text-amber-800", "text-amber-800", "text-amber-800", "text-amber-800",
    "text-gray-500", "text-gray-500", "text-gray-500", "text-gray-500", "text-gray-500",
    "text-yellow-500", "text-yellow-500", "text-yellow-500", "text-yellow-500", "text-yellow-500",
    "text-emerald-300", "text-emerald-300", "text-emerald-300", "text-emerald-300", "text-emerald-300",
    "text-cyan-300", "text-cyan-300", "text-cyan-300", "text-cyan-300", "text-cyan-300",
    "text-rose-700", "text-rose-700", "text-rose-700", "text-rose-700", "text-rose-700"
  ]

  /** A level the tables have a key for. A missing (`null`) level has none. */
  predicate IsLevel(level: Option<int>) {
    level.Some? && 1 <= level.value <= 30
  }

  /** `names[level] || '알 수 없음'`. */
  function LevelName(level: Option<int>): (name: string)
    ensures !IsLevel(level) ==> name == UnknownLevel
  {
    if IsLevel(level) then LevelNames[level.value - 1] else UnknownLevel
  }

  /** `colors[level] || 'text-gray-500'`. */
  function LevelColor(level: Option<int>): (color: string)
    ensures !IsLevel(level) ==> color == FallbackColor
  {
    if IsLevel(level) then LevelColors[level.value - 1] else FallbackColor
  }

  /** The tier of a level, 0 (bronze) to 5 (ruby). */
  function Tier(level: int): (t: nat)
    requires 1 <= level <= 30
    ensures t < 6
  {
    (level - 1) / 5
  }

  /** The grade within the tier: 5 for its lowest level down to 1 for its highest. */
  function Grade(level: int): (g: nat)
    requires 1 <= level <= 30
    ensures 1 <= g <= 5
  {
    5 - (level - 1) % 5
  }

  /** A tier and a grade determine the level. */
  lemma TierGradeDetermineLevel(a: int, b: int)
    requires 1 <= a <= 30 && 1 <= b <= 30
    requires Tier(a) == Tier(b) && Grade(a) == Grade(b)
    ensures a == b
  {
  }

  /** Every name in the table is the tier name, a space, and the grade digit. */
  lemma LevelNameByTier(level: int)
    requires 1 <= level <= 30
    ensures LevelName(Some(level)) == TierNames[Tier(level)] + " " + [Decimal.DigitChar(Grade(level))]
  {
    assert level == 1 || level == 2 || level == 3 || level == 4 || level == 5 || level == 6 || level == 7 || level == 8 || level == 9 || level == 10 || level == 11 || level == 12 || level == 13 || level == 14 || level == 15 || level == 16 || level == 17 || level == 18 || level == 19 || level == 20 || level == 21 || level == 22 || level == 23 || level == 24 || level == 25 || level == 26 || level == 27 || level == 28 || level == 29 || level == 30;
  }

  /** Every colour in the table is the colour of the level's tier. */
  lemma LevelColorByTier(level: int)
    requires 1 <= level <= 30
    ensures LevelColor(Some(level)) == TierColors[Tier(level)]
  {
    assert level == 1 || level == 2 || level == 3 || level == 4 || level == 5 || level == 6 || level == 7 || level == 8 || level == 9 || level == 10 || level == 11 || level == 12 || level == 13 || level == 14 || level == 15 || level == 16 || level == 17 || level == 18 || level == 19 || level == 20 || level == 21 || level == 22 || level == 23 || level == 24 || level == 25 || level == 26 || level == 27 || level == 28 || level == 29 || level == 30;
  }

  /** The tier names start with six different characters. */
  lemma TierInitialDeterminesTier(s: nat, t: nat)
    requires s < 6 && t < 6
    requires TierNames[s] != [] && TierNames[t] != [] && TierNames[s][0] == TierNames[t][0]
    ensures s == t
  {
  }

  /** Different levels have different names. */
  lemma LevelNameInjective(a: Option<int>, b: Option<int>)
    requires IsLevel(a) && IsLevel(b)
    requires LevelName(a) == LevelName(b)
    ensures a == b
  {
    var x, y := a.value, b.value;
    LevelNameByTier(x);
    LevelNameByTier(y);
    var name := LevelName(a);
    assert TierNames[Tier(x)][0] == name[0] == TierNames[Tier(y)][0];
    TierInitialDeterminesTier(Tier(x), Tier(y));
    assert name[|name| - 1] == Decimal.DigitChar(Grade(x));
    assert name[|name| - 1] == Decimal.DigitChar(Grade(y));
    TierGradeDetermineLevel(x, y);
  }

  /** The fallback name is given exactly to the levels outside 1..30. */
  lemma LevelNameUnknown(level: Option<int>)
    ensures LevelName(level) == UnknownLevel <==> !IsLevel(level)
  {
    if IsLevel(level) {
      var name := LevelName(level);
      LevelNameByTier(level.value);
      assert name[|name| - 1] == Decimal.DigitChar(Grade(level.value));
      assert UnknownLevel[|UnknownLevel| - 1] == '음';
    }
  }

  /** Levels of one tier share their colour. */
  lemma LevelColorConstantPerTier(a: int, b: int)
    requires 1 <= a <= 30 && 1 <= b <= 30
    requires Tier(a) == Tier(b)
    ensures LevelColor(Some(a)) == LevelColor(Some(b))
  {
    LevelColorByTier(a);
    LevelColorByTier(b);
  }

  /** What a request from the page produced: no answer at all, or a status and a body. */
  datatype Reply<B> =
    | Unreachable(message: string)   // `fetch` itself rejected
    | Replied(status: int, body: B)

  /**
   * The body of the today-problems answer as `res.json()` reads it.
   * `items` is present exactly when `data.items` is an array.
   */
  datatype ItemsBody =
    | ItemsNotJson(message: string)          // `res.json()` rejected
    | FalsyData                              // `data` is `null` or another falsy value
    | ItemsData(items: Option<seq<string>>)

  /** The message thrown for a non-OK status. */
  function HttpFailureMessage(status: int): string {
    "HTTP " + Decimal.IntToDecimal(status) + ": 오늘 푼 문제를 가져오는 데 실패했습니다."
  }

  /**
   * `fetchTodaySolvedProblems`: the `items` array of an OK answer, `[]` when
   * the answer has none; any failure is thrown on to the caller.
   */
  function FetchTodaySolvedProblems(reply: Reply<ItemsBody>): (r: Result<seq<string>>)
    ensures reply.Replied? && !StatusTable.IsOk(reply.status) ==> r == Failure(HttpFailureMessage(reply.status))
    ensures r.Success? <==> reply.Replied? && StatusTable.IsOk(reply.status) && !reply.body.ItemsNotJson?
    ensures r.Success? && reply.body.ItemsData? && reply.body.items.Some? ==> r.value == reply.body.items.value
    ensures r.Success? && !(reply.body.ItemsData? && reply.body.items.Some?) ==> r.value == []
  {
    match reply
    case Unreachable(message) => Failure(message)
    case Replied(status, body) =>
      if !StatusTable.IsOk(status) then Failure(HttpFailureMessage(status))
      else
        match body
        case ItemsNotJson(message) => Failure(message)
        case FalsyData => Success([])
        case ItemsData(items) => Success(items.GetOr([]))
  }

  /** How an answer of the today-problems handler reaches the page: its status and its JSON body. */
  function TodayReply(response: StatusTable.Response): Reply<ItemsBody> {
    match response
    case TodayItems(items) => Replied(200, ItemsData(Some(items)))
    case _ => Replied(StatusTable.StatusCode(response), ItemsData(None))
  }

  /**
   * The page reads back exactly the items the handler sent, and turns the
   * handler's 400 and 500 answers into thrown errors naming the status.
   */
  lemma TodaySolvedReadsHandlerItems(response: StatusTable.Response)
    requires response.TodayItems? || response.BadRequest? || response.ServerError?
    ensures response.TodayItems? ==> FetchTodaySolvedProblems(TodayReply(response)) == Success(response.items)
    ensures response.BadRequest? ==> FetchTodaySolvedProblems(TodayReply(response)) == Failure(HttpFailureMessage(400))
    ensures response.ServerError? ==> FetchTodaySolvedProblems(TodayReply(response)) == Failure(HttpFailureMessage(500))
  {
  }

  /** The distinct messages of different failing statuses tell the statuses apart. */
  lemma HttpFailureMessageInjective(a: int, b: int)
    requires HttpFailureMessage(a) == HttpFailureMessage(b)
    ensures a == b
  {
    var sa, sb := Decimal.IntToDecimal(a), Decimal.IntToDecimal(b);
    var tail := ": 오늘 푼 문제를 가져오는 데 실패했습니다.";
    assert HttpFailureMessage(a) == "HTTP " + sa + tail;
    assert HttpFailureMessage(b) == "HTTP " + sb + tail;
    assert |sa| == |sb|;
    assert sa == HttpFailureMessage(a)[5..5 + |sa|];
    assert sb == HttpFailureMessage(b)[5..5 + |sb|];
    Decimal.IntToDecimalInjective(a, b);
  }

  /** The fields of the problem-lookup answer that the page reads; each may be missing or `null`. */
  datatype ProblemData = ProblemData(problemId: Option<string>, titleKo: Option<string>, level: Option<int>)

  /** The body of the problem-lookup answer as `response.json()` reads it. */
  datatype ProblemBody =
    | ProblemNotJson   // `response.json()` rejected
    | NullData         // `data` is `null`: reading its fields throws
    | Data(data: ProblemData)

  /** What `fetchProblemInfo` resolves to. */
  datatype ProblemInfo = ProblemInfo(problemId: Option<string>, title: string, level: Option<int>)

  const NoTitle: string := "제목 없음"
  const TitleLookupFailed: string := "제목 조회 실패"

  /** The answer carries data the page can read: it arrived, with an OK status, as a JSON object. */
  predicate ProblemDataRead(reply: Reply<ProblemBody>) {
    reply.Replied? && StatusTable.IsOk(reply.status) && reply.body.Data?
  }

  /**
   * `fetchProblemInfo`: the id, the Korean title (or '제목 없음') and the level
   * (or `null`) of the answer; any failure gives the requested id with the
   * title '제목 조회 실패' and no level. It never throws.
   */
  function FetchProblemInfo(problemId: string, reply: Reply<ProblemBody>): (info: ProblemInfo)
    ensures ProblemDataRead(reply) ==>
              && info.problemId == reply.body.data.problemId
              && info.level == reply.body.data.level
              && (reply.body.data.titleKo.Some? ==> info.title == reply.body.data.titleKo.value)
              && (reply.body.data.titleKo.None? ==> info.title == NoTitle)
    ensures !ProblemDataRead(reply) ==> info == ProblemInfo(Some(problemId), TitleLookupFailed, None)
  {
    match reply
    case Unreachable(_) => ProblemInfo(Some(problemId), TitleLookupFailed, None)
    case Replied(status, body) =>
      if !StatusTable.IsOk(status) then ProblemInfo(Some(problemId), TitleLookupFailed, None)
      else
        match body
        case Data(data) => ProblemInfo(data.problemId, data.titleKo.GetOr(NoTitle), data.level)
        case _ => ProblemInfo(Some(problemId), TitleLookupFailed, None)
  }

  /**
   * A problem whose lookup failed, or whose answer has no level, is shown
   * with the unknown-level name and the fallback colour.
   */
  lemma ProblemWithoutLevelShownUnknown(problemId: string, reply: Reply<ProblemBody>)
    requires !ProblemDataRead(reply) || reply.body.data.level.None?
    ensures LevelName(FetchProblemInfo(problemId, reply).level) == UnknownLevel
    ensures LevelColor(FetchProblemInfo(problemId, reply).level) == FallbackColor
  {
  }
}
