/**
 * The penalty panel of a group page: the Monday-to-Sunday ranges of this week
 * and last week, their `YYYY-MM-DD` labels, and the per-user summary of the
 * penalty records a range holds.
 *
 * Dates are day numbers (days since 1970-01-01, which was a Thursday) with the
 * weekday numbering of `Date.getDay()`: Sunday 0, Monday 1, ..., Saturday 6.
 */
module PunishmentInfo {
  import opened Wrappers
  import opened Seqs
  import Decimal

  const Sunday: int := 0
  const Monday: int := 1

  /** `getDay()` of a day number. */
  function Weekday(day: int): (w: int)
    ensures 0 <= w < 7
  {
    (day + 4) % 7
  }

  /** `(day + 6) % 7`: how many days back the Monday of the week is. */
  function DiffToMonday(weekday: int): (d: int)
    requires 0 <= weekday < 7
    ensures 0 <= d <= 6
    ensures d == 0 <==> weekday == Monday
    ensures weekday == (d + 1) % 7
  {
    (weekday + 6) % 7
  }

  /** A week as the day numbers of its Monday and its Sunday. */
  datatype WeekRange = WeekRange(start: int, end: int)

  /** A range that starts on a Monday and ends on the Sunday six days later. */
  predicate MondayToSunday(r: WeekRange) {
    Weekday(r.start) == Monday && Weekday(r.end) == Sunday && r.end == r.start + 6
  }

  /** `getWeekRange`: the Monday on or before `date`, and the Sunday six days after it. */
  function GetWeekRange(date: int): (r: WeekRange)
    ensures MondayToSunday(r)
    ensures r.start <= date <= r.end
  {
    var monday := date - DiffToMonday(Weekday(date));
    WeekRange(monday, monday + 6)
  }

  /** Only one Monday-to-Sunday range contains a date, so every day of a week gets the same range. */
  lemma WeekRangeUnique(date: int, r: WeekRange)
    requires MondayToSunday(r) && r.start <= date <= r.end
    ensures GetWeekRange(date) == r
  {
    var s := GetWeekRange(date).start;
    var d := s - r.start;
    assert -6 <= d <= 6;
    assert (s + 4) % 7 == (r.start + 4) % 7;
    assert d % 7 == 0;
  }

  /**
   * Last week's range as the panel computes it: this week's Monday is
   * formatted, read back with `new Date("YYYY-MM-DD")` (which the language reads
   * as UTC midnight), moved back 7 days on the local calendar, and given to
   * getWeekRange. `utcOffsetMinutes` is the host's offset from UTC: west of
   * UTC, UTC midnight still falls on the previous local day.
   */
  function LastWeekRangeAsWritten(today: int, utcOffsetMinutes: int): WeekRange
    requires -24 * 60 < utcOffsetMinutes < 24 * 60
  {
    var monday := GetWeekRange(today).start;
    var parsed := if utcOffsetMinutes >= 0 then monday else monday - 1;
    GetWeekRange(parsed - 7)
  }

  /** West of UTC the computed "last week" is the week before last. */
  lemma LastWeekAsWrittenWestOfUtc(today: int, utcOffsetMinutes: int)
    requires -24 * 60 < utcOffsetMinutes < 0
    ensures LastWeekRangeAsWritten(today, utcOffsetMinutes).start == GetWeekRange(today).start - 14
  {
    var monday := GetWeekRange(today).start;
    WeekRangeUnique(monday - 8, WeekRange(monday - 14, monday - 8));
  }

  /**
   * Monday 2024-06-10 is day 19884. On a host at UTC-05:00 the panel labels
   * 2024-05-27..2024-06-02 (days 19870..19876) as last week instead of
   * 2024-06-03..2024-06-09 (days 19877..19883).
   */
  lemma LastWeekAsWrittenExample()
    ensures Weekday(19884) == Monday
    ensures LastWeekRangeAsWritten(19884, -300) == WeekRange(19870, 19876)
    ensures LastWeekRange(19884) == WeekRange(19877, 19883)
  {
    assert Weekday(19884) == Monday;
    assert GetWeekRange(19884) == WeekRange(19884, 19890);
    assert Weekday(19876) == Sunday;
    assert GetWeekRange(19876) == WeekRange(19870, 19876);
  }

  /** Last week: the Monday-to-Sunday range ending the day before this week's Monday. */
  function LastWeekRange(today: int): (r: WeekRange)
    ensures MondayToSunday(r)
    ensures r.start == GetWeekRange(today).start - 7
    ensures r.end == GetWeekRange(today).start - 1
  {
    var monday := GetWeekRange(today).start;
    WeekRangeUnique(monday - 7, WeekRange(monday - 7, monday - 1));
    GetWeekRange(monday - 7)
  }

  /** At or east of UTC the panel's computation gives last week. */
  lemma LastWeekAsWrittenEastOfUtc(today: int, utcOffsetMinutes: int)
    requires 0 <= utcOffsetMinutes < 24 * 60
    ensures LastWeekRangeAsWritten(today, utcOffsetMinutes) == LastWeekRange(today)
  {
  }

  /** The two ranges the panel queries: this week and last week. */
  function PanelRanges(today: int): (ranges: (WeekRange, WeekRange))
    ensures ranges.0.start <= today <= ranges.0.end
    ensures ranges.1.end + 1 == ranges.0.start
    ensures MondayToSunday(ranges.0) && MondayToSunday(ranges.1)
  {
    (GetWeekRange(today), LastWeekRange(today))
  }

  /** The calendar fields of a Date: `getFullYear()`, `getMonth()` (0-based) and `getDate()`. */
  datatype CalendarDate = CalendarDate(year: int, month0: int, day: int)

  predicate ValidFields(d: CalendarDate) {
    0 <= d.month0 <= 11 && 1 <= d.day <= 31
  }

  /** `formatDate`: year, 1-based month and day, month and day padded to two digits. */
  function FormatDate(d: CalendarDate): string
    requires ValidFields(d)
  {
    Decimal.IntToDecimal(d.year) + "-" +
    Decimal.PadStart2(Decimal.NatToDecimal(d.month0 + 1)) + "-" +
    Decimal.PadStart2(Decimal.NatToDecimal(d.day))
  }

  /**
   * For a four-digit year the label is `YYYY-MM-DD`: ten characters, dashes at
   * positions 4 and 7, digits elsewhere, and the three numbers read back as the
   * year, the 1-based month and the day.
   */
  lemma FormatDateShape(d: CalendarDate)
    requires ValidFields(d) && 1000 <= d.year <= 9999
    ensures var s := FormatDate(d);
      && |s| == 10 && s[4] == '-' && s[7] == '-'
      && Decimal.AllDigits(s[..4]) && Decimal.AllDigits(s[5..7]) && Decimal.AllDigits(s[8..])
      && Decimal.DecimalToNat(s[..4]) == d.year
      && Decimal.DecimalToNat(s[5..7]) == d.month0 + 1
      && Decimal.DecimalToNat(s[8..]) == d.day
  {
    var y := Decimal.NatToDecimal(d.year);
    Decimal.DecimalLength(d.year);
    Decimal.DecimalRoundTrip(d.year);
    Decimal.TwoDigitRoundTrip(d.month0 + 1);
    Decimal.TwoDigitRoundTrip(d.day);
    assert Decimal.IntToDecimal(d.year) == y;
    DashedParts(y, Decimal.PadStart2(Decimal.NatToDecimal(d.month0 + 1)),
                Decimal.PadStart2(Decimal.NatToDecimal(d.day)));
  }

  lemma DashedParts(y: string, m: string, dd: string)
    requires |y| == 4 && |m| == 2 && |dd| == 2
    ensures var s := y + "-" + m + "-" + dd;
      |s| == 10 && s[4] == '-' && s[7] == '-' && s[..4] == y && s[5..7] == m && s[8..] == dd
  {
  }

  // ---------------------------------------------------------------------
  // groupPunishmentsByUser
  // ---------------------------------------------------------------------

  /** The joined `profiles(nickname, boj_id)` of a penalty record. */
  datatype Profile = Profile(nickname: Option<string>, bojId: Option<string>)

  /** A penalty record; `date` is the label the panel shows for its date. */
  datatype Punishment = Punishment(userId: string, profile: Option<Profile>, date: string)

  /** One line of the panel: a user, their penalty dates in record order, and how many. */
  datatype UserPenalties = UserPenalties(userId: string, nickname: string, bojId: string,
                                         dates: seq<string>, count: nat)

  const NoNickname: string := "닉네임 없음"
  const NoBojId: string := "백준 ID 없음"

  /** `p.profiles?.nickname || '닉네임 없음'` */
  function NicknameOf(p: Punishment): string {
    OrDefault(if p.profile.Some? then p.profile.value.nickname else None, NoNickname)
  }

  /** `p.profiles?.boj_id || '백준 ID 없음'` */
  function BojIdOf(p: Punishment): string {
    OrDefault(if p.profile.Some? then p.profile.value.bojId else None, NoBojId)
  }

  /** The user id of every record, in record order. */
  function UserIds(ps: seq<Punishment>): (ids: seq<string>)
    ensures |ids| == |ps|
  {
    seq(|ps|, j requires 0 <= j < |ps| => ps[j].userId)
  }

  /** The first record of user `u`. */
  function FirstOf(ps: seq<Punishment>, u: string): (p: Punishment)
    requires u in UserIds(ps)
    ensures p.userId == u
  {
    if ps[0].userId == u then ps[0]
    else
      assert UserIds(ps) == [ps[0].userId] + UserIds(ps[1..]);
      FirstOf(ps[1..], u)
  }

  /** FirstOf is the record of `u` that no other record of `u` precedes. */
  lemma {:induction false} FirstOfIsFirst(ps: seq<Punishment>, u: string)
    requires u in UserIds(ps)
    ensures exists k :: 0 <= k < |ps| && ps[k] == FirstOf(ps, u) && (forall j :: 0 <= j < k ==> ps[j].userId != u)
  {
    if ps[0].userId != u {
      assert UserIds(ps) == [ps[0].userId] + UserIds(ps[1..]);
      FirstOfIsFirst(ps[1..], u);
      var k :| 0 <= k < |ps| - 1 && ps[1..][k] == FirstOf(ps[1..], u) &&
               (forall j :: 0 <= j < k ==> ps[1..][j].userId != u);
      assert forall j :: 0 <= j < k + 1 ==> ps[j].userId != u by {
        forall j | 0 <= j < k + 1 ensures ps[j].userId != u {
          if j > 0 { assert ps[j] == ps[1..][j - 1]; }
        }
      }
    } else {
      assert ps[0] == FirstOf(ps, u);
    }
  }

  /** The date labels of user `u`'s records, in record order. */
  function DatesOf(ps: seq<Punishment>, u: string): seq<string> {
    if ps == [] then []
    else
      var last := ps[|ps| - 1];
      DatesOf(ps[..|ps| - 1], u) + (if last.userId == u then [last.date] else [])
  }

  /** The summary line of user `u`: profile fields from the user's first record, then all the dates. */
  function PenaltyOf(ps: seq<Punishment>, u: string): (e: UserPenalties)
    requires u in UserIds(ps)
    ensures e.userId == u
  {
    var first := FirstOf(ps, u);
    UserPenalties(u, NicknameOf(first), BojIdOf(first), DatesOf(ps, u), |DatesOf(ps, u)|)
  }

  /** The summary lines of the users `us`, in that order. */
  function GroupedFor(ps: seq<Punishment>, us: seq<string>): (gs: seq<UserPenalties>)
    requires forall v :: v in us ==> v in UserIds(ps)
    ensures |gs| == |us|
    ensures forall i :: 0 <= i < |us| ==> gs[i] == PenaltyOf(ps, us[i])
  {
    if us == [] then [] else GroupedFor(ps, us[..|us| - 1]) + [PenaltyOf(ps, us[|us| - 1])]
  }

  /** What the panel lists: one line per user, in the order of each user's first record. */
  function Grouped(ps: seq<Punishment>): seq<UserPenalties> {
    DedupMembers(UserIds(ps));
    GroupedFor(ps, Dedup(UserIds(ps)))
  }

  lemma UserIdsSnoc(ps: seq<Punishment>, p: Punishment)
    ensures UserIds(ps + [p]) == UserIds(ps) + [p.userId]
  {
  }

  /** Appending a record leaves every earlier user's first record in place. */
  lemma {:induction false} FirstOfSnoc(ps: seq<Punishment>, p: Punishment, u: string)
    requires u in UserIds(ps)
    ensures u in UserIds(ps + [p]) && FirstOf(ps + [p], u) == FirstOf(ps, u)
  {
    UserIdsSnoc(ps, p);
    if ps[0].userId != u {
      assert (ps + [p])[1..] == ps[1..] + [p];
      assert UserIds(ps) == [ps[0].userId] + UserIds(ps[1..]);
      FirstOfSnoc(ps[1..], p, u);
    }
  }

  /** A user whose first record comes last has that record as their first. */
  lemma {:induction false} FirstOfNewUser(ps: seq<Punishment>, p: Punishment)
    requires p.userId !in UserIds(ps)
    ensures p.userId in UserIds(ps + [p]) && FirstOf(ps + [p], p.userId) == p
  {
    UserIdsSnoc(ps, p);
    if ps != [] {
      assert ps[0].userId == UserIds(ps)[0];
      assert (ps + [p])[1..] == ps[1..] + [p];
      assert UserIds(ps) == [ps[0].userId] + UserIds(ps[1..]);
      FirstOfNewUser(ps[1..], p);
    }
  }

  /** A user without records has no dates. */
  lemma {:induction false} DatesOfAbsent(ps: seq<Punishment>, u: string)
    requires u !in UserIds(ps)
    ensures DatesOf(ps, u) == []
  {
    if ps != [] {
      assert UserIds(ps) == UserIds(ps[..|ps| - 1]) + [ps[|ps| - 1].userId];
      DatesOfAbsent(ps[..|ps| - 1], u);
    }
  }

  /** How one more record changes a user's summary line: the body of the forEach. */
  lemma PenaltyOfSnoc(ps: seq<Punishment>, p: Punishment, u: string)
    requires u in UserIds(ps + [p])
    ensures u in UserIds(ps) ==>
              var e := PenaltyOf(ps, u);
              PenaltyOf(ps + [p], u) ==
                if p.userId == u then e.(count := e.count + 1, dates := e.dates + [p.date]) else e
    ensures u !in UserIds(ps) ==>
              PenaltyOf(ps + [p], u) == UserPenalties(u, NicknameOf(p), BojIdOf(p), [p.date], 1)
  {
    UserIdsSnoc(ps, p);
    assert (ps + [p])[..|ps|] == ps;
    if u in UserIds(ps) {
      FirstOfSnoc(ps, p, u);
    } else {
      DatesOfAbsent(ps, u);
      assert u == p.userId;
      FirstOfNewUser(ps, p);
      assert DatesOf(ps + [p], u) == [p.date];
    }
  }

  /** How many records belong to user `u`. */
  function CountOf(ps: seq<Punishment>, u: string): nat {
    multiset(UserIds(ps))[u]
  }

  /** A user's date list has one entry per record of that user. */
  lemma {:induction false} DatesMatchRecords(ps: seq<Punishment>, u: string)
    ensures |DatesOf(ps, u)| == CountOf(ps, u)
  {
    if ps != [] {
      var init := ps[..|ps| - 1];
      DatesMatchRecords(init, u);
      assert ps == init + [ps[|ps| - 1]];
      UserIdsSnoc(init, ps[|ps| - 1]);
    }
  }

  /** Sum of the `count` fields of the lines. */
  function SumCounts(gs: seq<UserPenalties>): int {
    if gs == [] then 0 else SumCounts(gs[..|gs| - 1]) + gs[|gs| - 1].count
  }

  /** Sum of the date-list lengths of the users `us`. */
  function SumDates(ps: seq<Punishment>, us: seq<string>): int {
    if us == [] then 0 else SumDates(ps, us[..|us| - 1]) + |DatesOf(ps, us[|us| - 1])|
  }

  lemma {:induction false} SumCountsIsSumDates(ps: seq<Punishment>, us: seq<string>)
    requires forall v :: v in us ==> v in UserIds(ps)
    ensures SumCounts(GroupedFor(ps, us)) == SumDates(ps, us)
  {
    if us != [] {
      var init := us[..|us| - 1];
      SumCountsIsSumDates(ps, init);
      assert GroupedFor(ps, us)[..|us| - 1] == GroupedFor(ps, init);
    }
  }

  /** One more record adds one to the dates of exactly one of a list of distinct users, if it is theirs. */
  lemma {:induction false} SumDatesSnoc(ps: seq<Punishment>, p: Punishment, us: seq<string>)
    requires Distinct(us)
    ensures SumDates(ps + [p], us) == SumDates(ps, us) + (if p.userId in us then 1 else 0)
  {
    assert (ps + [p])[..|ps|] == ps;
    if us != [] {
      var init := us[..|us| - 1];
      assert us == init + [us[|us| - 1]];
      SumDatesSnoc(ps, p, init);
    }
  }

  /** Summed over the distinct users, the dates account for every record once. */
  lemma {:induction false} SumDatesIsTotal(ps: seq<Punishment>)
    ensures SumDates(ps, Dedup(UserIds(ps))) == |ps|
  {
    if ps != [] {
      var init := ps[..|ps| - 1];
      var p := ps[|ps| - 1];
      assert ps == init + [p];
      SumDatesIsTotal(init);
      UserIdsSnoc(init, p);
      DedupSnoc(UserIds(init), p.userId);
      var d := Dedup(UserIds(init));
      DedupMembers(UserIds(init));
      SumDatesSnoc(init, p, d);
      if p.userId !in d {
        assert (d + [p.userId])[..|d|] == d;
        DatesOfAbsent(init, p.userId);
        assert DatesOf(ps, p.userId) == [p.date];
      }
    }
  }

  /** The panel lists every user with a record exactly once, and nobody else. */
  lemma GroupedOnePerUser(ps: seq<Punishment>)
    ensures var gs := Grouped(ps);
      && (forall i, j :: 0 <= i < j < |gs| ==> gs[i].userId != gs[j].userId)
      && (forall i :: 0 <= i < |gs| ==> gs[i].userId in UserIds(ps))
      && (forall u :: u in UserIds(ps) ==> exists i :: 0 <= i < |gs| && gs[i].userId == u)
  {
    var us := Dedup(UserIds(ps));
    var gs := Grouped(ps);
    DedupMembers(UserIds(ps));
    forall u | u in UserIds(ps)
      ensures exists i :: 0 <= i < |gs| && gs[i].userId == u
    {
      var i := FirstIndex(us, u);
      assert gs[i].userId == u;
    }
  }

  /** Users are listed in the order of their first records. */
  lemma GroupedOrder(ps: seq<Punishment>, i: int, j: int)
    requires 0 <= i < j < |Grouped(ps)|
    ensures var gs := Grouped(ps);
      FirstSeenBefore(UserIds(ps), gs[i].userId, gs[j].userId)
  {
    DedupFirstSeenOrder(UserIds(ps));
  }

  /** Each line's count is the number of that user's records, and the length of its date list. */
  lemma GroupedCounts(ps: seq<Punishment>)
    ensures var gs := Grouped(ps);
      forall i :: 0 <= i < |gs| ==> gs[i].count == |gs[i].dates| == CountOf(ps, gs[i].userId)
  {
    var us := Dedup(UserIds(ps));
    var gs := Grouped(ps);
    forall i | 0 <= i < |gs|
      ensures gs[i].count == |gs[i].dates| == CountOf(ps, gs[i].userId)
    {
      DatesMatchRecords(ps, us[i]);
    }
  }

  /** Nickname and BOJ id on a line come from that user's first record, with the placeholders for missing ones. */
  lemma GroupedProfiles(ps: seq<Punishment>, i: int)
    requires 0 <= i < |Grouped(ps)|
    ensures var g := Grouped(ps)[i];
      exists k :: 0 <= k < |ps| && ps[k].userId == g.userId &&
                  (forall j :: 0 <= j < k ==> ps[j].userId != g.userId) &&
                  g.nickname == NicknameOf(ps[k]) && g.bojId == BojIdOf(ps[k])
  {
    DedupMembers(UserIds(ps));
    assert Dedup(UserIds(ps))[i] in Dedup(UserIds(ps));
    FirstOfIsFirst(ps, Dedup(UserIds(ps))[i]);
  }

  /** The counts on all lines add up to the number of records. */
  lemma GroupedSumIsTotal(ps: seq<Punishment>)
    ensures SumCounts(Grouped(ps)) == |ps|
  {
    DedupMembers(UserIds(ps));
    SumCountsIsSumDates(ps, Dedup(UserIds(ps)));
    SumDatesIsTotal(ps);
  }

  /** The forEach's dictionary after reading the records `ps`, one record at a time. */
  function GroupMap(ps: seq<Punishment>): map<string, UserPenalties> {
    if ps == [] then map[]
    else
      var m := GroupMap(ps[..|ps| - 1]);
      var p := ps[|ps| - 1];
      var entry := if p.userId in m then m[p.userId] else UserPenalties(p.userId, NicknameOf(p), BojIdOf(p), [], 0);
      m[p.userId := entry.(count := entry.count + 1, dates := entry.dates + [p.date])]
  }

  lemma GroupMapSnoc(ps: seq<Punishment>, p: Punishment)
    ensures var m := GroupMap(ps);
            var entry := if p.userId in m then m[p.userId] else UserPenalties(p.userId, NicknameOf(p), BojIdOf(p), [], 0);
            GroupMap(ps + [p]) == m[p.userId := entry.(count := entry.count + 1, dates := entry.dates + [p.date])]
  {
    assert (ps + [p])[..|ps|] == ps;
  }

  /** The dictionary holds exactly the users with records, each under their summary line. */
  lemma {:induction false} GroupMapEntry(ps: seq<Punishment>, u: string)
    ensures u in GroupMap(ps) <==> u in UserIds(ps)
    ensures u in GroupMap(ps) ==> GroupMap(ps)[u] == PenaltyOf(ps, u)
  {
    if ps != [] {
      var init := ps[..|ps| - 1];
      var p := ps[|ps| - 1];
      assert ps == init + [p];
      GroupMapEntry(init, u);
      UserIdsSnoc(init, p);
      if u in UserIds(ps) {
        PenaltyOfSnoc(init, p, u);
      }
    }
  }

  /** Reading record `i` moves the dictionary from the first `i` records to the first `i + 1`. */
  lemma GroupStep(ps: seq<Punishment>, i: nat, grouped: map<string, UserPenalties>)
    requires i < |ps| && grouped == GroupMap(ps[..i])
    ensures var p := ps[i];
            var entry := if p.userId in grouped then grouped[p.userId]
                         else UserPenalties(p.userId, NicknameOf(p), BojIdOf(p), [], 0);
            GroupMap(ps[..i + 1]) == grouped[p.userId := entry.(count := entry.count + 1, dates := entry.dates + [p.date])]
  {
    assert ps[..i + 1] == ps[..i] + [ps[i]];
    GroupMapSnoc(ps[..i], ps[i]);
  }

  /** Reading record `i` appends its user to the key order exactly when the user is new. */
  lemma OrderStep(ps: seq<Punishment>, i: nat)
    requires i < |ps|
    ensures var u := ps[i].userId;
            var order := Dedup(UserIds(ps[..i]));
            && (u in GroupMap(ps[..i]) <==> u in order)
            && Dedup(UserIds(ps[..i + 1])) == if u in order then order else order + [u]
  {
    assert ps[..i + 1] == ps[..i] + [ps[i]];
    UserIdsSnoc(ps[..i], ps[i]);
    DedupSnoc(UserIds(ps[..i]), ps[i].userId);
    DedupMembers(UserIds(ps[..i]));
    GroupMapEntry(ps[..i], ps[i].userId);
  }

  /**
   * `groupPunishmentsByUser`: one pass over the records fills a dictionary keyed
   * by user id (creating a user's entry at their first record, then counting
   * and appending the date), and `Object.values` lists the entries in the order
   * their keys were inserted.
   */
  method GroupPunishmentsByUser(ps: seq<Punishment>) returns (groups: seq<UserPenalties>)
    ensures groups == Grouped(ps)
  {
    var grouped, order := GroupRecords(ps);
    assert forall j :: 0 <= j < |order| ==> order[j] in grouped by {
      forall j | 0 <= j < |order| ensures order[j] in grouped {
        DedupMembers(UserIds(ps));
        assert order[j] in order;
        GroupMapEntry(ps, order[j]);
      }
    }
    groups := ValuesInOrder(grouped, order);
    assert groups == Grouped(ps) by {
      forall j | 0 <= j < |order| ensures groups[j] == Grouped(ps)[j] {
        GroupMapEntry(ps, order[j]);
      }
    }
  }

  /** The forEach of groupPunishmentsByUser: the dictionary, and the order in which its keys were inserted. */
  method GroupRecords(ps: seq<Punishment>) returns (grouped: map<string, UserPenalties>, order: seq<string>)
    ensures grouped == GroupMap(ps)
    ensures order == Dedup(UserIds(ps))
  {
    grouped := map[];
    order := [];
    var i := 0;
    assert ps[..0] == [];
    while i < |ps|
      invariant 0 <= i <= |ps|
      invariant grouped == GroupMap(ps[..i])
      invariant order == Dedup(UserIds(ps[..i]))
    {
      var p := ps[i];
      GroupStep(ps, i, grouped);
      OrderStep(ps, i);
      var entry: UserPenalties;
      if p.userId in grouped {
        entry := grouped[p.userId];
      } else {
        entry := UserPenalties(p.userId, NicknameOf(p), BojIdOf(p), [], 0);
        order := order + [p.userId];
      }
      grouped := grouped[p.userId := entry.(count := entry.count + 1, dates := entry.dates + [p.date])];
      i := i + 1;
    }
    assert ps[..i] == ps;
  }

  /** `Object.values`: the entries of the dictionary in the order their keys were inserted. */
  method ValuesInOrder(grouped: map<string, UserPenalties>, order: seq<string>) returns (values: seq<UserPenalties>)
    requires forall j :: 0 <= j < |order| ==> order[j] in grouped
    ensures |values| == |order|
    ensures forall j :: 0 <= j < |order| ==> values[j] == grouped[order[j]]
  {
    values := [];
    var k := 0;
    while k < |order|
      invariant 0 <= k <= |order|
      invariant |values| == k
      invariant forall j :: 0 <= j < k ==> values[j] == grouped[order[j]]
    {
      values := values + [grouped[order[k]]];
      k := k + 1;
    }
  }
}
