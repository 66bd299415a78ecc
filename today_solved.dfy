/**
 * The "solved today" panel of a group: the map from each member to the
 * problems they solved today, and the order in which members are shown.
 *
 * Fetching a member's problems goes through `BojApi.FetchTodaySolvedProblems`;
 * the reply the server gives for each Baekjoon id is a parameter.
 */
module TodaySolved {
  import opened Wrappers
  import opened Seqs
  import BojApi

  /** A group member as the panel reads it: user id, Baekjoon id and nickname of the profile. */
  datatype Member = Member(userId: string, bojId: Option<string>, nickname: Option<string>)

  /** Member user id to the problems solved today, or `null`. */
  type SolvedMap = map<string, Option<seq<string>>>

  /** The server's reply for each Baekjoon id. */
  type Replies = string -> BojApi.Reply<BojApi.ItemsBody>

  /** `!bojId` is false: the member has a non-empty Baekjoon id. */
  predicate HasBojId(m: Member) {
    m.bojId.Some? && m.bojId.value != ""
  }

  // ---------------------------------------------------------------- the solved map

  /** The entry `fetchAll` makes for one member. */
  function EntryOf(m: Member, replies: Replies): (e: Option<seq<string>>)
    ensures e.None? <==> !HasBojId(m) || BojApi.FetchTodaySolvedProblems(replies(m.bojId.value)).Failure?
    ensures e.Some? ==> BojApi.FetchTodaySolvedProblems(replies(m.bojId.value)) == Success(e.value)
  {
    if !HasBojId(m) then None
    else
      match BojApi.FetchTodaySolvedProblems(replies(m.bojId.value))
      case Success(items) => Some(items)
      case Failure(_) => None
  }

  /** The map after the first `n` members. */
  function SolvedMapUpTo(members: seq<Member>, replies: Replies, n: nat): SolvedMap
    requires n <= |members|
  {
    if n == 0 then map[]
    else SolvedMapUpTo(members, replies, n - 1)[members[n - 1].userId := EntryOf(members[n - 1], replies)]
  }

  /** The Baekjoon ids fetched for the first `n` members, in order. */
  function FetchedUpTo(members: seq<Member>, n: nat): seq<string>
    requires n <= |members|
  {
    if n == 0 then []
    else FetchedUpTo(members, n - 1) + (if HasBojId(members[n - 1]) then [members[n - 1].bojId.value] else [])
  }

  /**
   * `fetchAll`: one entry per member, in member order; a member without a
   * Baekjoon id gets `null` and no fetch, a failed fetch gets `null` and the
   * loop goes on. Also returns the ids fetched, in order.
   */
  method FetchAll(members: seq<Member>, replies: Replies) returns (solved: SolvedMap, fetched: seq<string>)
    ensures solved == SolvedMapUpTo(members, replies, |members|)
    ensures fetched == FetchedUpTo(members, |members|)
  {
    solved := map[];
    fetched := [];
    for i := 0 to |members|
      invariant solved == SolvedMapUpTo(members, replies, i)
      invariant fetched == FetchedUpTo(members, i)
    {
      var m := members[i];
      if !HasBojId(m) {
        solved := solved[m.userId := None];
        continue;
      }
      fetched := fetched + [m.bojId.value];
      var result := BojApi.FetchTodaySolvedProblems(replies(m.bojId.value));
      if result.Success? {
        solved := solved[m.userId := Some(result.value)];
      } else {
        solved := solved[m.userId := None];
      }
    }
  }

  /** Every member has an entry, and nothing else does. */
  lemma {:induction false} SolvedMapKeys(members: seq<Member>, replies: Replies, n: nat)
    requires n <= |members|
    ensures forall k :: k in SolvedMapUpTo(members, replies, n) <==>
              exists j :: 0 <= j < n && members[j].userId == k
  {
    if n > 0 {
      SolvedMapKeys(members, replies, n - 1);
    }
  }

  /** A member's entry is the one made for them, unless a later member shares the user id. */
  lemma {:induction false} SolvedMapEntry(members: seq<Member>, replies: Replies, n: nat, i: nat)
    requires i < n <= |members|
    requires forall j :: i < j < n ==> members[j].userId != members[i].userId
    ensures members[i].userId in SolvedMapUpTo(members, replies, n)
    ensures SolvedMapUpTo(members, replies, n)[members[i].userId] == EntryOf(members[i], replies)
  {
    if i < n - 1 {
      SolvedMapEntry(members, replies, n - 1, i);
    }
  }

  /** Exactly the members with a Baekjoon id are fetched, each for that id. */
  lemma {:induction false} FetchedIds(members: seq<Member>, n: nat)
    requires n <= |members|
    ensures forall x :: x in FetchedUpTo(members, n) <==>
              exists j :: 0 <= j < n && HasBojId(members[j]) && members[j].bojId.value == x
    ensures |FetchedUpTo(members, n)| <= n
  {
    if n > 0 {
      FetchedIds(members, n - 1);
    }
  }

  // ---------------------------------------------------------------- display

  /** `solvedMap[userId]?.length || 0`: missing and `null` entries count as 0. */
  function SolvedCount(solved: SolvedMap, m: Member): nat {
    if m.userId in solved && solved[m.userId].Some? then |solved[m.userId].value| else 0
  }

  /** `solved == null || solved.length === 0`: the member is shown as not having solved yet. */
  predicate ShownUnsolved(solved: SolvedMap, m: Member) {
    m.userId !in solved || solved[m.userId].None? || solved[m.userId].value == []
  }

  /**
   * After `fetchAll`, a member (with a user id of their own) is shown as not
   * having solved exactly when they have no Baekjoon id, their fetch failed,
   * or it gave no problems; that is exactly when their count is 0.
   */
  lemma ShownUnsolvedMeaning(members: seq<Member>, replies: Replies, i: nat)
    requires i < |members|
    requires forall j :: 0 <= j < |members| && j != i ==> members[j].userId != members[i].userId
    ensures var solved := SolvedMapUpTo(members, replies, |members|);
            && (ShownUnsolved(solved, members[i]) <==>
                  || !HasBojId(members[i])
                  || BojApi.FetchTodaySolvedProblems(replies(members[i].bojId.value)).Failure?
                  || BojApi.FetchTodaySolvedProblems(replies(members[i].bojId.value)) == Success([]))
            && (ShownUnsolved(solved, members[i]) <==> SolvedCount(solved, members[i]) == 0)
  {
    SolvedMapEntry(members, replies, |members|, i);
  }

  /** `SolvedCount` as the key the display order sorts by. */
  function CountOf(solved: SolvedMap): Member -> nat {
    (m: Member) => SolvedCount(solved, m)
  }

  /** Non-increasing keys. */
  predicate SortedByKey(key: Member -> nat, s: seq<Member>) {
    forall i, j :: 0 <= i < j < |s| ==> key(s[i]) >= key(s[j])
  }

  /** Where `Insert` puts `x`: after the last element whose key is not below its own. */
  function InsertPos(key: Member -> nat, x: Member, s: seq<Member>): (k: nat)
    ensures k <= |s|
    ensures forall j :: k <= j < |s| ==> key(s[j]) < key(x)
    ensures k > 0 ==> key(s[k - 1]) >= key(x)
  {
    if s == [] then 0
    else if key(s[|s| - 1]) >= key(x) then |s|
    else InsertPos(key, x, s[..|s| - 1])
  }

  /** Inserts `x` into `s` after every element whose key is not below its own. */
  function Insert(key: Member -> nat, x: Member, s: seq<Member>): seq<Member> {
    var k := InsertPos(key, x, s);
    s[..k] + [x] + s[k..]
  }

  /** Stable sort by non-increasing key: insertion from the left. */
  function SortByKey(key: Member -> nat, members: seq<Member>): seq<Member> {
    if members == [] then []
    else Insert(key, members[|members| - 1], SortByKey(key, members[..|members| - 1]))
  }

  /**
   * The display order: `[...members].sort((a, b) => bSolved - aSolved)`.
   * The sort is stable, so equal counts keep the members' order.
   */
  function DisplayOrder(solved: SolvedMap, members: seq<Member>): seq<Member> {
    SortByKey(CountOf(solved), members)
  }

  /** The test "has key `c`", to filter the members of one key. */
  function HasKey(key: Member -> nat, c: nat): Member -> bool {
    (m: Member) => key(m) == c
  }

  /** Inserting into a sorted sequence keeps it sorted. */
  lemma InsertSorted(key: Member -> nat, x: Member, s: seq<Member>)
    requires SortedByKey(key, s)
    ensures SortedByKey(key, Insert(key, x, s))
  {
    var k := InsertPos(key, x, s);
    var r := Insert(key, x, s);
    assert forall i :: 0 <= i < k ==> r[i] == s[i];
    assert r[k] == x;
    assert forall i :: k < i < |r| ==> r[i] == s[i - 1];
    forall i, j | 0 <= i < j < |r|
      ensures key(r[i]) >= key(r[j])
    {
      if j == k {
        assert key(s[i]) >= key(s[k - 1]);
      }
    }
  }

  /** Inserting adds exactly one occurrence of `x`. */
  lemma InsertMultiset(key: Member -> nat, x: Member, s: seq<Member>)
    ensures multiset(Insert(key, x, s)) == multiset(s) + multiset{x}
  {
    var k := InsertPos(key, x, s);
    assert s == s[..k] + s[k..];
  }

  /** Among the members of one key, `x` goes after all those already placed. */
  lemma InsertStable(key: Member -> nat, x: Member, s: seq<Member>, c: nat)
    ensures Filter(Insert(key, x, s), HasKey(key, c)) ==
            Filter(s, HasKey(key, c)) + Filter([x], HasKey(key, c))
  {
    var p := HasKey(key, c);
    var k := InsertPos(key, x, s);
    var a, b := s[..k], s[k..];
    assert s == a + b;
    assert Insert(key, x, s) == (a + [x]) + b;
    FilterAppend(a, b, p);
    FilterAppend(a + [x], b, p);
    FilterAppend(a, [x], p);
    FilterNone(b, HasKey(key, key(x)));
  }

  /**
   * The sort is by non-increasing key, holds every member as often as
   * `members` does, and keeps the members of equal key in their order.
   */
  lemma {:induction false} SortByKeyCorrect(key: Member -> nat, members: seq<Member>)
    ensures SortedByKey(key, SortByKey(key, members))
    ensures multiset(SortByKey(key, members)) == multiset(members)
    ensures forall c: nat :: Filter(SortByKey(key, members), HasKey(key, c)) ==
                             Filter(members, HasKey(key, c))
  {
    if members != [] {
      var init := members[..|members| - 1];
      var x := members[|members| - 1];
      assert members == init + [x];
      SortByKeyCorrect(key, init);
      var d := SortByKey(key, init);
      InsertSorted(key, x, d);
      InsertMultiset(key, x, d);
      forall c: nat
        ensures Filter(SortByKey(key, members), HasKey(key, c)) == Filter(members, HasKey(key, c))
      {
        InsertStable(key, x, d, c);
        FilterAppend(init, [x], HasKey(key, c));
      }
    }
  }

  /**
   * The members are shown by non-increasing solved count, each as often as
   * in `members`, and members with equal counts in their order in `members`.
   */
  lemma DisplayOrderCorrect(solved: SolvedMap, members: seq<Member>)
    ensures forall i, j :: 0 <= i < j < |DisplayOrder(solved, members)| ==>
              SolvedCount(solved, DisplayOrder(solved, members)[i]) >=
              SolvedCount(solved, DisplayOrder(solved, members)[j])
    ensures multiset(DisplayOrder(solved, members)) == multiset(members)
    ensures forall c: nat :: Filter(DisplayOrder(solved, members), HasKey(CountOf(solved), c)) ==
                             Filter(members, HasKey(CountOf(solved), c))
  {
    SortByKeyCorrect(CountOf(solved), members);
  }
}
