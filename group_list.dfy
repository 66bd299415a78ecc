/**
 * The group list page: searching groups by name, the groups the user has
 * joined, and joining and leaving a group.
 *
 * The groups and group_members tables are not modelled: the page's writes
 * to them are recorded, and the answers it reads are parameters, as are the
 * user's answers to the password prompt and the confirmation dialog.
 */
module GroupList {
  import opened Wrappers
  import opened Seqs

  /** A row of the groups table as the page reads it. */
  datatype Group = Group(id: string, name: string, owner: string, password: Option<string>)

  /** JavaScript truthiness of a group's password: null and "" mean no password. */
  predicate HasPassword(password: Option<string>) {
    password.Some? && password.value != ""
  }

  // ---------------------------------------------------------------- search

  /** The capital Latin letters, and the small ones in the same order. */
  const Capitals: string := "ABCDEFGHIJKLMNOPQRSTUVWXYZ"
  const Smalls: string := "abcdefghijklmnopqrstuvwxyz"

  /**
   * `toLowerCase` on one character, for the letters A to Z: a capital letter
   * becomes the small letter at the same place in the alphabet, and every
   * other character is kept.
   */
  function LowerChar(c: char): (d: char)
    ensures forall k :: 0 <= k < |Capitals| && Capitals[k] == c ==> d == Smalls[k]
    ensures c !in Capitals ==> d == c
    ensures d !in Capitals
  {
    if 'A' <= c <= 'Z' then (c as int + 32) as char else c
  }

  /** `toLowerCase` on a string. */
  function Lower(s: string): (r: string)
    ensures |r| == |s|
  {
    seq(|s|, i requires 0 <= i < |s| => LowerChar(s[i]))
  }

  /**
   * A lower-cased string holds no capital letter, lower-casing it again
   * changes nothing, and a string without capital letters is its own
   * lower-cased form.
   */
  lemma LowerMeaning(s: string)
    ensures forall i :: 0 <= i < |Lower(s)| ==> Lower(s)[i] !in Capitals
    ensures Lower(Lower(s)) == Lower(s)
    ensures (forall i :: 0 <= i < |s| ==> s[i] !in Capitals) ==> Lower(s) == s
  {
  }

  /** `t` occurs in `s` starting at position `i`. */
  predicate OccursAt(s: string, t: string, i: int) {
    0 <= i && i + |t| <= |s| && s[i..i + |t|] == t
  }

  /** `s.includes(t)`, searching from position `i` on. */
  function IncludesFrom(s: string, t: string, i: nat): bool
    decreases |s| - i
  {
    if i + |t| > |s| then false
    else s[i..i + |t|] == t || IncludesFrom(s, t, i + 1)
  }

  /** `s.includes(t)`. */
  function Includes(s: string, t: string): bool {
    IncludesFrom(s, t, 0)
  }

  /** The search from position `i` finds `t` exactly when it occurs at `i` or later. */
  lemma {:induction false} IncludesFromMeaning(s: string, t: string, i: nat)
    ensures IncludesFrom(s, t, i) <==> exists k :: i <= k && OccursAt(s, t, k)
    decreases |s| - i
  {
    if i + |t| <= |s| {
      IncludesFromMeaning(s, t, i + 1);
      if !OccursAt(s, t, i) {
        assert forall k :: i <= k && OccursAt(s, t, k) ==> i + 1 <= k;
      }
    }
  }

  /** `s.includes(t)` holds exactly when `t` occurs somewhere in `s`; the empty string occurs everywhere. */
  lemma IncludesMeaning(s: string, t: string)
    ensures Includes(s, t) <==> exists k :: OccursAt(s, t, k)
    ensures t == [] ==> Includes(s, t)
  {
    IncludesFromMeaning(s, t, 0);
    if t == [] {
      assert OccursAt(s, t, 0);
    }
  }

  /** The search test of one group: its lower-cased name contains the lower-cased term. */
  predicate NameMatches(group: Group, term: string) {
    Includes(Lower(group.name), Lower(term))
  }

  /** The search test, as the function `filter` is given. */
  function MatchesTerm(term: string): Group -> bool {
    (g: Group) => NameMatches(g, term)
  }

  /** `filteredGroups`. */
  function FilteredGroups(groups: seq<Group>, term: string): seq<Group> {
    Filter(groups, MatchesTerm(term))
  }

  /**
   * The search keeps exactly the groups whose lower-cased name contains the
   * lower-cased term, in their order; an empty term keeps every group.
   */
  lemma FilteredGroupsMeaning(groups: seq<Group>, term: string)
    ensures forall g :: g in FilteredGroups(groups, term) <==>
              g in groups && exists k :: OccursAt(Lower(g.name), Lower(term), k)
    ensures forall i :: 0 <= i <= |groups| ==>
              FilteredGroups(groups, term) ==
              FilteredGroups(groups[..i], term) + FilteredGroups(groups[i..], term)
    ensures term == "" ==> FilteredGroups(groups, term) == groups
  {
    FilterMembers(groups, MatchesTerm(term));
    forall g | g in groups
      ensures NameMatches(g, term) <==> exists k :: OccursAt(Lower(g.name), Lower(term), k)
    {
      IncludesMeaning(Lower(g.name), Lower(term));
    }
    forall i | 0 <= i <= |groups|
      ensures FilteredGroups(groups, term) ==
              FilteredGroups(groups[..i], term) + FilteredGroups(groups[i..], term)
    {
      assert groups == groups[..i] + groups[i..];
      FilterAppend(groups[..i], groups[i..], MatchesTerm(term));
    }
    if term == "" {
      forall g | g in groups
        ensures MatchesTerm(term)(g)
      {
        IncludesMeaning(Lower(g.name), Lower(term));
      }
      FilterAll(groups, MatchesTerm(term));
    }
  }

  /** Case does not matter to the search: a term matches as its lower-case form does. */
  lemma SearchIgnoresCase(groups: seq<Group>, term: string)
    ensures FilteredGroups(groups, term) == FilteredGroups(groups, Lower(term))
  {
    LowerMeaning(term);
    FilterCongruent(groups, MatchesTerm(term), MatchesTerm(Lower(term)));
  }

  // ---------------------------------------------------------------- joined groups

  /** The test of `joinedGroups`: the group's id is among the joined ids. */
  function IsJoined(joined: set<string>): Group -> bool {
    (g: Group) => g.id in joined
  }

  /** `joinedGroups`. */
  function JoinedGroups(groups: seq<Group>, joined: set<string>): seq<Group> {
    Filter(groups, IsJoined(joined))
  }

  /** The joined groups are exactly the listed groups with a joined id, in list order. */
  lemma JoinedGroupsMeaning(groups: seq<Group>, joined: set<string>)
    ensures forall g :: g in JoinedGroups(groups, joined) <==> g in groups && g.id in joined
    ensures forall i :: 0 <= i <= |groups| ==>
              JoinedGroups(groups, joined) ==
              JoinedGroups(groups[..i], joined) + JoinedGroups(groups[i..], joined)
  {
    FilterMembers(groups, IsJoined(joined));
    forall i | 0 <= i <= |groups|
      ensures JoinedGroups(groups, joined) ==
              JoinedGroups(groups[..i], joined) + JoinedGroups(groups[i..], joined)
    {
      assert groups == groups[..i] + groups[i..];
      FilterAppend(groups[..i], groups[i..], IsJoined(joined));
    }
  }

  /** Joining one more group can only add that group to the joined list. */
  lemma JoinGrowsJoinedGroups(groups: seq<Group>, joined: set<string>, id: string)
    ensures forall g :: g in JoinedGroups(groups, joined + {id}) <==>
              g in JoinedGroups(groups, joined) || (g in groups && g.id == id)
  {
    JoinedGroupsMeaning(groups, joined);
    JoinedGroupsMeaning(groups, joined + {id});
  }

  // ---------------------------------------------------------------- the page

  /** The writes the page makes. */
  datatype Call =
    | InsertMember(groupId: string, userId: string)
    | DeleteGroup(groupId: string)
    | DeleteMember(groupId: string, userId: string)

  /** The alerts the page shows. */
  datatype Notice =
    | GroupsLoadFailed | MembershipsLoadFailed
    | LoginRequired | AlreadyJoined | WrongPassword | JoinFailed | Joined
    | GroupLookupFailed | DeleteFailed | GroupDeleted | LeaveFailed | Left

  /** The page's state. */
  class GroupListPage {
    var groups: seq<Group>
    var joinedGroupIds: set<string>
    var loading: bool
    var userId: Option<string>
    var searchTerm: string
    var sentToLogin: bool         // `navigate('/login')`
    var reloaded: bool            // `window.location.reload()`
    var calls: seq<Call>
    var notices: seq<Notice>

    /** The page as it opens, once the signed-in user (if any) is known. */
    constructor (userId: Option<string>)
      ensures this.userId == userId
      ensures groups == [] && joinedGroupIds == {} && !loading && searchTerm == ""
      ensures !sentToLogin && !reloaded && calls == [] && notices == []
    {
      this.userId := userId;
      groups := [];
      joinedGroupIds := {};
      loading := false;
      searchTerm := "";
      sentToLogin := false;
      reloaded := false;
      calls := [];
      notices := [];
    }

    /**
     * `fetchGroupsAndMemberships`. `groupRows` is the answer to the groups
     * query and `membershipRows` the group ids of the user's memberships;
     * `None` is a failed query.
     */
    method Load(groupRows: Option<seq<Group>>, membershipRows: Option<seq<string>>)
      modifies this
      ensures !loading && calls == old(calls)
      ensures userId == old(userId) && searchTerm == old(searchTerm)
      ensures sentToLogin == old(sentToLogin) && reloaded == old(reloaded)
      ensures groupRows.None? ==>
                groups == old(groups) && joinedGroupIds == old(joinedGroupIds) &&
                notices == old(notices) + [GroupsLoadFailed]
      ensures groupRows.Some? ==> groups == groupRows.value
      ensures groupRows.Some? && userId.None? ==> joinedGroupIds == {} && notices == old(notices)
      ensures groupRows.Some? && userId.Some? && membershipRows.None? ==>
                joinedGroupIds == old(joinedGroupIds) && notices == old(notices) + [MembershipsLoadFailed]
      ensures groupRows.Some? && userId.Some? && membershipRows.Some? ==>
                (forall id :: id in joinedGroupIds <==> id in membershipRows.value) &&
                notices == old(notices)
    {
      loading := true;
      if groupRows.None? {
        notices := notices + [GroupsLoadFailed];
        loading := false;
        return;
      }
      groups := groupRows.value;
      if userId.Some? {
        if membershipRows.None? {
          notices := notices + [MembershipsLoadFailed];
          loading := false;
          return;
        }
        joinedGroupIds := set id | id in membershipRows.value;
      } else {
        joinedGroupIds := {};
      }
      loading := false;
    }

    /** Typing in the search box. */
    method Search(term: string)
      modifies this
      ensures searchTerm == term
      ensures groups == old(groups) && joinedGroupIds == old(joinedGroupIds) && loading == old(loading)
      ensures userId == old(userId) && sentToLogin == old(sentToLogin) && reloaded == old(reloaded)
      ensures calls == old(calls) && notices == old(notices)
    {
      searchTerm := term;
    }

    /**
     * `handleJoinClick` followed by `joinGroup`. `group` is the listed group
     * clicked; `promptAnswer` is the text entered at the password prompt
     * (`None` when it is cancelled; only asked when the listed group has a
     * password); `fetched` is the group row read back by id (`None` when the
     * read fails, after which reading its password throws and the join stops);
     * `insertFails` says whether inserting the membership fails.
     */
    method JoinClick(group: Group, promptAnswer: Option<string>, fetched: Option<Group>, insertFails: bool)
      modifies this
      ensures groups == old(groups) && loading == old(loading) && userId == old(userId)
      ensures searchTerm == old(searchTerm) && reloaded == old(reloaded)
      ensures userId.None? ==>
                sentToLogin && calls == old(calls) &&
                joinedGroupIds == old(joinedGroupIds) && notices == old(notices) + [LoginRequired]
      ensures userId.Some? ==> sentToLogin == old(sentToLogin)
      ensures userId.Some? && HasPassword(group.password) && promptAnswer.None? ==>
                calls == old(calls) && joinedGroupIds == old(joinedGroupIds) && notices == old(notices)
      ensures userId.Some? && (!HasPassword(group.password) || promptAnswer.Some?) ==>
                var input := if HasPassword(group.password) then promptAnswer.value else "";
                && (group.id in old(joinedGroupIds) ==>
                      calls == old(calls) && joinedGroupIds == old(joinedGroupIds) &&
                      notices == old(notices) + [AlreadyJoined])
                && (group.id !in old(joinedGroupIds) && fetched.None? ==>
                      calls == old(calls) && joinedGroupIds == old(joinedGroupIds) &&
                      notices == old(notices))
                && (group.id !in old(joinedGroupIds) && fetched.Some? &&
                    HasPassword(fetched.value.password) && fetched.value.password.value != input ==>
                      calls == old(calls) && joinedGroupIds == old(joinedGroupIds) &&
                      notices == old(notices) + [WrongPassword])
                && (group.id !in old(joinedGroupIds) && fetched.Some? &&
                    !(HasPassword(fetched.value.password) && fetched.value.password.value != input) ==>
                      calls == old(calls) + [InsertMember(group.id, userId.value)] &&
                      (insertFails ==>
                         joinedGroupIds == old(joinedGroupIds) && notices == old(notices) + [JoinFailed]) &&
                      (!insertFails ==>
                         joinedGroupIds == old(joinedGroupIds) + {group.id} &&
                         notices == old(notices) + [Joined]))
    {
      if userId.None? {
        notices := notices + [LoginRequired];
        sentToLogin := true;
        return;
      }
      var input := "";
      if HasPassword(group.password) {
        if promptAnswer.None? {
          return;
        }
        input := promptAnswer.value;
      }
      // joinGroup
      if group.id in joinedGroupIds {
        notices := notices + [AlreadyJoined];
        return;
      }
      if fetched.None? {
        return;
      }
      if HasPassword(fetched.value.password) && fetched.value.password.value != input {
        notices := notices + [WrongPassword];
        return;
      }
      calls := calls + [InsertMember(group.id, userId.value)];
      if insertFails {
        notices := notices + [JoinFailed];
      } else {
        notices := notices + [Joined];
        joinedGroupIds := joinedGroupIds + {group.id};
      }
    }

    /**
     * `leaveGroup`. `owner` is the owner read for the group (`None` when the
     * read fails), `confirmed` the answer to the confirmation dialog and
     * `deleteFails` whether the delete fails.
     */
    method Leave(groupId: string, owner: Option<string>, confirmed: bool, deleteFails: bool)
      modifies this
      ensures groups == old(groups) && joinedGroupIds == old(joinedGroupIds) && loading == old(loading)
      ensures userId == old(userId) && searchTerm == old(searchTerm) && sentToLogin == old(sentToLogin)
      ensures userId.None? ==>
                calls == old(calls) && reloaded == old(reloaded) && notices == old(notices) + [LoginRequired]
      ensures userId.Some? && owner.None? ==>
                calls == old(calls) && reloaded == old(reloaded) && notices == old(notices) + [GroupLookupFailed]
      ensures userId.Some? && owner.Some? && !confirmed ==>
                calls == old(calls) && reloaded == old(reloaded) && notices == old(notices)
      ensures userId.Some? && owner.Some? && confirmed ==>
                var isOwner := owner.value == userId.value;
                && calls == old(calls) + [if isOwner then DeleteGroup(groupId)
                                          else DeleteMember(groupId, userId.value)]
                && (reloaded <==> old(reloaded) || !deleteFails)
                && notices == old(notices) + [if deleteFails then (if isOwner then DeleteFailed else LeaveFailed)
                                              else (if isOwner then GroupDeleted else Left)]
    {
      if userId.None? {
        notices := notices + [LoginRequired];
        return;
      }
      if owner.None? {
        notices := notices + [GroupLookupFailed];
        return;
      }
      if !confirmed {
        return;
      }
      if owner.value == userId.value {
        calls := calls + [DeleteGroup(groupId)];
        if deleteFails {
          notices := notices + [DeleteFailed];
          return;
        }
        notices := notices + [GroupDeleted];
        reloaded := true;
        return;
      }
      calls := calls + [DeleteMember(groupId, userId.value)];
      if deleteFails {
        notices := notices + [LeaveFailed];
      } else {
        notices := notices + [Left];
        reloaded := true;
      }
    }
  }
}
