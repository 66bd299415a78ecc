/**
 * The group-creation form: choosing rest days, and the checks a submission
 * passes before the group and the creator's membership are inserted.
 *
 * The groups and group_members tables are not modelled: the form's calls to
 * them are recorded, and their answers are parameters.
 */
module CreateGroup {
  import opened Wrappers
  import opened Seqs

  /** The most groups one user may own. */
  const MaxOwnedGroups: nat := 5

  /** The test `d !== day` of `toggleRestDay`'s filter. */
  function Differs(day: string): string -> bool {
    (d: string) => d != day
  }

  /** `days.filter(d => d !== day)`: every occurrence of `day` dropped, the rest in order. */
  function Without(days: seq<string>, day: string): seq<string> {
    Filter(days, Differs(day))
  }

  /** `toggleRestDay`: a chosen day is removed, any other day is appended. */
  function Toggled(days: seq<string>, day: string): seq<string> {
    if day in days then Without(days, day) else days + [day]
  }

  /** Toggling a day that is not chosen appends it and keeps every other day in place. */
  lemma ToggleAbsentAppends(days: seq<string>, day: string)
    requires day !in days
    ensures Toggled(days, day)[..|days|] == days
    ensures |Toggled(days, day)| == |days| + 1 && Toggled(days, day)[|days|] == day
  {
  }

  /**
   * Toggling a chosen day removes every occurrence of it, keeps every other
   * day, and keeps their order: filtering any split of the list filters each part.
   */
  lemma TogglePresentRemoves(days: seq<string>, day: string)
    requires day in days
    ensures day !in Toggled(days, day)
    ensures forall x :: x != day ==> (x in Toggled(days, day) <==> x in days)
    ensures forall i :: 0 <= i <= |days| ==>
              Toggled(days, day) == Without(days[..i], day) + Without(days[i..], day)
  {
    FilterMembers(days, Differs(day));
    forall i | 0 <= i <= |days|
      ensures Toggled(days, day) == Without(days[..i], day) + Without(days[i..], day)
    {
      assert days == days[..i] + days[i..];
      FilterAppend(days[..i], days[i..], Differs(day));
    }
  }

  /** Toggling a day that is not chosen twice gives the list back. */
  lemma ToggleTwiceRestores(days: seq<string>, day: string)
    requires day !in days
    ensures Toggled(Toggled(days, day), day) == days
  {
    FilterAppend(days, [day], Differs(day));
    FilterAll(days, Differs(day));
    FilterNone([day], Differs(day));
  }

  /** Toggling a chosen day twice moves it, once, to the end. */
  lemma ToggleTwiceMovesToEnd(days: seq<string>, day: string)
    requires day in days
    ensures Toggled(Toggled(days, day), day) == Without(days, day) + [day]
  {
    FilterMembers(days, Differs(day));
  }

  /** `password || null`: an empty password is stored as no password. */
  function StoredPassword(password: string): (stored: Option<string>)
    ensures stored.None? <==> password == ""
    ensures stored.Some? ==> stored.value == password
  {
    if password == "" then None else Some(password)
  }

  /** The calls the form makes to the backend. */
  datatype Call =
    | QueryOwnedGroups(owner: string)
    | InsertGroup(name: string, owner: string, password: Option<string>, restDays: seq<string>)
    | InsertMember(groupId: string, userId: string)

  /** The alerts the form shows. */
  datatype Notice =
    | NameRequired | NameTaken | LoginRequired | OwnedQueryFailed | GroupLimitReached
    | CreateFailed | JoinFailed | Created

  /** The form's state. */
  class GroupForm {
    var groupName: string
    var password: string
    var restDays: seq<string>
    var groupNameExists: bool
    var loading: bool
    var userId: Option<string>
    var leftPage: bool            // `navigate('/')` after a successful creation
    var calls: seq<Call>
    var notices: seq<Notice>

    /** The form as it opens, once the signed-in user (if any) is known. */
    constructor (userId: Option<string>)
      ensures this.userId == userId
      ensures groupName == "" && password == "" && restDays == [] && !groupNameExists
      ensures !loading && !leftPage && calls == [] && notices == []
    {
      this.userId := userId;
      groupName := "";
      password := "";
      restDays := [];
      groupNameExists := false;
      loading := false;
      leftPage := false;
      calls := [];
      notices := [];
    }

    /**
     * Typing a group name, and the effect that follows it: an empty name is
     * not taken; otherwise it is taken when it is in `existingNames`, the
     * lookup's answer (empty when the lookup fails, whose `data` is null).
     */
    method TypeGroupName(name: string, existingNames: set<string>)
      modifies this
      ensures groupName == name
      ensures groupNameExists <==> name != "" && name in existingNames
      ensures password == old(password) && restDays == old(restDays) && loading == old(loading)
      ensures userId == old(userId) && leftPage == old(leftPage)
      ensures calls == old(calls) && notices == old(notices)
    {
      groupName := name;
      if name == "" {
        groupNameExists := false;
        return;
      }
      groupNameExists := name in existingNames;
    }

    /** Clicking a weekday: `toggleRestDay`. */
    method ToggleRestDay(day: string)
      modifies this
      ensures restDays == Toggled(old(restDays), day)
      ensures groupName == old(groupName) && password == old(password)
      ensures groupNameExists == old(groupNameExists) && loading == old(loading)
      ensures userId == old(userId) && leftPage == old(leftPage)
      ensures calls == old(calls) && notices == old(notices)
    {
      if day in restDays {
        restDays := Without(restDays, day);
      } else {
        restDays := restDays + [day];
      }
    }

    /** The form passes the checks made before any call: a name, not taken, and a signed-in user. */
    predicate ReadyToSubmit()
      reads this
    {
      groupName != "" && !groupNameExists && userId.Some?
    }

    /**
     * `handleSubmit`. `ownedGroups` is the answer to the query for the
     * groups the user owns (`None` when it fails), `newGroupId` the id of the
     * inserted group (`None` when the insert fails), `joinFails` whether
     * inserting the membership fails.
     */
    method Submit(ownedGroups: Option<seq<string>>, newGroupId: Option<string>, joinFails: bool)
      modifies this
      ensures userId == old(userId) && groupNameExists == old(groupNameExists)
      ensures if old(ReadyToSubmit()) then !loading else loading == old(loading)
      ensures !old(ReadyToSubmit()) ==>
                && calls == old(calls)
                && notices == old(notices) + [if old(groupName) == "" then NameRequired
                                              else if old(groupNameExists) then NameTaken
                                              else LoginRequired]
      ensures old(ReadyToSubmit()) ==>
                |calls| > |old(calls)| &&
                calls[..|old(calls)| + 1] == old(calls) + [QueryOwnedGroups(old(userId).value)]
      ensures old(ReadyToSubmit()) && ownedGroups.None? ==>
                calls == old(calls) + [QueryOwnedGroups(old(userId).value)] &&
                notices == old(notices) + [OwnedQueryFailed]
      ensures old(ReadyToSubmit()) && ownedGroups.Some? && |ownedGroups.value| >= MaxOwnedGroups ==>
                calls == old(calls) + [QueryOwnedGroups(old(userId).value)] &&
                notices == old(notices) + [GroupLimitReached]
      ensures old(ReadyToSubmit()) && ownedGroups.Some? && |ownedGroups.value| < MaxOwnedGroups ==>
                var insert := InsertGroup(old(groupName), old(userId).value,
                                          StoredPassword(old(password)), old(restDays));
                && (newGroupId.None? ==>
                      calls == old(calls) + [QueryOwnedGroups(old(userId).value), insert] &&
                      notices == old(notices) + [CreateFailed])
                && (newGroupId.Some? ==>
                      calls == old(calls) + [QueryOwnedGroups(old(userId).value), insert,
                                             InsertMember(newGroupId.value, old(userId).value)] &&
                      notices == old(notices) + [if joinFails then JoinFailed else Created])
      ensures var created := old(ReadyToSubmit()) && ownedGroups.Some? &&
                             |ownedGroups.value| < MaxOwnedGroups && newGroupId.Some? && !joinFails;
                && (leftPage <==> (old(leftPage) || created))
                && (created ==> groupName == "" && password == "" && restDays == [])
                && (!created ==>
                      groupName == old(groupName) && password == old(password) && restDays == old(restDays))
    {
      if groupName == "" {
        notices := notices + [NameRequired];
        return;
      }
      if groupNameExists {
        notices := notices + [NameTaken];
        return;
      }
      if userId.None? {
        notices := notices + [LoginRequired];
        return;
      }
      var owner := userId.value;
      loading := true;
      calls := calls + [QueryOwnedGroups(owner)];
      if ownedGroups.None? {
        notices := notices + [OwnedQueryFailed];
        loading := false;
        return;
      }
      if |ownedGroups.value| >= MaxOwnedGroups {
        notices := notices + [GroupLimitReached];
        loading := false;
        return;
      }
      calls := calls + [InsertGroup(groupName, owner, StoredPassword(password), restDays)];
      if newGroupId.None? {
        notices := notices + [CreateFailed];
        loading := false;
        return;
      }
      calls := calls + [InsertMember(newGroupId.value, owner)];
      loading := false;
      if joinFails {
        notices := notices + [JoinFailed];
        return;
      }
      notices := notices + [Created];
      groupName := "";
      password := "";
      restDays := [];
      leftPage := true;
    }
  }
}
