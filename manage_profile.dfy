/**
 * The profile page: saving a nickname after trimming and validating it and
 * checking that no other user holds it, and uploading an avatar under a path
 * built from the user id and the file's extension.
 *
 * The profiles table and the storage bucket are not modelled: the page's
 * calls to them are recorded, and their answers are parameters.
 */
module ManageProfile {
  import opened Wrappers

  /** The characters `String.prototype.trim` removes: white space and line terminators. */
  predicate IsJsSpace(c: char) {
    || ('\U{0009}' <= c <= '\U{000D}')    // tab, line feed, vertical tab, form feed, carriage return
    || c == ' ' || c == '\U{00A0}' || c == '\U{1680}'
    || ('\U{2000}' <= c <= '\U{200A}')
    || c == '\U{2028}' || c == '\U{2029}' || c == '\U{202F}' || c == '\U{205F}'
    || c == '\U{3000}' || c == '\U{FEFF}'
  }

  /** The first index at or after `i` that holds no white space, or `|s|`. */
  function SkipSpaceFrom(s: string, i: nat): (k: nat)
    requires i <= |s|
    ensures i <= k <= |s|
    ensures forall j :: i <= j < k ==> IsJsSpace(s[j])
    ensures k < |s| ==> !IsJsSpace(s[k])
    decreases |s| - i
  {
    if i < |s| && IsJsSpace(s[i]) then SkipSpaceFrom(s, i + 1) else i
  }

  /** The last index at or before `j`, and after `lo`, that follows a character other than white space, or `lo`. */
  function SkipSpaceBefore(s: string, lo: nat, j: nat): (k: nat)
    requires lo <= j <= |s|
    ensures lo <= k <= j
    ensures forall m :: k <= m < j ==> IsJsSpace(s[m])
    ensures k > lo ==> !IsJsSpace(s[k - 1])
  {
    if j > lo && IsJsSpace(s[j - 1]) then SkipSpaceBefore(s, lo, j - 1) else j
  }

  /** How much white space `trim` drops at the front. */
  function LeadingSpace(s: string): (lo: nat)
    ensures lo <= |s|
  {
    SkipSpaceFrom(s, 0)
  }

  /** Where the text `trim` keeps ends. */
  function TrimmedEnd(s: string): (hi: nat)
    ensures LeadingSpace(s) <= hi <= |s|
  {
    SkipSpaceBefore(s, LeadingSpace(s), |s|)
  }

  /** `s.trim()`: the text between the leading and the trailing white space. */
  function Trim(s: string): string {
    s[LeadingSpace(s)..TrimmedEnd(s)]
  }

  /**
   * The trimmed text is the piece of `s` after the leading white space and
   * before the trailing white space, and it neither begins nor ends with
   * white space.
   */
  lemma TrimIsTrimmedSlice(s: string)
    ensures var r, lo := Trim(s), LeadingSpace(s);
      && lo + |r| <= |s| && s[lo..lo + |r|] == r
      && (forall i :: 0 <= i < lo ==> IsJsSpace(s[i]))
      && (forall i :: lo + |r| <= i < |s| ==> IsJsSpace(s[i]))
      && (r == [] || (!IsJsSpace(r[0]) && !IsJsSpace(r[|r| - 1])))
  {
    var lo, hi := LeadingSpace(s), TrimmedEnd(s);
    if lo < hi {
      assert Trim(s)[0] == s[lo];
      assert Trim(s)[hi - lo - 1] == s[hi - 1];
    }
  }

  /** Trimming twice is trimming once. */
  lemma TrimIdempotent(s: string)
    ensures Trim(Trim(s)) == Trim(s)
  {
    var r := Trim(s);
    TrimIsTrimmedSlice(s);
    assert LeadingSpace(r) == 0;
    assert TrimmedEnd(r) == |r|;
  }

  /** The class `[a-zA-Z0-9가-힣]`: an ASCII letter or digit, or a Hangul syllable U+AC00..U+D7A3. */
  predicate NicknameChar(c: char) {
    ('a' <= c <= 'z') || ('A' <= c <= 'Z') || ('0' <= c <= '9') || ('가' <= c <= '힣')
  }

  /** Matching `^[a-zA-Z0-9가-힣]{min,max}$` against `s`, one character at a time. */
  function MatchClassRepeat(s: string, min: nat, max: nat): bool {
    if s == [] then min == 0
    else max > 0 && NicknameChar(s[0]) && MatchClassRepeat(s[1..], if min > 0 then min - 1 else 0, max - 1)
  }

  /** The nickname pattern `/^[a-zA-Z0-9가-힣]{2,8}$/`. */
  predicate NicknamePattern(s: string) {
    MatchClassRepeat(s, 2, 8)
  }

  /** A string matches the repetition exactly when its length is within the bounds and every character is in the class. */
  lemma {:induction false} MatchClassRepeatMeaning(s: string, min: nat, max: nat)
    ensures MatchClassRepeat(s, min, max) <==>
              min <= |s| <= max && forall i :: 0 <= i < |s| ==> NicknameChar(s[i])
  {
    if s != [] && max > 0 {
      MatchClassRepeatMeaning(s[1..], if min > 0 then min - 1 else 0, max - 1);
      if max > 0 && NicknameChar(s[0]) && MatchClassRepeat(s[1..], if min > 0 then min - 1 else 0, max - 1) {
        forall i | 0 <= i < |s|
          ensures NicknameChar(s[i])
        {
          if i > 0 {
            assert s[i] == s[1..][i - 1];
          }
        }
      }
    }
  }

  /** A nickname is accepted exactly when it has 2 to 8 characters, all from the class. */
  lemma NicknamePatternMeaning(s: string)
    ensures NicknamePattern(s) <==> 2 <= |s| <= 8 && forall i :: 0 <= i < |s| ==> NicknameChar(s[i])
  {
    MatchClassRepeatMeaning(s, 2, 8);
  }

  /** `s.split(sep)`: the pieces between the separators, empty pieces included. */
  function Split(s: string, sep: char): (parts: seq<string>)
    ensures |parts| >= 1
  {
    SplitUpTo(s, |s|, sep)
  }

  /** The pieces of the first `n` characters of `s`. */
  function SplitUpTo(s: string, n: nat, sep: char): (parts: seq<string>)
    requires n <= |s|
    ensures |parts| >= 1
  {
    if n == 0 then [""]
    else
      var init := SplitUpTo(s, n - 1, sep);
      if s[n - 1] == sep then init + [""]
      else init[..|init| - 1] + [init[|init| - 1] + [s[n - 1]]]
  }

  /** The last piece of the first `n` characters. */
  function LastPiece(s: string, n: nat, sep: char): string
    requires n <= |s|
  {
    var parts := SplitUpTo(s, n, sep);
    parts[|parts| - 1]
  }

  /** No piece holds the separator. */
  lemma {:induction false} SplitPiecesHoldNoSeparator(s: string, n: nat, sep: char)
    requires n <= |s|
    ensures forall i :: 0 <= i < |SplitUpTo(s, n, sep)| ==> sep !in SplitUpTo(s, n, sep)[i]
  {
    if n > 0 {
      SplitPiecesHoldNoSeparator(s, n - 1, sep);
    }
  }

  /** The last piece ends the first `n` characters, right after a separator unless it is all of them. */
  lemma {:induction false} LastPieceIsSuffix(s: string, n: nat, sep: char)
    requires n <= |s|
    ensures var last := LastPiece(s, n, sep);
      && |last| <= n && s[n - |last|..n] == last
      && (|last| < n ==> s[n - |last| - 1] == sep)
  {
    if n > 0 && s[n - 1] != sep {
      LastPieceIsSuffix(s, n - 1, sep);
      var prev := LastPiece(s, n - 1, sep);
      assert s[n - |prev| - 1..n] == s[n - 1 - |prev|..n - 1] + [s[n - 1]];
    }
  }

  /** `file.name.split('.').pop()`: the last piece. */
  function FileExtension(name: string): string {
    var parts := Split(name, '.');
    parts[|parts| - 1]
  }

  /**
   * The extension is what follows the last '.' of the name, or the whole
   * name when it has no '.': it holds no '.', ends the name, and is the whole
   * name exactly when the name has no '.', coming right after a '.' otherwise.
   */
  lemma FileExtensionIsLastPiece(name: string)
    ensures var ext := FileExtension(name);
      && '.' !in ext
      && |ext| <= |name| && name[|name| - |ext|..] == ext
      && ('.' !in name <==> ext == name)
      && (ext != name ==> name[|name| - |ext| - 1] == '.')
  {
    var ext := FileExtension(name);
    LastPieceIsSuffix(name, |name|, '.');
    SplitPiecesHoldNoSeparator(name, |name|, '.');
    assert '.' !in ext;
    if |ext| < |name| {
      assert name[|name| - |ext| - 1] == '.';
    } else {
      assert name[..] == ext;
    }
  }

  /** The storage path of an avatar: `<user id>/avatar.<ext>`. */
  function AvatarPath(userId: string, fileName: string): string {
    userId + "/avatar." + FileExtension(fileName)
  }

  /**
   * The stored avatar keeps the chosen file's extension: the last '.'-piece of
   * the storage path is the last '.'-piece of the file name.
   */
  lemma AvatarPathKeepsExtension(userId: string, fileName: string)
    ensures FileExtension(AvatarPath(userId, fileName)) == FileExtension(fileName)
  {
    var ext := FileExtension(fileName);
    var path := AvatarPath(userId, fileName);
    FileExtensionIsLastPiece(fileName);
    FileExtensionIsLastPiece(path);
    var n := |path|;
    assert path == (userId + "/avatar") + ['.'] + ext;
    assert path[n - |ext|..] == ext;
    assert path[n - |ext| - 1] == '.';
  }

  /** The text before the first `c` in `s`, or all of `s` when it holds no `c`. */
  function Before(s: string, c: char): (r: string)
    ensures |r| <= |s| && r == s[..|r|] && c !in r
  {
    if s == [] || s[0] == c then [] else [s[0]] + Before(s[1..], c)
  }

  /** The text before the first `c` of `u + [c] + rest` is `u` when `u` holds no `c`. */
  lemma {:induction false} BeforeFirst(u: string, c: char, rest: string)
    requires c !in u
    ensures Before(u + [c] + rest, c) == u
  {
    if u != [] {
      assert (u + [c] + rest)[1..] == u[1..] + [c] + rest;
      BeforeFirst(u[1..], c, rest);
    }
  }

  /** The folder of an avatar path, up to its first '/', is the user id when the id holds no '/'. */
  lemma AvatarFolderIsUser(userId: string, fileName: string)
    requires '/' !in userId
    ensures Before(AvatarPath(userId, fileName), '/') == userId
  {
    BeforeFirst(userId, '/', "avatar." + FileExtension(fileName));
    assert AvatarPath(userId, fileName) == userId + ['/'] + ("avatar." + FileExtension(fileName));
  }

  /** The calls the page makes to the backend. */
  datatype Call =
    | CheckNickname(nickname: string, exceptId: string)   // select id where nickname = .. and id <> ..
    | UpdateNickname(id: string, nickname: string)
    | UploadAvatar(path: string)
    | UpdateAvatarUrl(id: string, url: string)

  /** The alerts the page shows. */
  datatype Notice = InvalidNickname | CheckFailed | NicknameTaken | SaveFailed | Saved | UploadFailed | Uploaded

  /** Profile ids, other than `self`, whose nickname is `nickname`. */
  function Holders(profiles: map<string, string>, nickname: string, self: string): set<string> {
    set id | id in profiles && profiles[id] == nickname && id != self
  }

  /** What the duplicate check with `maybeSingle()` concludes. */
  datatype CheckOutcome = CheckError | Taken | Free

  /**
   * `maybeSingle()` over the matching rows: no row is `null` (free), one row
   * is that row (taken), more rows are an error, as is a failing query.
   */
  function DuplicateCheck(profiles: map<string, string>, nickname: string, self: string,
                          queryFails: bool): (outcome: CheckOutcome)
    ensures outcome == Free <==> !queryFails && Holders(profiles, nickname, self) == {}
    ensures outcome == Taken ==> exists id :: id in Holders(profiles, nickname, self)
  {
    var holders := Holders(profiles, nickname, self);
    if queryFails then CheckError
    else if holders == {} then Free
    else if |holders| == 1 then Taken
    else CheckError
  }

  /** A nickname held by someone else is never found free, so never saved. */
  lemma HeldNicknameNotFree(profiles: map<string, string>, nickname: string, self: string,
                            queryFails: bool, other: string)
    requires other in profiles && profiles[other] == nickname && other != self
    ensures DuplicateCheck(profiles, nickname, self, queryFails) != Free
  {
    assert other in Holders(profiles, nickname, self);
  }

  /** The user's own profile never blocks their nickname. */
  lemma OwnNicknameFree(profiles: map<string, string>, nickname: string, self: string)
    requires forall id :: id in profiles && id != self ==> profiles[id] != nickname
    ensures DuplicateCheck(profiles, nickname, self, false) == Free
  {
  }

  /** The profile page's state. */
  class ProfilePage {
    var user: Option<string>     // the signed-in user's id
    var file: Option<string>     // the name of the chosen file
    var nickname: string         // the nickname field as typed
    var saving: bool
    var calls: seq<Call>
    var notices: seq<Notice>

    constructor (user: Option<string>, nickname: string)
      ensures this.user == user && this.nickname == nickname
      ensures file == None && !saving && calls == [] && notices == []
    {
      this.user := user;
      this.file := None;
      this.nickname := nickname;
      this.saving := false;
      this.calls := [];
      this.notices := [];
    }

    /** The file input's change handler: the chosen file replaces any earlier one. */
    method ChooseFile(name: Option<string>)
      modifies this
      ensures file == name
      ensures user == old(user) && nickname == old(nickname) && saving == old(saving)
      ensures calls == old(calls) && notices == old(notices)
    {
      file := name;
    }

    /** The nickname input's change handler. */
    method TypeNickname(text: string)
      modifies this
      ensures nickname == text
      ensures user == old(user) && file == old(file) && saving == old(saving)
      ensures calls == old(calls) && notices == old(notices)
    {
      nickname := text;
    }

    /**
     * `handleSaveNickname`. `profiles` is the nickname of every profile,
     * `checkFails` and `updateFails` say whether those queries fail.
     */
    method SaveNickname(profiles: map<string, string>, checkFails: bool, updateFails: bool)
      modifies this
      ensures user == old(user) && file == old(file) && nickname == old(nickname)
      ensures old(user).None? ==> calls == old(calls) && notices == old(notices) && saving == old(saving)
      ensures old(user).Some? && !NicknamePattern(Trim(old(nickname))) ==>
                calls == old(calls) && notices == old(notices) + [InvalidNickname] && saving == old(saving)
      ensures old(user).Some? && NicknamePattern(Trim(old(nickname))) ==>
                var trimmed := Trim(old(nickname));
                var check := CheckNickname(trimmed, old(user).value);
                && !saving
                && match DuplicateCheck(profiles, trimmed, old(user).value, checkFails)
                   case CheckError =>
                     calls == old(calls) + [check] && notices == old(notices) + [CheckFailed]
                   case Taken =>
                     calls == old(calls) + [check] && notices == old(notices) + [NicknameTaken]
                   case Free =>
                     && calls == old(calls) + [check, UpdateNickname(old(user).value, trimmed)]
                     && notices == old(notices) + [if updateFails then SaveFailed else Saved]
    {
      if user.None? {
        return;
      }
      var userId := user.value;
      var trimmed := Trim(nickname);
      if !NicknamePattern(trimmed) {
        notices := notices + [InvalidNickname];
        return;
      }
      saving := true;
      calls := calls + [CheckNickname(trimmed, userId)];
      var outcome := DuplicateCheck(profiles, trimmed, userId, checkFails);
      if outcome == CheckError {
        notices := notices + [CheckFailed];
        saving := false;
        return;
      }
      if outcome == Taken {
        notices := notices + [NicknameTaken];
        saving := false;
        return;
      }
      calls := calls + [UpdateNickname(userId, trimmed)];
      if updateFails {
        notices := notices + [SaveFailed];
      } else {
        notices := notices + [Saved];
      }
      saving := false;
    }

    /**
     * `handleUpload`: the file goes to the avatar path with upsert; on success
     * the profile's avatar url is set to `publicUrl`, the bucket's public url
     * of that path, whose own outcome the page does not check.
     */
    method Upload(uploadFails: bool, publicUrl: string)
      modifies this
      ensures user == old(user) && file == old(file) && nickname == old(nickname) && saving == old(saving)
      ensures old(file).None? || old(user).None? ==> calls == old(calls) && notices == old(notices)
      ensures old(file).Some? && old(user).Some? ==>
                var path := AvatarPath(old(user).value, old(file).value);
                if uploadFails then
                  calls == old(calls) + [UploadAvatar(path)] && notices == old(notices) + [UploadFailed]
                else
                  && calls == old(calls) + [UploadAvatar(path), UpdateAvatarUrl(old(user).value, publicUrl)]
                  && notices == old(notices) + [Uploaded]
    {
      if file.None? || user.None? {
        return;
      }
      var userId := user.value;
      var path := AvatarPath(userId, file.value);
      calls := calls + [UploadAvatar(path)];
      if uploadFails {
        notices := notices + [UploadFailed];
        return;
      }
      calls := calls + [UpdateAvatarUrl(userId, publicUrl)];
      notices := notices + [Uploaded];
    }
  }
}
