/** The bot's decisions that feed the ledger: how `/start` extracts the
    referral parameter and which crediting calls it makes, the admin gate
    of `/stats`, and the top-referrers ranking. */
module Bot {
  import opened Common
  import opened Sorting
  import opened LedgerSpec
  import LedgerProps
  import Ledger

  // ---------------------------------------------------------------------
  // `str.split()` and the /start parameter

  /** The longest prefix of `s` without whitespace. */
  function LeadingWord(s: string): (w: string)
    ensures |w| <= |s| && w == s[..|w|] && NoSpace(w)
    ensures |w| < |s| ==> IsSpace(s[|w|])
  {
    if s == [] || IsSpace(s[0]) then [] else [s[0]] + LeadingWord(s[1..])
  }

  /** Python's `s.split()`: the maximal runs of non-whitespace characters. */
  function Words(s: string): (ws: seq<string>)
    ensures forall i :: 0 <= i < |ws| ==> ws[i] != [] && NoSpace(ws[i])
    decreases |s|
  {
    var t := StripLeft(s);
    if t == [] then []
    else
      var w := LeadingWord(t);
      [w] + Words(t[|w|..])
  }

  /** The `referred_by` of `cmd_start`: the second word with its first three
      characters removed, when that word starts with "ref". */
  function ReferredBy(text: string): (r: Option<string>)
    ensures r.Some? ==> exists ws :: ws == Words(text) && |ws| > 1 && ws[1] == "ref" + r.value
    ensures |Words(text)| > 1 && StartsWith(Words(text)[1], "ref") ==> r == Some(Words(text)[1][3..])
    ensures r.None? ==> |Words(text)| <= 1 || !StartsWith(Words(text)[1], "ref")
  {
    var ws := Words(text);
    if |ws| > 1 && StartsWith(ws[1], "ref") then
      assert ws[1] == "ref" + ws[1][3..];
      Some(ws[1][3..])
    else None
  }

  lemma {:induction false} LeadingWordOf(w: string, rest: string)
    requires NoSpace(w)
    requires rest == [] || IsSpace(rest[0])
    ensures LeadingWord(w + rest) == w
  {
    if w != [] {
      assert (w + rest)[1..] == w[1..] + rest;
      LeadingWordOf(w[1..], rest);
    }
  }

  lemma WordsCons(w: string, rest: string)
    requires w != [] && NoSpace(w)
    requires rest == [] || IsSpace(rest[0])
    ensures Words(w + rest) == [w] + Words(rest)
  {
    assert StripLeft(w + rest) == w + rest;
    LeadingWordOf(w, rest);
    assert (w + rest)[|w|..] == rest;
  }

  lemma WordsAfterSpace(c: char, rest: string)
    requires IsSpace(c)
    ensures Words([c] + rest) == Words(rest)
  {
    assert ([c] + rest)[1..] == rest;
  }

  /** A command followed by one space and a "ref" word yields the rest of
      that word; whatever follows the next whitespace is ignored. */
  lemma ReferredByOfStart(command: string, code: string, tail: string)
    requires command != [] && NoSpace(command) && NoSpace(code)
    requires tail == [] || IsSpace(tail[0])
    ensures ReferredBy(command + " ref" + code + tail) == Some(code)
  {
    var word := "ref" + code;
    assert NoSpace(word) by {
      forall i | 0 <= i < |word| ensures !IsSpace(word[i]) {
        if i >= 3 { assert word[i] == code[i - 3]; }
      }
    }
    var text := command + " ref" + code + tail;
    assert text == command + ([' '] + (word + tail));
    WordsCons(command, [' '] + (word + tail));
    WordsAfterSpace(' ', word + tail);
    WordsCons(word, tail);
    var ws := Words(text);
    assert ws == [command] + ([word] + Words(tail));
    assert ws[1] == word;
    assert word[..3] == "ref" && word[3..] == code;
  }

  /** A bare "ref" gives an empty `referred_by`, which is not truthy: no
      crediting happens, neither here nor in `add_user`. */
  lemma BareRefIsNoReferral()
    ensures ReferredBy("/start ref") == Some("")
    ensures !Truthy(ReferredBy("/start ref"))
  {
    ReferredByOfStart("/start", "", "");
    assert "/start" + " ref" + "" + "" == "/start ref";
  }

  /** A message without a second word carries no referral. */
  lemma NoSecondWordNoReferral(command: string)
    requires command != [] && NoSpace(command)
    ensures ReferredBy(command) == None
  {
    WordsCons(command, []);
    assert command + [] == command;
  }

  // ---------------------------------------------------------------------
  // Deep links

  /** The part of a referral link before its start parameter. */
  const StartUrl := "https://t.me/FSRUBOT?start="

  /** What Telegram delivers when a `?start=` link is opened: "/start", a
      space, and the link's start parameter. */
  function StartTextOf(link: string): string
    requires StartsWith(link, StartUrl)
  {
    "/start " + link[|StartUrl|..]
  }

  lemma ValidCodeHasNoSpace(c: string)
    requires ValidCode(c)
    ensures NoSpace(c)
  {
    forall i | 0 <= i < |c| ensures !IsSpace(c[i]) {
      if i < |CodePrefix| {
        assert c[i] == c[..|CodePrefix|][i];
      } else {
        assert c[i] == c[|CodePrefix|..][i - |CodePrefix|];
      }
    }
  }

  /** Opening a user's referral link leads `cmd_start` to exactly that
      user's code, and the code lookup leads back to the user. */
  lemma ReferralLinkRoundTrip(users: map<int, UserRow>, userId: int)
    requires CodesUnique(users) && userId in users
    ensures ReferralLinkOf(users, userId).Some?
    ensures var link := ReferralLinkOf(users, userId).value;
      && StartsWith(link, StartUrl)
      && ReferredBy(StartTextOf(link)) == Some(users[userId].referralCode)
      && UserByCode(users, ReferredBy(StartTextOf(link)).value).Some?
      && UserByCode(users, ReferredBy(StartTextOf(link)).value).value.userId == userId
  {
    var code := users[userId].referralCode;
    LinkText(code);
    ValidCodeHasNoSpace(code);
    StartRefText(code);
    LedgerProps.UserByOwnCode(users, userId);
  }

  /** A referral link is a start link whose start text carries "ref" and the code. */
  lemma LinkText(code: string)
    ensures StartsWith(LinkPrefix + code, StartUrl)
    ensures StartTextOf(LinkPrefix + code) == "/start ref" + code
  {
    var link := LinkPrefix + code;
    assert link[..|StartUrl|] == StartUrl;
    assert link[|StartUrl|..] == "ref" + code;
  }

  // ---------------------------------------------------------------------
  // /start: registration, then the numeric credit

  lemma StripOfEdges(s: string)
    requires s != [] && !IsSpace(s[0]) && !IsSpace(s[|s| - 1])
    ensures Strip(s) == s
  {
    assert StripLeft(s) == s;
  }

  /** A referral code is never a Python integer literal, so a code and a
      numeric id never trigger both crediting paths. */
  lemma ValidCodeIsNotAnInteger(c: string)
    requires ValidCode(c)
    ensures ParseInt(c) == None
  {
    ValidCodeHasNoSpace(c);
    StripOfEdges(c);
    assert c[0] == c[..|CodePrefix|][0] == 'F';
  }

  /** The decimal rendering of an id is never a referral code. */
  lemma IntegerIsNotACode(n: int)
    ensures !ValidCode(IntToString(n))
  {
    var s := IntToString(n);
    if |s| == |CodePrefix| + CodeSuffixLength {
      assert s[..|CodePrefix|][0] == s[0] != 'F';
    }
  }

  /** `cmd_start` as a transition: `add_user` always runs with the extracted
      `referred_by`; then, for a truthy one that `int()` accepts,
      `add_ticket_for_referral_start(int(referred_by), user_id)`. A parse
      failure is swallowed. */
  function StartSpec(t: Tables, userId: int, username: Option<string>, firstName: Option<string>,
                     lastName: Option<string>, text: string, draws: seq<string>): Tables
  {
    var referredBy := ReferredBy(text);
    var registered := AddUserSpec(t, userId, username, firstName, lastName, referredBy, draws).0;
    if Truthy(referredBy) then
      match ParseInt(referredBy.value)
      case Some(inviterId) => AddTicketSpec(registered, inviterId, userId).0
      case None => registered
    else registered
  }

  /** The ledger calls of `cmd_start`. */
  method CmdStart(db: Ledger.Database, userId: int, username: Option<string>, firstName: Option<string>,
                  lastName: Option<string>, text: string, draws: seq<string>)
    modifies db
    ensures db.State() == StartSpec(old(db.State()), userId, username, firstName, lastName, text, draws)
    ensures old(db.Valid()) && (forall i :: 0 <= i < |draws| ==> ValidSuffix(draws[i])) ==> db.Valid()
  {
    var referredBy := ReferredBy(text);
    var _ := db.AddUser(userId, username, firstName, lastName, referredBy, draws);
    if Truthy(referredBy) {
      var inviterId := ParseInt(referredBy.value);
      if inviterId.Some? {
        var _ := db.AddTicketForReferralStart(inviterId.value, userId);
      }
    }
  }

  /** A start link carrying a referral code credits through registration
      only: the numeric path does not fire. */
  lemma StartWithCodeCreditsOnce(t: Tables, userId: int, username: Option<string>, firstName: Option<string>,
                                 lastName: Option<string>, code: string, draws: seq<string>)
    requires ValidCode(code)
    ensures StartSpec(t, userId, username, firstName, lastName, "/start ref" + code, draws)
            == AddUserSpec(t, userId, username, firstName, lastName, Some(code), draws).0
  {
    ValidCodeHasNoSpace(code);
    StartRefText(code);
    ValidCodeIsNotAnInteger(code);
    StartWithoutInteger(t, userId, username, firstName, lastName, "/start ref" + code, draws);
  }

  lemma IntToStringHasNoSpace(n: int)
    ensures NoSpace(IntToString(n))
  {
    var s := IntToString(n);
    forall i | 0 <= i < |s| ensures !IsSpace(s[i]) {
      assert IsDigit(s[i]) || s[i] == '-';
    }
  }

  /** The text Telegram sends for a start link "ref<param>". */
  lemma StartRefText(param: string)
    requires NoSpace(param)
    ensures ReferredBy("/start ref" + param) == Some(param)
  {
    ReferredByOfStart("/start", param, "");
    assert "/start" + " ref" + param + "" == "/start ref" + param;
  }

  /** When the parameter is not an integer, `/start` is registration alone. */
  lemma StartWithoutInteger(t: Tables, userId: int, username: Option<string>, firstName: Option<string>,
                            lastName: Option<string>, text: string, draws: seq<string>)
    requires ReferredBy(text).Some? ==> ParseInt(ReferredBy(text).value).None?
    ensures StartSpec(t, userId, username, firstName, lastName, text, draws)
            == AddUserSpec(t, userId, username, firstName, lastName, ReferredBy(text), draws).0
  {
  }

  /** A start parameter "ref<id>" matches no referral code, so registration
      credits nobody and the numeric path alone records the invite. */
  lemma StartWithIdCreditsOnce(t: Tables, userId: int, username: Option<string>, firstName: Option<string>,
                               lastName: Option<string>, inviterId: int, draws: seq<string>)
    requires CodesUnique(t.users)
    ensures var registered := AddUserSpec(t, userId, username, firstName, lastName, Some(IntToString(inviterId)), draws).0;
      && registered.invites == t.invites
      && StartSpec(t, userId, username, firstName, lastName, "/start ref" + IntToString(inviterId), draws)
         == AddTicketSpec(registered, inviterId, userId).0
  {
    var s := IntToString(inviterId);
    IntToStringHasNoSpace(inviterId);
    StartRefText(s);
    ParseIntToString(inviterId);
    assert s[0] != 'F';
    AddUserWithForeignReferral(t, userId, username, firstName, lastName, s, draws);
  }

  /** A `referred_by` that cannot begin a referral code credits nobody at registration. */
  lemma AddUserWithForeignReferral(t: Tables, userId: int, username: Option<string>, firstName: Option<string>,
                                   lastName: Option<string>, referredBy: string, draws: seq<string>)
    requires CodesUnique(t.users)
    requires referredBy == [] || referredBy[0] != 'F'
    ensures AddUserSpec(t, userId, username, firstName, lastName, Some(referredBy), draws).0.invites == t.invites
  {
    var r := FirstFreeCode(t.users, draws);
    if r.Some? && InSqliteRange(userId) && referredBy != [] {
      FirstFreeCodeShape(t.users, draws);
      var inserted :=
        if userId in t.users then t
        else t.(users := t.users[userId := NewUserRow(username, firstName, lastName, r.value, Some(referredBy))]);
      forall u | u in inserted.users ensures inserted.users[u].referralCode != referredBy {
        var code := inserted.users[u].referralCode;
        if userId in t.users || u != userId {
          assert ValidCode(t.users[u].referralCode);
          assert code[..|CodePrefix|][0] == code[0];
        } else {
          assert code == r.value;
          assert code[..|CodePrefix|][0] == code[0];
        }
      }
      LedgerProps.ProcessReferralUnknownCode(inserted, referredBy, userId);
    }
  }

  lemma {:induction false} FirstFreeCodeShape(users: map<int, UserRow>, draws: seq<string>)
    requires FirstFreeCode(users, draws).Some?
    ensures StartsWith(FirstFreeCode(users, draws).value, CodePrefix)
  {
    if CodeInUse(users, CodePrefix + draws[0]) {
      FirstFreeCodeShape(users, draws[1..]);
    } else {
      assert (CodePrefix + draws[0])[..|CodePrefix|] == CodePrefix;
    }
  }

  // ---------------------------------------------------------------------
  // /stats

  /** `admin_ids = [int(os.getenv('ADMIN_CHAT_ID', '0'))]`; `None` when the
      variable does not parse, where the bot fails to start. */
  function AdminIds(adminChatId: Option<string>): (r: Option<seq<int>>)
    ensures r.Some? ==> |r.value| == 1
  {
    var raw := if adminChatId.Some? then adminChatId.value else "0";
    match ParseInt(raw)
    case Some(n) => Some([n])
    case None => None
  }

  datatype StatsReply = Refused | Report

  /** The gate of `cmd_stats`: a sender outside `admin_ids` gets only the refusal. */
  function StatsGate(userId: int, adminIds: seq<int>): StatsReply {
    if userId !in adminIds then Refused else Report
  }

  /** With ADMIN_CHAT_ID unset the only admin id is 0, which no Telegram
      user has: every sender is refused. A configured id is admitted, and
      only that id. */
  lemma AdminGate(userId: int, admin: int)
    ensures AdminIds(None) == Some([0])
    ensures userId != 0 ==> StatsGate(userId, AdminIds(None).value) == Refused
    ensures AdminIds(Some(IntToString(admin))) == Some([admin])
    ensures StatsGate(userId, AdminIds(Some(IntToString(admin))).value) == Report <==> userId == admin
  {
    ParseIntToString(admin);
    ParseIntToString(0);
    assert IntToString(0) == "0";
  }

  // ---------------------------------------------------------------------
  // The top-referrers ranking

  function RankKey(row: UserRow): Key {
    Key(row.referralCount, row.totalReferralXp)
  }

  /** The rows of the ids in `ids` whose `referral_count` is positive, in order. */
  function QualifyingIn(ids: seq<int>, users: map<int, UserRow>): seq<UserRow>
    requires forall i :: 0 <= i < |ids| ==> ids[i] in users
  {
    if ids == [] then []
    else
      var rest := QualifyingIn(ids[1..], users);
      if users[ids[0]].referralCount > 0 then [users[ids[0]]] + rest else rest
  }

  lemma {:induction false} QualifyingInMembers(ids: seq<int>, users: map<int, UserRow>)
    requires forall i :: 0 <= i < |ids| ==> ids[i] in users
    ensures forall r :: r in QualifyingIn(ids, users) <==>
      exists i :: 0 <= i < |ids| && users[ids[i]] == r && r.referralCount > 0
  {
    if ids != [] {
      var rest := QualifyingIn(ids[1..], users);
      QualifyingInMembers(ids[1..], users);
      forall r ensures r in rest <==> exists i :: 1 <= i < |ids| && users[ids[i]] == r && r.referralCount > 0 {
        if r in rest {
          var k :| 0 <= k < |ids[1..]| && users[ids[1..][k]] == r && r.referralCount > 0;
          assert users[ids[k + 1]] == r;
        }
        if exists i :: 1 <= i < |ids| && users[ids[i]] == r && r.referralCount > 0 {
          var i :| 1 <= i < |ids| && users[ids[i]] == r && r.referralCount > 0;
          assert ids[1..][i - 1] == ids[i];
        }
      }
    }
  }

  /** `WHERE referral_count > 0`, scanning `users` in id order. */
  function Qualifying(users: map<int, UserRow>): seq<UserRow> {
    QualifyingIn(AscendingIds(users.Keys), users)
  }

  /** The query returns exactly the rows with a positive count. */
  lemma QualifyingMembers(users: map<int, UserRow>)
    ensures forall r :: r in Qualifying(users) <==> exists u :: u in users && users[u] == r && r.referralCount > 0
  {
    var ids := AscendingIds(users.Keys);
    QualifyingInMembers(ids, users);
    forall r | r in Qualifying(users) ensures exists u :: u in users && users[u] == r && r.referralCount > 0 {
      var i :| 0 <= i < |ids| && users[ids[i]] == r && r.referralCount > 0;
      var u: int := ids[i];
      assert u in ids && u in users && users[u] == r;
    }
    forall r | exists u :: u in users && users[u] == r && r.referralCount > 0
      ensures exists i :: 0 <= i < |ids| && users[ids[i]] == r && r.referralCount > 0
    {
      var u :| u in users && users[u] == r && r.referralCount > 0;
      assert u in ids;
      var i :| 0 <= i < |ids| && ids[i] == u;
    }
  }

  /** `ORDER BY referral_count DESC, total_referral_xp DESC LIMIT 5`. */
  function TopRows(users: map<int, UserRow>): seq<UserRow> {
    Limit(SortDesc(Qualifying(users), RankKey), 5)
  }


  /** The ranking holds at most five users, all with referrals, largest
      first; it is empty only when nobody has a referral; and every
      qualifying row left out ranks no higher than the last one shown. */
  lemma TopRowsSpec(users: map<int, UserRow>)
    ensures var top := TopRows(users);
      && |top| <= 5
      && |top| == (if |Qualifying(users)| <= 5 then |Qualifying(users)| else 5)
      && (forall i :: 0 <= i < |top| ==>
            top[i].referralCount > 0 && exists u :: u in users && users[u] == top[i])
      && SortedDesc(top, RankKey)
      && multiset(top) <= multiset(Qualifying(users))
      && (forall r :: r in multiset(Qualifying(users)) - multiset(top) ==> KeyGe(RankKey(top[|top| - 1]), RankKey(r)))
      && (top == [] <==> forall u :: u in users ==> users[u].referralCount <= 0)
  {
    TopRowsOrdered(users);
    TopRowsFromUsers(users);
    TopRowsEmpty(users);
  }

  lemma TopRowsOrdered(users: map<int, UserRow>)
    ensures var top := TopRows(users);
      && |top| == (if |Qualifying(users)| <= 5 then |Qualifying(users)| else 5)
      && SortedDesc(top, RankKey)
      && multiset(top) <= multiset(Qualifying(users))
      && (forall r :: r in multiset(Qualifying(users)) - multiset(top) ==> KeyGe(RankKey(top[|top| - 1]), RankKey(r)))
  {
    var q := Qualifying(users);
    var sorted := SortDesc(q, RankKey);
    SortDescSorted(q, RankKey);
    TakeOfSorted(sorted, q, 5, RankKey);
  }

  lemma TopRowsEmpty(users: map<int, UserRow>)
    ensures TopRows(users) == [] <==> forall u :: u in users ==> users[u].referralCount <= 0
  {
    var q := Qualifying(users);
    assert |SortDesc(q, RankKey)| == |q|;
    QualifyingEmpty(users);
  }

  lemma TopRowsFromUsers(users: map<int, UserRow>)
    ensures var top := TopRows(users);
      forall i :: 0 <= i < |top| ==> top[i].referralCount > 0 && exists u :: u in users && users[u] == top[i]
  {
    var q := Qualifying(users);
    var sorted := SortDesc(q, RankKey);
    var top := TopRows(users);
    QualifyingMembers(users);
    forall i | 0 <= i < |top| ensures top[i].referralCount > 0 && exists u :: u in users && users[u] == top[i] {
      assert top[i] == sorted[i];
      assert sorted[i] in multiset(sorted);
      assert top[i] in q;
    }
  }

  lemma QualifyingEmpty(users: map<int, UserRow>)
    ensures Qualifying(users) == [] <==> forall u :: u in users ==> users[u].referralCount <= 0
  {
    var q := Qualifying(users);
    QualifyingMembers(users);
    if q != [] {
      assert q[0] in q;
    }
    if exists u :: u in users && users[u].referralCount > 0 {
      var u :| u in users && users[u].referralCount > 0;
      assert users[u] in q;
    }
  }

  /** One line of the ranking: the label, `referral_count` and `total_referral_xp`. */
  datatype RankLine = RankLine(name: string, friends: int, xp: int)

  /** The reply of `get_top_referrers`: the placeholder text, or the lines. */
  datatype Ranking = NoReferrals | Lines(lines: seq<RankLine>)

  /** `username or first_name or "Unknown"`. */
  function Label(row: UserRow): (s: string)
    ensures s != []
  {
    if Truthy(row.username) then row.username.value
    else if Truthy(row.firstName) then row.firstName.value
    else "Unknown"
  }

  /** `get_top_referrers`: one labelled line per row of the ranking query. */
  method TopReferrers(users: map<int, UserRow>) returns (r: Ranking)
    ensures r.NoReferrals? <==> forall u :: u in users ==> users[u].referralCount <= 0
    ensures r.Lines? ==>
      && |r.lines| == |TopRows(users)|
      && forall i :: 0 <= i < |r.lines| ==>
           r.lines[i] == RankLine(Label(TopRows(users)[i]), TopRows(users)[i].referralCount, TopRows(users)[i].totalReferralXp)
  {
    var rows := TopRows(users);
    TopRowsEmpty(users);
    var lines: seq<RankLine> := [];
    var i := 0;
    while i < |rows|
      invariant 0 <= i <= |rows|
      invariant |lines| == i
      invariant forall k :: 0 <= k < i ==> lines[k] == RankLine(Label(rows[k]), rows[k].referralCount, rows[k].totalReferralXp)
    {
      lines := lines + [RankLine(Label(rows[i]), rows[i].referralCount, rows[i].totalReferralXp)];
      i := i + 1;
    }
    if |lines| > 0 {
      r := Lines(lines);
    } else {
      r := NoReferrals;
    }
  }
}
