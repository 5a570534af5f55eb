/** What the ledger's transitions promise, proved about `LedgerSpec`:
    registration is insert-or-ignore with a fresh, well-formed code, every
    crediting path moves `referral_count` in step with one joined invite
    row, the ticket tables are idempotent or upserted, and task progress
    counts up to the giveaway threshold. */
module LedgerProps {
  import opened Common
  import opened Sorting
  import opened LedgerSpec

  // ---------------------------------------------------------------------
  // Referral codes

  lemma PrefixedSuffixIsValid(s: string)
    requires ValidSuffix(s)
    ensures ValidCode(CodePrefix + s)
  {
    var c := CodePrefix + s;
    assert c[..|CodePrefix|] == CodePrefix;
    assert c[|CodePrefix|..] == s;
  }

  /** `_generate_referral_code` returns "FSR" plus the first draw whose code
      no user holds; it gives up (here) only when every draw was taken. */
  lemma {:induction false} FirstFreeCodeIsFresh(users: map<int, UserRow>, draws: seq<string>)
    requires forall i :: 0 <= i < |draws| ==> ValidSuffix(draws[i])
    ensures var r := FirstFreeCode(users, draws);
      && (r.Some? ==> ValidCode(r.value) && !CodeInUse(users, r.value))
      && (r.Some? ==> exists i :: 0 <= i < |draws| && r.value == CodePrefix + draws[i]
                                 && forall j :: 0 <= j < i ==> CodeInUse(users, CodePrefix + draws[j]))
      && (r.None? <==> forall i :: 0 <= i < |draws| ==> CodeInUse(users, CodePrefix + draws[i]))
  {
    if draws != [] {
      if !CodeInUse(users, CodePrefix + draws[0]) {
        PrefixedSuffixIsValid(draws[0]);
      } else {
        FirstFreeCodeIsFresh(users, draws[1..]);
        var r := FirstFreeCode(users, draws);
        if r.Some? {
          var i :| 0 <= i < |draws[1..]| && r.value == CodePrefix + draws[1..][i]
                   && forall j :: 0 <= j < i ==> CodeInUse(users, CodePrefix + draws[1..][j]);
          assert r.value == CodePrefix + draws[i + 1];
          forall j | 0 <= j < i + 1 ensures CodeInUse(users, CodePrefix + draws[j]) {
            if j > 0 { assert draws[j] == draws[1..][j - 1]; }
          }
        } else {
          forall i | 0 <= i < |draws| ensures CodeInUse(users, CodePrefix + draws[i]) {
            if i > 0 { assert draws[i] == draws[1..][i - 1]; }
          }
        }
      }
    }
  }

  // ---------------------------------------------------------------------
  // Counting invite rows

  lemma JoinedCountAppend(s: seq<Invite>, x: Invite, u: int)
    ensures JoinedCount(s + [x], u) == JoinedCount(s, u) + (if x.inviter == u && x.status == Joined then 1 else 0)
    ensures CodedJoinedCount(s + [x], u)
            == CodedJoinedCount(s, u) + (if x.inviter == u && x.status == Joined && x.code != "" then 1 else 0)
  {
    assert (s + [x])[..|s|] == s;
  }

  lemma {:induction false} JoinedCountOfStranger(s: seq<Invite>, u: int)
    requires forall i :: 0 <= i < |s| ==> s[i].inviter != u
    ensures JoinedCount(s, u) == 0 && CodedJoinedCount(s, u) == 0
  {
    if s != [] {
      JoinedCountOfStranger(s[..|s| - 1], u);
    }
  }

  /** A positive joined count means some joined invite row of that inviter exists. */
  lemma {:induction false} JoinedCountPositive(s: seq<Invite>, u: int)
    ensures JoinedCount(s, u) > 0 <==> exists i :: 0 <= i < |s| && s[i].inviter == u && s[i].status == Joined
  {
    if s != [] {
      var p := s[..|s| - 1];
      JoinedCountPositive(p, u);
      if exists i :: 0 <= i < |p| && p[i].inviter == u && p[i].status == Joined {
        var i :| 0 <= i < |p| && p[i].inviter == u && p[i].status == Joined;
        assert s[i] == p[i];
      }
      if exists i :: 0 <= i < |s| && s[i].inviter == u && s[i].status == Joined {
        var i :| 0 <= i < |s| && s[i].inviter == u && s[i].status == Joined;
        if i < |p| { assert p[i] == s[i]; }
      }
    }
  }

  // ---------------------------------------------------------------------
  // _process_referral

  /** A code no user holds changes nothing. */
  lemma ProcessReferralUnknownCode(t: Tables, code: string, newUserId: int)
    requires !CodeInUse(t.users, code)
    ensures ProcessReferralSpec(t, code, newUserId) == t
  {
  }

  /** When the lookup finds `inviter` (under the UNIQUE constraint, exactly
      when `inviter` holds the code: `InviterIsHolder`), processing adds one
      to its referral count, 100 to its XP and one joined invite, and leaves
      every other user and table alone. */
  lemma ProcessReferralCredits(t: Tables, code: string, newUserId: int, inviter: int)
    requires InviterOf(t.users, code) == Some(inviter)
    ensures var t2 := ProcessReferralSpec(t, code, newUserId);
      && t2.invites == t.invites + [Invite(inviter, newUserId, code, Joined)]
      && t2.users.Keys == t.users.Keys
      && (forall u :: u in t.users && u != inviter ==> t2.users[u] == t.users[u])
      && (var before := ReferralInfoOf(t, inviter).value;
          ReferralInfoOf(t2, inviter)
          == Some(before.(referralCount := before.referralCount + 1,
                          totalReferralXp := before.totalReferralXp + ReferralXp,
                          successfulInvites := before.successfulInvites + 1)))
      && t2.subscriptions == t.subscriptions && t2.referralTickets == t.referralTickets
      && t2.participants == t.participants && t2.prizes == t.prizes
  {
    ProcessReferralByHolder(t, code, newUserId, inviter);
    ReferralInfoAfterCredit(t, inviter, Invite(inviter, newUserId, code, Joined));
  }

  lemma ReferralInfoAfterCredit(t: Tables, inviter: int, x: Invite)
    requires inviter in t.users && x.inviter == inviter && x.status == Joined
    ensures var row := t.users[inviter];
      ReferralInfoOf(t.(users := t.users[inviter := Credit(row)], invites := t.invites + [x]), inviter)
      == Some(ReferralInfo(row.referralCode, row.referralCount + 1, row.totalReferralXp + ReferralXp,
                           JoinedCount(t.invites, inviter) + 1))
  {
    JoinedCountAppend(t.invites, x, inviter);
  }

  lemma ProcessReferralByHolder(t: Tables, code: string, newUserId: int, inviter: int)
    requires InviterOf(t.users, code) == Some(inviter)
    ensures ProcessReferralSpec(t, code, newUserId)
            == t.(users := t.users[inviter := Credit(t.users[inviter])],
                  invites := t.invites + [Invite(inviter, newUserId, code, Joined)])
  {
  }

  /** Under the UNIQUE constraint the lookup by code finds the one holder. */
  lemma InviterIsHolder(users: map<int, UserRow>, code: string, inviter: int)
    requires CodesUnique(users)
    requires inviter in users && users[inviter].referralCode == code
    ensures InviterOf(users, code) == Some(inviter)
  {
    assert CodeInUse(users, code);
    var r := InviterOf(users, code);
    var holder: int := r.value;
    assert holder in users && users[holder].referralCode == users[inviter].referralCode;
  }

  // ---------------------------------------------------------------------
  // add_user

  /** INSERT OR IGNORE: an existing user keeps its row, code included; the
      only change to it is the credit it earns when `referred_by` is its own
      code. The call reports success unless no free code could be drawn. */
  lemma AddUserOnExistingUser(t: Tables, userId: int, username: Option<string>, firstName: Option<string>,
                              lastName: Option<string>, referredBy: Option<string>, draws: seq<string>)
    requires userId in t.users
    ensures var (t2, ok) := AddUserSpec(t, userId, username, firstName, lastName, referredBy, draws);
      && (ok <==> FirstFreeCode(t.users, draws).Some? && InSqliteRange(userId))
      && userId in t2.users
      && t2.users[userId].referralCode == t.users[userId].referralCode
      && t2.users[userId]
         == (if ok && Truthy(referredBy) && InviterOf(t.users, referredBy.value) == Some(userId)
             then Credit(t.users[userId]) else t.users[userId])
  {
  }

  /** A new user gets the first free code and a fresh row; it is credited
      itself only in the corner case where `referred_by` equals that code. */
  lemma AddUserRegisters(t: Tables, userId: int, username: Option<string>, firstName: Option<string>,
                         lastName: Option<string>, referredBy: Option<string>, draws: seq<string>)
    requires userId !in t.users && InSqliteRange(userId)
    requires FirstFreeCode(t.users, draws).Some?
    ensures var code := FirstFreeCode(t.users, draws).value;
      var row := NewUserRow(username, firstName, lastName, code, referredBy);
      var (t2, ok) := AddUserSpec(t, userId, username, firstName, lastName, referredBy, draws);
      && ok
      && t2.users.Keys == t.users.Keys + {userId}
      && t2.users[userId] == (if Truthy(referredBy) && referredBy.value == code then Credit(row) else row)
  {
    var code := FirstFreeCode(t.users, draws).value;
    FirstFreeCodeHolds(t.users, draws);
    var row := NewUserRow(username, firstName, lastName, code, referredBy);
    var inserted := t.(users := t.users[userId := row]);
    if Truthy(referredBy) {
      ProcessReferralRow(inserted, referredBy.value, userId, userId);
      NewCodeFindsOnlyNewUser(t.users, userId, row, referredBy.value);
    }
  }

  /** The referral half of `add_user`: once the row is inserted or ignored,
      a truthy `referred_by` held by `inv` credits `inv` (+1 count, +100 XP)
      and appends one joined invite for this user, whether or not the
      insert happened. Nothing else changes. */
  lemma AddUserCreditsInviter(t: Tables, userId: int, username: Option<string>, firstName: Option<string>,
                              lastName: Option<string>, referredBy: Option<string>, draws: seq<string>,
                              code: string, inv: int)
    requires FirstFreeCode(t.users, draws) == Some(code) && InSqliteRange(userId) && Truthy(referredBy)
    requires InviterOf(InsertOrIgnore(t.users, userId, NewUserRow(username, firstName, lastName, code, referredBy)),
                       referredBy.value) == Some(inv)
    ensures var users1 := InsertOrIgnore(t.users, userId, NewUserRow(username, firstName, lastName, code, referredBy));
      var (t2, ok) := AddUserSpec(t, userId, username, firstName, lastName, referredBy, draws);
      && ok
      && t2.users.Keys == users1.Keys
      && t2.users[inv] == Credit(users1[inv])
      && (forall u :: u in users1 && u != inv ==> t2.users[u] == users1[u])
      && t2.invites == t.invites + [Invite(inv, userId, referredBy.value, Joined)]
      && JoinedCount(t2.invites, inv) == JoinedCount(t.invites, inv) + 1
      && t2.subscriptions == t.subscriptions && t2.referralTickets == t.referralTickets
      && t2.participants == t.participants && t2.prizes == t.prizes
  {
    var users1 := InsertOrIgnore(t.users, userId, NewUserRow(username, firstName, lastName, code, referredBy));
    ProcessReferralByHolder(t.(users := users1), referredBy.value, userId, inv);
    JoinedCountAppend(t.invites, Invite(inv, userId, referredBy.value, Joined), inv);
  }

  /** Registering an existing user twice with a code held by another user
      credits that inviter twice and leaves two joined invite rows: the
      INSERT is ignored but `_process_referral` still runs. */
  lemma AddUserTwiceCreditsTwice(t: Tables, userId: int, username: Option<string>, firstName: Option<string>,
                                 lastName: Option<string>, referredBy: Option<string>, draws: seq<string>, inv: int)
    requires CodesUnique(t.users)
    requires userId in t.users && InSqliteRange(userId) && FirstFreeCode(t.users, draws).Some?
    requires Truthy(referredBy) && inv in t.users && t.users[inv].referralCode == referredBy.value
    ensures var (t1, ok1) := AddUserSpec(t, userId, username, firstName, lastName, referredBy, draws);
      var (t2, ok2) := AddUserSpec(t1, userId, username, firstName, lastName, referredBy, draws);
      var x := Invite(inv, userId, referredBy.value, Joined);
      && ok1 && ok2
      && t2.users.Keys == t.users.Keys
      && t2.users[inv] == Credit(Credit(t.users[inv]))
      && (forall u :: u in t.users && u != inv ==> t2.users[u] == t.users[u])
      && t2.invites == t.invites + [x, x]
      && JoinedCount(t2.invites, inv) == JoinedCount(t.invites, inv) + 2
  {
    var code := FirstFreeCode(t.users, draws).value;
    var row := NewUserRow(username, firstName, lastName, code, referredBy);
    InviterIsHolder(t.users, referredBy.value, inv);
    AddUserCreditsInviter(t, userId, username, firstName, lastName, referredBy, draws, code, inv);
    var t1 := AddUserSpec(t, userId, username, firstName, lastName, referredBy, draws).0;
    ProcessReferralKeepsCodes(t, referredBy.value, userId);
    assert CodesUnique(t1.users);
    assert t1.users[inv].referralCode == referredBy.value;
    InviterIsHolder(t1.users, referredBy.value, inv);
    FirstFreeCodeSameCodes(t.users, t1.users, draws);
    AddUserCreditsInviter(t1, userId, username, firstName, lastName, referredBy, draws, code, inv);
    assert t.invites + [Invite(inv, userId, referredBy.value, Joined)] + [Invite(inv, userId, referredBy.value, Joined)]
        == t.invites + [Invite(inv, userId, referredBy.value, Joined), Invite(inv, userId, referredBy.value, Joined)];
  }

  /** The code generator sees only which codes are in use. */
  lemma {:induction false} FirstFreeCodeSameCodes(users: map<int, UserRow>, users2: map<int, UserRow>, draws: seq<string>)
    requires users2.Keys == users.Keys
    requires forall u :: u in users ==> users2[u].referralCode == users[u].referralCode
    ensures FirstFreeCode(users2, draws) == FirstFreeCode(users, draws)
  {
    if draws != [] {
      assert CodeInUse(users2, CodePrefix + draws[0]) <==> CodeInUse(users, CodePrefix + draws[0]);
      FirstFreeCodeSameCodes(users, users2, draws[1..]);
    }
  }

  /** After inserting a row whose code nobody held, a lookup by code finds
      the new user exactly when the code is the new one. */
  lemma NewCodeFindsOnlyNewUser(users: map<int, UserRow>, userId: int, row: UserRow, code: string)
    requires userId !in users && !CodeInUse(users, row.referralCode)
    ensures InviterOf(users[userId := row], code) == Some(userId) <==> code == row.referralCode
  {
    var users1 := users[userId := row];
    if code == row.referralCode {
      var r := InviterOf(users1, code);
      assert users1[userId].referralCode == code;
      assert forall v :: v in users ==> users[v].referralCode != code;
      assert r.Some? && r.value == userId;
    }
  }

  /** `_process_referral` changes one row at most: the inviter's, by `Credit`. */
  lemma ProcessReferralRow(t: Tables, code: string, newUserId: int, u: int)
    requires u in t.users
    ensures var t2 := ProcessReferralSpec(t, code, newUserId);
      && t2.users.Keys == t.users.Keys
      && t2.users[u] == (if InviterOf(t.users, code) == Some(u) then Credit(t.users[u]) else t.users[u])
  {
  }

  lemma {:induction false} FirstFreeCodeHolds(users: map<int, UserRow>, draws: seq<string>)
    ensures FirstFreeCode(users, draws).Some? ==> !CodeInUse(users, FirstFreeCode(users, draws).value)
  {
    if draws != [] && CodeInUse(users, CodePrefix + draws[0]) {
      FirstFreeCodeHolds(users, draws[1..]);
    }
  }

  /** The UNIQUE constraint on referral codes survives registration. */
  lemma AddUserKeepsCodesUnique(t: Tables, userId: int, username: Option<string>, firstName: Option<string>,
                                lastName: Option<string>, referredBy: Option<string>, draws: seq<string>)
    requires CodesUnique(t.users)
    requires forall i :: 0 <= i < |draws| ==> ValidSuffix(draws[i])
    ensures CodesUnique(AddUserSpec(t, userId, username, firstName, lastName, referredBy, draws).0.users)
  {
    var r := FirstFreeCode(t.users, draws);
    if r.Some? {
      FirstFreeCodeIsFresh(t.users, draws);
      var inserted :=
        if userId in t.users then t
        else t.(users := t.users[userId := NewUserRow(username, firstName, lastName, r.value, referredBy)]);
      assert CodesUnique(inserted.users);
      if Truthy(referredBy) {
        ProcessReferralKeepsCodes(inserted, referredBy.value, userId);
      }
    }
  }

  lemma ProcessReferralKeepsCodes(t: Tables, code: string, newUserId: int)
    requires CodesUnique(t.users)
    ensures CodesUnique(ProcessReferralSpec(t, code, newUserId).users)
  {
    var t2 := ProcessReferralSpec(t, code, newUserId);
    assert t2.users.Keys == t.users.Keys;
    assert forall u :: u in t.users ==> t2.users[u].referralCode == t.users[u].referralCode;
  }

  // ---------------------------------------------------------------------
  // add_ticket_for_referral_start

  /** With bindable ids and no invite row for the pair: one joined row with an empty code is
      appended, the inviter's count (if it is registered) rises by one, and
      nothing else changes; in particular `tickets_referral` is not written. */
  lemma AddTicketFresh(t: Tables, inviterId: int, inviteeId: int)
    requires InSqliteRange(inviterId) && InSqliteRange(inviteeId)
    requires !HasInvite(t.invites, inviterId, inviteeId)
    ensures var (t2, ok) := AddTicketSpec(t, inviterId, inviteeId);
      && ok
      && t2.invites == t.invites + [Invite(inviterId, inviteeId, "", Joined)]
      && JoinedCount(t2.invites, inviterId) == JoinedCount(t.invites, inviterId) + 1
      && CodedJoinedCount(t2.invites, inviterId) == CodedJoinedCount(t.invites, inviterId)
      && t2.users.Keys == t.users.Keys
      && (inviterId in t.users ==>
            && t2.users[inviterId].referralCount == t.users[inviterId].referralCount + 1
            && t2.users[inviterId].totalReferralXp == t.users[inviterId].totalReferralXp)
      && (forall u :: u in t.users && u != inviterId ==> t2.users[u] == t.users[u])
      && t2.referralTickets == t.referralTickets && t2.subscriptions == t.subscriptions
  {
    JoinedCountAppend(t.invites, Invite(inviterId, inviteeId, "", Joined), inviterId);
  }

  /** Once per pair: an existing invite row makes the call return false and
      change nothing, so repeating a call that succeeded returns false. */
  lemma AddTicketOnce(t: Tables, inviterId: int, inviteeId: int)
    ensures HasInvite(t.invites, inviterId, inviteeId) ==> AddTicketSpec(t, inviterId, inviteeId) == (t, false)
    ensures var t2 := AddTicketSpec(t, inviterId, inviteeId).0;
      AddTicketSpec(t2, inviterId, inviteeId) == (t2, false)
  {
    var (t2, ok) := AddTicketSpec(t, inviterId, inviteeId);
    if ok {
      var k := |t.invites|;
      assert t2.invites[k] == Invite(inviterId, inviteeId, "", Joined);
      assert HasInvite(t2.invites, inviterId, inviteeId);
    }
  }

  // ---------------------------------------------------------------------
  // The counters move in step with the invite rows

  /** Where the counters agree, `referral_count` equals the
      `successful_invites` that `get_user_referral_info` reports. */
  lemma CountersAgreeInfo(t: Tables, userId: int)
    requires CountersAgree(t) && userId in t.users
    ensures ReferralInfoOf(t, userId).Some?
    ensures ReferralInfoOf(t, userId).value.referralCount == ReferralInfoOf(t, userId).value.successfulInvites
    ensures ReferralInfoOf(t, userId).value.totalReferralXp <= ReferralXp * ReferralInfoOf(t, userId).value.successfulInvites
  {
    CodedAtMostJoined(t.invites, userId);
  }

  lemma {:induction false} CodedAtMostJoined(s: seq<Invite>, u: int)
    ensures CodedJoinedCount(s, u) <= JoinedCount(s, u)
  {
    if s != [] {
      CodedAtMostJoined(s[..|s| - 1], u);
    }
  }

  lemma EmptyCountersAgree()
    ensures CountersAgree(EmptyTables) && CountersAgree(InitPrizesSpec(EmptyTables))
  {
  }

  lemma ProcessReferralKeepsCounters(t: Tables, code: string, newUserId: int)
    requires CountersAgree(t)
    requires code != ""
    ensures CountersAgree(ProcessReferralSpec(t, code, newUserId))
  {
    match InviterOf(t.users, code)
    case None =>
    case Some(inviter) =>
      var x := Invite(inviter, newUserId, code, Joined);
      CountersAgreeAfterCredit(t, inviter, x, Credit(t.users[inviter]));
      assert ProcessReferralSpec(t, code, newUserId)
             == t.(users := t.users[inviter := Credit(t.users[inviter])], invites := t.invites + [x]);
  }

  /** One joined invite of a registered inviter, recorded together with the
      matching change to its counters, keeps the counters in step. */
  lemma CountersAgreeAfterCredit(t: Tables, inviter: int, x: Invite, row: UserRow)
    requires CountersAgree(t)
    requires inviter in t.users && x.inviter == inviter && x.status == Joined
    requires row.referralCount == t.users[inviter].referralCount + 1
    requires row.totalReferralXp == t.users[inviter].totalReferralXp + (if x.code != "" then ReferralXp else 0)
    ensures CountersAgree(t.(users := t.users[inviter := row], invites := t.invites + [x]))
  {
    var users2 := t.users[inviter := row];
    var invites2 := t.invites + [x];
    forall u | u in users2
      ensures users2[u].referralCount == JoinedCount(invites2, u)
      ensures users2[u].totalReferralXp == ReferralXp * CodedJoinedCount(invites2, u)
    {
      JoinedCountAppend(t.invites, x, u);
      assert t.users[u].referralCount == JoinedCount(t.invites, u);
      assert t.users[u].totalReferralXp == ReferralXp * CodedJoinedCount(t.invites, u);
      if u != inviter {
        assert users2[u] == t.users[u];
      }
    }
    InvitersRegisteredAfterAppend(t.invites, x, t.users, users2);
  }

  lemma InvitersRegisteredAfterAppend(s: seq<Invite>, x: Invite, users: map<int, UserRow>, users2: map<int, UserRow>)
    requires forall i :: 0 <= i < |s| ==> s[i].inviter in users
    requires users.Keys <= users2.Keys && x.inviter in users2
    ensures forall i :: 0 <= i < |s + [x]| ==> (s + [x])[i].inviter in users2
  {
    forall i | 0 <= i < |s + [x]| ensures (s + [x])[i].inviter in users2 {
      if i < |s| { assert (s + [x])[i] == s[i]; }
    }
  }

  /** Registration keeps the counters in step: a new user is nobody's
      inviter yet, and a processed referral credits and records together. */
  lemma AddUserKeepsCounters(t: Tables, userId: int, username: Option<string>, firstName: Option<string>,
                             lastName: Option<string>, referredBy: Option<string>, draws: seq<string>)
    requires CountersAgree(t)
    ensures CountersAgree(AddUserSpec(t, userId, username, firstName, lastName, referredBy, draws).0)
  {
    var code := FirstFreeCode(t.users, draws);
    if code.Some? && InSqliteRange(userId) {
      var inserted :=
        if userId in t.users then t
        else t.(users := t.users[userId := NewUserRow(username, firstName, lastName, code.value, referredBy)]);
      if userId !in t.users {
        JoinedCountOfStranger(t.invites, userId);
        assert CountersAgree(inserted) by {
          forall i | 0 <= i < |inserted.invites| ensures inserted.invites[i].inviter in inserted.users {
            assert t.invites[i].inviter in t.users;
          }
        }
      }
      if Truthy(referredBy) {
        ProcessReferralKeepsCounters(inserted, referredBy.value, userId);
      }
    }
  }

  /** The start-link credit keeps the counters in step when the inviter is
      registered or the pair already has an invite row. */
  lemma AddTicketKeepsCounters(t: Tables, inviterId: int, inviteeId: int)
    requires CountersAgree(t)
    requires inviterId in t.users || HasInvite(t.invites, inviterId, inviteeId)
    ensures CountersAgree(AddTicketSpec(t, inviterId, inviteeId).0)
  {
    if InSqliteRange(inviterId) && InSqliteRange(inviteeId) && !HasInvite(t.invites, inviterId, inviteeId) {
      var x := Invite(inviterId, inviteeId, "", Joined);
      var row := t.users[inviterId].(referralCount := t.users[inviterId].referralCount + 1);
      CountersAgreeAfterCredit(t, inviterId, x, row);
    }
  }

  /** The operations that touch neither invites nor counters keep them in step. */
  lemma BookkeepingKeepsCounters(t: Tables, userId: int, other: int, flag: bool)
    requires CountersAgree(t)
    ensures CountersAgree(SetSubscriptionSpec(t, userId, flag))
    ensures CountersAgree(AddReferralTicketSpec(t, userId, other))
    ensures CountersAgree(CompleteTaskSpec(t, userId))
    ensures CountersAgree(InitPrizesSpec(t))
  {
    CompleteTaskKeepsCounters(t, userId);
    OtherTablesKeepCounters(t, t.subscriptions[userId := flag], t.referralTickets, t.prizes);
    OtherTablesKeepCounters(t, t.subscriptions, t.referralTickets + {(userId, other)}, t.prizes);
    OtherTablesKeepCounters(t, t.subscriptions, t.referralTickets, SeedPrizes());
  }

  /** The counters read only `users` and `referral_invites`. */
  lemma OtherTablesKeepCounters(t: Tables, subscriptions: map<int, bool>, referralTickets: set<(int, int)>, prizes: seq<Prize>)
    requires CountersAgree(t)
    ensures CountersAgree(t.(subscriptions := subscriptions, referralTickets := referralTickets, prizes := prizes))
  {
  }

  lemma CompleteTaskKeepsCounters(t: Tables, userId: int)
    requires CountersAgree(t)
    ensures CountersAgree(CompleteTaskSpec(t, userId))
  {
    var t2 := CompleteTaskSpec(t, userId);
    assert t2.users.Keys == t.users.Keys;
  }

  /** An invite written for an inviter that is not registered yet is counted
      by `successful_invites` but by no `referral_count`: registering that id
      afterwards leaves the two apart, so the agreement above needs its
      registered-inviter condition. */
  lemma OrphanInviteDrift()
    ensures var t1 := AddTicketSpec(EmptyTables, 5, 7).0;
      var t2 := AddUserSpec(t1, 5, None, None, None, None, ["AAAAAA"]).0;
      ReferralInfoOf(t2, 5) == Some(ReferralInfo("FSRAAAAAA", 0, 0, 1))
  {
    var x := Invite(5, 7, "", Joined);
    var t1 := AddTicketSpec(EmptyTables, 5, 7).0;
    assert !HasInvite(EmptyTables.invites, 5, 7);
    assert t1 == EmptyTables.(invites := [x]);
    assert CodePrefix + "AAAAAA" == "FSRAAAAAA";
    assert !CodeInUse(t1.users, "FSRAAAAAA");
    assert FirstFreeCode(t1.users, ["AAAAAA"]) == Some("FSRAAAAAA");
    var t2 := AddUserSpec(t1, 5, None, None, None, None, ["AAAAAA"]).0;
    assert t2 == t1.(users := map[5 := NewUserRow(None, None, None, "FSRAAAAAA", None)]);
    JoinedCountAppend([], x, 5);
    assert [] + [x] == [x];
    assert JoinedCount(t2.invites, 5) == 1;
  }

  // ---------------------------------------------------------------------
  // Subscription and ticket bookkeeping

  /** The upsert leaves one flag for the user, holding the new value; the
      ledger's ticket count of that user follows the flag and no other
      user's flag or tickets move. */
  lemma SetSubscriptionTickets(t: Tables, userId: int, subscribed: bool)
    ensures var t2 := SetSubscriptionSpec(t, userId, subscribed);
      && userId in t2.subscriptions && t2.subscriptions[userId] == subscribed
      && t2.subscriptions.Keys == t.subscriptions.Keys + {userId}
      && (forall u :: u in t.subscriptions && u != userId ==> t2.subscriptions[u] == t.subscriptions[u])
      && TicketsOf(t2, userId) == (if subscribed then 1 else 0) + |ReferralTicketsOf(t.referralTickets, userId)|
      && (forall u :: u != userId ==> TicketsOf(t2, u) == TicketsOf(t, u))
  {
  }

  lemma ReferralTicketsOfInsert(refs: set<(int, int)>, userId: int, referralId: int)
    requires (userId, referralId) !in refs
    ensures ReferralTicketsOf(refs + {(userId, referralId)}, userId) == ReferralTicketsOf(refs, userId) + {(userId, referralId)}
    ensures |ReferralTicketsOf(refs + {(userId, referralId)}, userId)| == |ReferralTicketsOf(refs, userId)| + 1
    ensures forall u :: u != userId ==> ReferralTicketsOf(refs + {(userId, referralId)}, u) == ReferralTicketsOf(refs, u)
  {
    assert (userId, referralId) !in ReferralTicketsOf(refs, userId);
    assert ReferralTicketsOf(refs + {(userId, referralId)}, userId) == ReferralTicketsOf(refs, userId) + {(userId, referralId)};
  }

  /** `add_referral_ticket` is idempotent per (user_id, referral_id) and adds
      exactly one ticket to that user when the pair is new. */
  lemma AddReferralTicketIdempotent(t: Tables, userId: int, referralId: int)
    ensures var t2 := AddReferralTicketSpec(t, userId, referralId);
      && AddReferralTicketSpec(t2, userId, referralId) == t2
      && (userId, referralId) in t2.referralTickets
      && TicketsOf(t2, userId) == TicketsOf(t, userId) + (if (userId, referralId) in t.referralTickets then 0 else 1)
      && (forall u :: u != userId ==> TicketsOf(t2, u) == TicketsOf(t, u))
  {
    if (userId, referralId) !in t.referralTickets {
      ReferralTicketsOfInsert(t.referralTickets, userId, referralId);
    }
  }

  /** The start-link credit never reaches `get_user_tickets`: no user's
      ledger ticket count changes. */
  lemma AddTicketLeavesLedgerTickets(t: Tables, inviterId: int, inviteeId: int)
    ensures forall u :: TicketsOf(AddTicketSpec(t, inviterId, inviteeId).0, u) == TicketsOf(t, u)
  {
  }

  /** Registration, the start-link credit and task completion never write
      `tickets_subscription`, `tickets_referral` or `giveaway_participants`,
      so no user's `get_user_tickets` moves through them. */
  lemma FrontDoorOperationsKeepTicketTables(t: Tables, userId: int, username: Option<string>,
                                            firstName: Option<string>, lastName: Option<string>,
                                            referredBy: Option<string>, draws: seq<string>, other: int)
    ensures var t2 := AddUserSpec(t, userId, username, firstName, lastName, referredBy, draws).0;
      && t2.subscriptions == t.subscriptions && t2.referralTickets == t.referralTickets
      && t2.participants == t.participants
      && forall u :: TicketsOf(t2, u) == TicketsOf(t, u)
    ensures var t2 := AddTicketSpec(t, other, userId).0;
      && t2.subscriptions == t.subscriptions && t2.referralTickets == t.referralTickets
      && t2.participants == t.participants
    ensures var t2 := CompleteTaskSpec(t, userId);
      && t2.subscriptions == t.subscriptions && t2.referralTickets == t.referralTickets
      && t2.participants == t.participants
  {
  }

  // ---------------------------------------------------------------------
  // Task progress

  /** `complete_task` adds exactly one task to an existing user and marks
      the giveaway completed once the new count reaches two; an unknown user
      changes nothing. */
  lemma CompleteTaskEffect(t: Tables, userId: int)
    ensures var t2 := CompleteTaskSpec(t, userId);
      && (userId !in t.users ==> t2 == t)
      && (userId in t.users ==>
            var before := t.users[userId];
            && t2.users.Keys == t.users.Keys
            && t2.users[userId]
               == before.(tasksCompleted := before.tasksCompleted + 1,
                          giveawayCompleted := before.giveawayCompleted
                                               || before.tasksCompleted + 1 >= TasksForGiveaway)
            && (forall u :: u in t.users && u != userId ==> t2.users[u] == t.users[u])
            && t2 == t.(users := t2.users))
  {
  }

  /** A freshly registered user has completed the giveaway after two tasks, not after one. */
  lemma TwoTasksCompleteGiveaway(t: Tables, userId: int)
    requires userId in t.users && t.users[userId].tasksCompleted == 0 && !t.users[userId].giveawayCompleted
    ensures !CompleteTaskSpec(t, userId).users[userId].giveawayCompleted
    ensures CompleteTaskSpec(CompleteTaskSpec(t, userId), userId).users[userId].giveawayCompleted
  {
  }

  /** Task 2 counts as done for an inviter once either crediting path has run. */
  lemma CreditMarksTaskTwo(t: Tables, inviterId: int, inviteeId: int, code: string)
    ensures InSqliteRange(inviterId) && InSqliteRange(inviteeId) && !HasInvite(t.invites, inviterId, inviteeId) ==>
              TaskStatusesOf(AddTicketSpec(t, inviterId, inviteeId).0, inviterId).task2Done
    ensures InviterOf(t.users, code) == Some(inviterId) ==>
              TaskStatusesOf(ProcessReferralSpec(t, code, inviteeId), inviterId).task2Done
  {
    JoinedCountAppend(t.invites, Invite(inviterId, inviteeId, "", Joined), inviterId);
    JoinedCountAppend(t.invites, Invite(inviterId, inviteeId, code, Joined), inviterId);
  }

  // ---------------------------------------------------------------------
  // Lookup by code and the prize catalogue

  /** Under the UNIQUE constraint, looking up a user's own code finds that user. */
  lemma UserByOwnCode(users: map<int, UserRow>, userId: int)
    requires CodesUnique(users) && userId in users
    ensures var row := users[userId];
      UserByCode(users, row.referralCode)
      == Some(UserSummary(userId, row.username, row.firstName, row.lastName, row.referralCode))
  {
    var r := InviterOf(users, users[userId].referralCode);
    assert r.Some?;
  }

  // ---------------------------------------------------------------------
  // The read-only queries

  /** `get_user_referral_info` answers for registered users only, with the
      user's own code and counters, and `successful_invites` is positive
      exactly when the user has a joined invite row. */
  lemma ReferralInfoOfUser(t: Tables, userId: int)
    ensures ReferralInfoOf(t, userId).Some? <==> userId in t.users
    ensures ReferralInfoOf(t, userId).Some? ==>
      var info := ReferralInfoOf(t, userId).value;
      && info.referralCode == t.users[userId].referralCode
      && info.referralCount == t.users[userId].referralCount
      && info.totalReferralXp == t.users[userId].totalReferralXp
      && (info.successfulInvites > 0 <==>
            exists i :: 0 <= i < |t.invites| && t.invites[i].inviter == userId && t.invites[i].status == Joined)
  {
    JoinedCountPositive(t.invites, userId);
  }

  /** `get_referral_link` answers for registered users only: the bot's start
      link with "ref" and the user's own code as its start parameter. */
  lemma ReferralLinkShape(users: map<int, UserRow>, userId: int)
    ensures ReferralLinkOf(users, userId).Some? <==> userId in users
    ensures ReferralLinkOf(users, userId).Some? ==>
      var link := ReferralLinkOf(users, userId).value;
      StartsWith(link, LinkPrefix) && link[|LinkPrefix|..] == users[userId].referralCode
  {
    if userId in users {
      var link := LinkPrefix + users[userId].referralCode;
      assert link[..|LinkPrefix|] == LinkPrefix;
      assert link[|LinkPrefix|..] == users[userId].referralCode;
    }
  }

  /** `get_user_by_referral_code` finds a user exactly when some user holds
      the code, and then returns a holder of it. */
  lemma UserByCodeFinds(users: map<int, UserRow>, code: string)
    ensures UserByCode(users, code).Some? <==> CodeInUse(users, code)
    ensures UserByCode(users, code).Some? ==>
      var found := UserByCode(users, code).value;
      && found.userId in users
      && users[found.userId].referralCode == code
      && found.referralCode == code
  {
  }

  /** `get_task_statuses`: task 1 is done iff the user is a giveaway
      participant, task 2 iff some invite row of the user is joined. */
  lemma TaskStatusesMeaning(t: Tables, userId: int)
    ensures TaskStatusesOf(t, userId).task1Done <==> exists i :: 0 <= i < |t.participants| && t.participants[i] == userId
    ensures TaskStatusesOf(t, userId).task2Done <==>
      exists i :: 0 <= i < |t.invites| && t.invites[i].inviter == userId && t.invites[i].status == Joined
  {
    JoinedCountPositive(t.invites, userId);
  }

  /** `get_user_tickets` is zero exactly when the user has neither a true
      subscription flag nor a `tickets_referral` row, and at least one for a
      true flag. */
  lemma TicketsOfMeaning(t: Tables, userId: int)
    ensures TicketsOf(t, userId) == 0 <==>
      && !(userId in t.subscriptions && t.subscriptions[userId])
      && forall p :: p in t.referralTickets ==> p.0 != userId
    ensures userId in t.subscriptions && t.subscriptions[userId] ==> TicketsOf(t, userId) >= 1
  {
    var mine := ReferralTicketsOf(t.referralTickets, userId);
    if exists p :: p in t.referralTickets && p.0 == userId {
      var p :| p in t.referralTickets && p.0 == userId;
      assert p in mine;
    }
  }

  /** `get_giveaway_prizes` lists every prize once, most valuable first. */
  lemma PrizesByValueOrdered(prizes: seq<Prize>)
    ensures var r := PrizesByValue(prizes);
      && multiset(r) == multiset(prizes)
      && forall i, j :: 0 <= i < j < |r| ==> r[i].value >= r[j].value
  {
    SortDescSorted(prizes, PrizeKey);
    var r := PrizesByValue(prizes);
    forall i, j | 0 <= i < j < |r| ensures r[i].value >= r[j].value {
      assert KeyGe(PrizeKey(r[i]), PrizeKey(r[j]));
    }
  }
}
