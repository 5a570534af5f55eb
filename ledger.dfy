/** The `Database` class: the ledger's tables as fields, each mutating
    method a step-by-step update proved to perform the transition that
    `LedgerSpec` defines for it. Queries are the functions of `LedgerSpec`
    applied to `State()`. */
module Ledger {
  import opened Common
  import opened LedgerSpec
  import LedgerProps

  class Database {
    var users: map<int, UserRow>
    var invites: seq<Invite>
    var subscriptions: map<int, bool>
    var referralTickets: set<(int, int)>
    var participants: seq<int>
    var prizes: seq<Prize>

    /** The tables as one value. */
    function State(): Tables
      reads this
    {
      Tables(users, invites, subscriptions, referralTickets, participants, prizes)
    }

    /** The UNIQUE constraint on `users.referral_code`, with every code well formed. */
    ghost predicate Valid()
      reads this
    {
      CodesUnique(users)
    }

    /** `init_database` on a fresh file: empty tables, then the prize seed. */
    constructor ()
      ensures State() == InitPrizesSpec(EmptyTables)
      ensures Valid()
    {
      users, invites, subscriptions := map[], [], map[];
      referralTickets, participants, prizes := {}, [], [];
      new;
      InitGiveawayPrizes();
    }

    /** `_init_giveaway_prizes`: insert the seed prizes one by one, only into an empty table. */
    method InitGiveawayPrizes()
      modifies this
      ensures State() == InitPrizesSpec(old(State()))
      ensures old(Valid()) ==> Valid()
    {
      if |prizes| == 0 {
        var seed := SeedPrizes();
        var inserted: seq<Prize> := [];
        var i := 0;
        while i < |seed|
          invariant 0 <= i <= |seed|
          invariant inserted == seed[..i]
        {
          inserted := inserted + [seed[i]];
          i := i + 1;
        }
        prizes := inserted;
      }
    }

    /** `_generate_referral_code`: try the drawn suffixes in turn and return
        the first code no user holds. `None` means the draws ran out. */
    method GenerateReferralCode(draws: seq<string>) returns (code: Option<string>)
      ensures code == FirstFreeCode(users, draws)
      ensures (forall i :: 0 <= i < |draws| ==> ValidSuffix(draws[i])) && code.Some? ==>
                ValidCode(code.value) && !CodeInUse(users, code.value)
    {
      LedgerProps.FirstFreeCodeHolds(users, draws);
      if forall i :: 0 <= i < |draws| ==> ValidSuffix(draws[i]) {
        LedgerProps.FirstFreeCodeIsFresh(users, draws);
      }
      var i := 0;
      while i < |draws|
        invariant 0 <= i <= |draws|
        invariant FirstFreeCode(users, draws) == FirstFreeCode(users, draws[i..])
      {
        var candidate := CodePrefix + draws[i];
        var exists_ := CodeInUse(users, candidate);
        if !exists_ {
          return Some(candidate);
        }
        assert draws[i..][1..] == draws[i + 1..];
        i := i + 1;
      }
      return None;
    }

    /** `add_user`. */
    method AddUser(userId: int, username: Option<string>, firstName: Option<string>, lastName: Option<string>,
                   referredBy: Option<string>, draws: seq<string>) returns (ok: bool)
      modifies this
      ensures (State(), ok) == AddUserSpec(old(State()), userId, username, firstName, lastName, referredBy, draws)
      ensures old(Valid()) && (forall i :: 0 <= i < |draws| ==> ValidSuffix(draws[i])) ==> Valid()
    {
      ghost var before := State();
      if Valid() && forall i :: 0 <= i < |draws| ==> ValidSuffix(draws[i]) {
        LedgerProps.AddUserKeepsCodesUnique(before, userId, username, firstName, lastName, referredBy, draws);
      }
      var code := GenerateReferralCode(draws);
      if code.None? {
        return false;
      }
      if !InSqliteRange(userId) {
        return false;
      }
      if userId !in users {
        users := users[userId := NewUserRow(username, firstName, lastName, code.value, referredBy)];
      }
      if Truthy(referredBy) {
        ProcessReferral(referredBy.value, userId);
      }
      return true;
    }

    /** `_process_referral`: credit the holder of `code`, if any, and record the invite. */
    method ProcessReferral(code: string, newUserId: int)
      modifies this
      ensures State() == ProcessReferralSpec(old(State()), code, newUserId)
      ensures old(Valid()) ==> Valid()
    {
      ghost var before := State();
      if Valid() {
        LedgerProps.ProcessReferralKeepsCodes(before, code, newUserId);
      }
      var found := InviterOf(users, code);
      if found.Some? {
        var inviter := found.value;
        ghost var next := ProcessReferralSpec(before, code, newUserId);
        users := users[inviter := Credit(users[inviter])];
        invites := invites + [Invite(inviter, newUserId, code, Joined)];
        assert users == next.users;
        assert invites == next.invites;
      }
    }

    /** `SELECT COUNT(*) FROM referral_invites WHERE inviter_id = ? AND invitee_id = ?`. */
    method CountInvites(inviterId: int, inviteeId: int) returns (n: nat)
      ensures n > 0 <==> HasInvite(invites, inviterId, inviteeId)
      ensures n <= |invites|
    {
      n := 0;
      var i := 0;
      while i < |invites|
        invariant 0 <= i <= |invites|
        invariant n <= i
        invariant n > 0 <==> HasInvite(invites[..i], inviterId, inviteeId)
      {
        assert invites[..i + 1] == invites[..i] + [invites[i]];
        HasInviteSnoc(invites[..i], invites[i], inviterId, inviteeId);
        if invites[i].inviter == inviterId && invites[i].invitee == inviteeId {
          n := n + 1;
        }
        i := i + 1;
      }
      assert invites[..i] == invites;
    }

    /** `add_ticket_for_referral_start`. */
    method AddTicketForReferralStart(inviterId: int, inviteeId: int) returns (ok: bool)
      modifies this
      ensures (State(), ok) == AddTicketSpec(old(State()), inviterId, inviteeId)
      ensures old(Valid()) ==> Valid()
    {
      if !InSqliteRange(inviterId) || !InSqliteRange(inviteeId) {
        return false;
      }
      var n := CountInvites(inviterId, inviteeId);
      if n > 0 {
        return false;
      }
      invites := invites + [Invite(inviterId, inviteeId, "", Joined)];
      if inviterId in users {
        users := users[inviterId := users[inviterId].(referralCount := users[inviterId].referralCount + 1)];
      }
      return true;
    }

    /** `set_subscription_status`: insert the user's row or update it. */
    method SetSubscriptionStatus(userId: int, subscribed: bool)
      modifies this
      ensures State() == SetSubscriptionSpec(old(State()), userId, subscribed)
      ensures old(Valid()) ==> Valid()
    {
      if userId !in subscriptions {
        subscriptions := subscriptions[userId := subscribed];
      } else {
        subscriptions := subscriptions[userId := subscribed];
      }
    }

    /** `add_referral_ticket`: insert the pair when it is absent. */
    method AddReferralTicket(userId: int, referralId: int)
      modifies this
      ensures State() == AddReferralTicketSpec(old(State()), userId, referralId)
      ensures old(Valid()) ==> Valid()
    {
      if (userId, referralId) !in referralTickets {
        referralTickets := referralTickets + {(userId, referralId)};
      }
    }

    /** `complete_task`: add one completed task, then mark the giveaway completed
        when the stored count has reached the threshold. */
    method CompleteTask(userId: int)
      modifies this
      ensures State() == CompleteTaskSpec(old(State()), userId)
      ensures old(Valid()) ==> Valid()
    {
      if userId in users {
        users := users[userId := users[userId].(tasksCompleted := users[userId].tasksCompleted + 1)];
        if users[userId].tasksCompleted >= TasksForGiveaway {
          users := users[userId := users[userId].(giveawayCompleted := true)];
        }
      }
    }

    /** `get_giveaway_prizes`: copy the rows of the ordered query into a list. */
    method GetGiveawayPrizes() returns (r: seq<Prize>)
      ensures multiset(r) == multiset(prizes)
      ensures forall i, j :: 0 <= i < j < |r| ==> r[i].value >= r[j].value
      ensures r == PrizesByValue(prizes)
    {
      var rows := PrizesByValue(prizes);
      LedgerProps.PrizesByValueOrdered(prizes);
      r := [];
      var i := 0;
      while i < |rows|
        invariant 0 <= i <= |rows|
        invariant r == rows[..i]
      {
        r := r + [rows[i]];
        i := i + 1;
      }
      assert rows[..i] == rows;
    }
  }
}
