/** The referral and ticket ledger as values: the SQLite tables the
    `Database` class works on, each mutating method as a pure transition
    from one table state to the next, and each query as a function of the
    table state. `Ledger.Database` implements the transitions step by step;
    `LedgerProps` proves what they promise. */
module LedgerSpec {
  import opened Common
  import opened Sorting

  // ---------------------------------------------------------------------
  // Constants of the source

  /** Every referral code is "FSR" followed by six characters that satisfy `IsCodeChar`. */
  const CodePrefix := "FSR"
  const CodeSuffixLength := 6
  /** Experience credited to an inviter per referral processed at registration. */
  const ReferralXp := 100
  /** Number of completed tasks after which the giveaway counts as completed. */
  const TasksForGiveaway := 2
  /** The deep link `get_referral_link` builds around a referral code. */
  const LinkPrefix := "https://t.me/FSRUBOT?start=ref"

  // ---------------------------------------------------------------------
  // Rows and tables

  datatype InviteStatus = Pending | Joined | Expired

  /** A row of `users`; timestamps and `is_premium` are not modelled. */
  datatype UserRow = UserRow(
    username: Option<string>,
    firstName: Option<string>,
    lastName: Option<string>,
    referralCode: string,
    referredBy: Option<string>,
    referralCount: int,
    totalReferralXp: int,
    tasksCompleted: int,
    giveawayCompleted: bool)

  /** A row of `referral_invites`: (inviter, invitee, code, status). */
  datatype Invite = Invite(inviter: int, invitee: int, code: string, status: InviteStatus)

  /** A row of `giveaway_prizes` as `get_giveaway_prizes` selects it. */
  datatype Prize = Prize(name: string, description: string, value: int, category: string, imageUrl: Option<string>)

  /** All tables of the ledger. `tickets_referral` is a set because its
      primary key is the pair (user_id, referral_id); `participants` holds
      the user_id of each `giveaway_participants` row. */
  datatype Tables = Tables(
    users: map<int, UserRow>,
    invites: seq<Invite>,
    subscriptions: map<int, bool>,
    referralTickets: set<(int, int)>,
    participants: seq<int>,
    prizes: seq<Prize>)

  const EmptyTables := Tables(map[], [], map[], {}, [], [])

  /** The texts of the seed prizes. */
  const GoldenAppleName := "Сертификат Золотое Яблоко"
  const GoldenAppleText := "Сертификат на покупки в Золотом Яблоке на сумму 20,000 рублей"
  const BeautyName := "Бьюти-услуги"
  const BeautyText := "Комплекс бьюти-услуг на сумму 100,000 рублей (маникюр, педикюр, окрашивание, стрижка, макияж)"
  const PremiumName := "Telegram Premium (3 мес)"
  const PremiumText := "3 Telegram Premium на 3 месяца"

  /** The three prizes `_init_giveaway_prizes` inserts into an empty table. */
  function SeedPrizes(): seq<Prize> {
    [
    Prize(GoldenAppleName, GoldenAppleText, 20000, "certificate", Some("assets/golden_apple_certificate.png")),
    Prize(BeautyName, BeautyText, 100000, "beauty_service", Some("assets/beauty_services.png")),
    Prize(PremiumName, PremiumText, 50000, "telegram_premium", Some("assets/telegram_premium.png"))
    ]
  }

  // ---------------------------------------------------------------------
  // Referral codes

  /** The alphabet of the draws: `string.ascii_uppercase + string.digits`. */
  predicate IsCodeChar(c: char) {
    'A' <= c <= 'Z' || '0' <= c <= '9'
  }

  predicate ValidSuffix(s: string) {
    |s| == CodeSuffixLength && forall i :: 0 <= i < |s| ==> IsCodeChar(s[i])
  }

  predicate ValidCode(c: string) {
    |c| == |CodePrefix| + CodeSuffixLength && c[..|CodePrefix|] == CodePrefix && ValidSuffix(c[|CodePrefix|..])
  }

  predicate CodeInUse(users: map<int, UserRow>, code: string) {
    exists u :: u in users && users[u].referralCode == code
  }

  /** The invariant the UNIQUE constraint on `users.referral_code` and the
      generator keep: every code is well formed and no two users share one. */
  predicate CodesUnique(users: map<int, UserRow>) {
    && (forall u :: u in users ==> ValidCode(users[u].referralCode))
    && (forall u, v :: u in users && v in users && u != v ==> users[u].referralCode != users[v].referralCode)
  }

  /** The code `_generate_referral_code` returns when its random draws are
      `draws`: the first "FSR" + draw no user holds. `None` stands for
      running out of draws, where the source would keep looping. */
  function FirstFreeCode(users: map<int, UserRow>, draws: seq<string>): Option<string> {
    if draws == [] then None
    else if !CodeInUse(users, CodePrefix + draws[0]) then Some(CodePrefix + draws[0])
    else FirstFreeCode(users, draws[1..])
  }

  // ---------------------------------------------------------------------
  // Scanning `users` in primary-key order

  function FindCode(ids: seq<int>, users: map<int, UserRow>, code: string): (r: Option<int>)
    requires forall i :: 0 <= i < |ids| ==> ids[i] in users
    ensures r.Some? ==> r.value in ids && r.value in users && users[r.value].referralCode == code
    ensures r.None? ==> forall i :: 0 <= i < |ids| ==> users[ids[i]].referralCode != code
  {
    if ids == [] then None
    else if users[ids[0]].referralCode == code then Some(ids[0])
    else FindCode(ids[1..], users, code)
  }

  /** `SELECT user_id FROM users WHERE referral_code = ?`: the user holding `code`, if any. */
  function InviterOf(users: map<int, UserRow>, code: string): (r: Option<int>)
    ensures r.Some? <==> CodeInUse(users, code)
    ensures r.Some? ==> r.value in users && users[r.value].referralCode == code
  {
    var ids := AscendingIds(users.Keys);
    var r := FindCode(ids, users, code);
    if r.None? then NoMatchInScan(ids, users, code); r
    else
      var holder: int := r.value;
      assert holder in users && users[holder].referralCode == code;
      r
  }

  lemma NoMatchInScan(ids: seq<int>, users: map<int, UserRow>, code: string)
    requires forall x :: x in ids <==> x in users
    requires forall i :: 0 <= i < |ids| ==> ids[i] in users && users[ids[i]].referralCode != code
    ensures !CodeInUse(users, code)
  {
    forall u | u in users ensures users[u].referralCode != code {
      var i :| 0 <= i < |ids| && ids[i] == u;
    }
  }

  // ---------------------------------------------------------------------
  // Transitions: one per mutating method of `Database`

  function NewUserRow(username: Option<string>, firstName: Option<string>, lastName: Option<string>,
                      code: string, referredBy: Option<string>): UserRow
  {
    UserRow(username, firstName, lastName, code, referredBy, 0, 0, 0, false)
  }

  /** `INSERT OR IGNORE INTO users`: a taken user_id leaves the table as it was. */
  function InsertOrIgnore(users: map<int, UserRow>, userId: int, row: UserRow): map<int, UserRow> {
    if userId in users then users else users[userId := row]
  }

  /** The inviter's counters after one referral processed at registration. */
  function Credit(row: UserRow): UserRow {
    row.(referralCount := row.referralCount + 1, totalReferralXp := row.totalReferralXp + ReferralXp)
  }

  /** `_process_referral(code, new_user_id)`. */
  function ProcessReferralSpec(t: Tables, code: string, newUserId: int): Tables {
    match InviterOf(t.users, code)
    case None => t
    case Some(inviter) =>
      t.(users := t.users[inviter := Credit(t.users[inviter])],
         invites := t.invites + [Invite(inviter, newUserId, code, Joined)])
  }

  /** `add_user`: a code is generated first, the row is inserted unless the
      user_id is taken (INSERT OR IGNORE), and a truthy `referred_by` is
      processed whether or not the insert happened. The boolean is the
      method's return value; a user_id SQLite cannot bind makes the insert
      raise, which the method reports as false. */
  function AddUserSpec(t: Tables, userId: int, username: Option<string>, firstName: Option<string>,
                       lastName: Option<string>, referredBy: Option<string>, draws: seq<string>): (Tables, bool)
  {
    match FirstFreeCode(t.users, draws)
    case None => (t, false)
    case Some(code) =>
      if !InSqliteRange(userId) then (t, false)
      else
        var inserted := t.(users := InsertOrIgnore(t.users, userId, NewUserRow(username, firstName, lastName, code, referredBy)));
        var processed := if Truthy(referredBy) then ProcessReferralSpec(inserted, referredBy.value, userId) else inserted;
        (processed, true)
  }

  predicate HasInvite(invites: seq<Invite>, inviter: int, invitee: int) {
    exists i :: 0 <= i < |invites| && invites[i].inviter == inviter && invites[i].invitee == invitee
  }

  /** One more row: the pair has an invite iff it had one or the new row is one. */
  lemma HasInviteSnoc(invites: seq<Invite>, x: Invite, inviter: int, invitee: int)
    ensures HasInvite(invites + [x], inviter, invitee)
            <==> HasInvite(invites, inviter, invitee) || (x.inviter == inviter && x.invitee == invitee)
  {
    var s := invites + [x];
    if HasInvite(s, inviter, invitee) && !(x.inviter == inviter && x.invitee == invitee) {
      var k :| 0 <= k < |s| && s[k].inviter == inviter && s[k].invitee == invitee;
      assert s[k] == invites[k];
    }
    if HasInvite(invites, inviter, invitee) {
      var k :| 0 <= k < |invites| && invites[k].inviter == inviter && invites[k].invitee == invitee;
      assert s[k] == invites[k];
    }
    if x.inviter == inviter && x.invitee == invitee {
      assert s[|invites|] == x;
    }
  }

  /** `add_ticket_for_referral_start`: check for an invite row of the pair,
      then insert one with an empty code and bump the inviter's counter
      (an UPDATE that matches no row when the inviter is not registered).
      Ids SQLite cannot bind make the first query raise: false, no change. */
  function AddTicketSpec(t: Tables, inviterId: int, inviteeId: int): (Tables, bool) {
    if !InSqliteRange(inviterId) || !InSqliteRange(inviteeId) then (t, false)
    else if HasInvite(t.invites, inviterId, inviteeId) then (t, false)
    else
      var users :=
        if inviterId in t.users
        then t.users[inviterId := t.users[inviterId].(referralCount := t.users[inviterId].referralCount + 1)]
        else t.users;
      (t.(invites := t.invites + [Invite(inviterId, inviteeId, "", Joined)], users := users), true)
  }

  /** `set_subscription_status`: insert or update the user's one row. */
  function SetSubscriptionSpec(t: Tables, userId: int, subscribed: bool): Tables {
    t.(subscriptions := t.subscriptions[userId := subscribed])
  }

  /** `add_referral_ticket`: insert the pair unless it is present. */
  function AddReferralTicketSpec(t: Tables, userId: int, referralId: int): Tables {
    if (userId, referralId) in t.referralTickets then t
    else t.(referralTickets := t.referralTickets + {(userId, referralId)})
  }

  /** A user row after one more completed task. */
  function AfterTask(row: UserRow): UserRow {
    var done := row.tasksCompleted + 1;
    row.(tasksCompleted := done, giveawayCompleted := if done >= TasksForGiveaway then true else row.giveawayCompleted)
  }

  /** `complete_task`: only an existing user is touched. */
  function CompleteTaskSpec(t: Tables, userId: int): Tables {
    if userId in t.users then t.(users := t.users[userId := AfterTask(t.users[userId])]) else t
  }

  /** `_init_giveaway_prizes`: seed the catalogue only when it is empty. */
  function InitPrizesSpec(t: Tables): Tables {
    if |t.prizes| == 0 then t.(prizes := SeedPrizes()) else t
  }

  // ---------------------------------------------------------------------
  // Queries

  /** `COUNT(*) FROM referral_invites WHERE inviter_id = ? AND status = 'joined'`. */
  function JoinedCount(invites: seq<Invite>, userId: int): nat {
    if invites == [] then 0
    else JoinedCount(invites[..|invites| - 1], userId)
         + (if invites[|invites| - 1].inviter == userId && invites[|invites| - 1].status == Joined then 1 else 0)
  }

  /** The joined invites of `userId` that carry a referral code: those
      written by `_process_referral`, the only path that also adds XP. */
  function CodedJoinedCount(invites: seq<Invite>, userId: int): nat {
    if invites == [] then 0
    else CodedJoinedCount(invites[..|invites| - 1], userId)
         + (var x := invites[|invites| - 1]; if x.inviter == userId && x.status == Joined && x.code != "" then 1 else 0)
  }

  datatype ReferralInfo = ReferralInfo(referralCode: string, referralCount: int, totalReferralXp: int, successfulInvites: nat)

  /** `get_user_referral_info`. */
  function ReferralInfoOf(t: Tables, userId: int): Option<ReferralInfo> {
    if userId in t.users then
      var row := t.users[userId];
      Some(ReferralInfo(row.referralCode, row.referralCount, row.totalReferralXp, JoinedCount(t.invites, userId)))
    else None
  }

  /** `get_referral_link`. */
  function ReferralLinkOf(users: map<int, UserRow>, userId: int): Option<string> {
    if userId in users then Some(LinkPrefix + users[userId].referralCode) else None
  }

  datatype UserSummary = UserSummary(userId: int, username: Option<string>, firstName: Option<string>,
                                     lastName: Option<string>, referralCode: string)

  /** `get_user_by_referral_code`. */
  function UserByCode(users: map<int, UserRow>, code: string): Option<UserSummary> {
    match InviterOf(users, code)
    case None => None
    case Some(u) =>
      var row := users[u];
      Some(UserSummary(u, row.username, row.firstName, row.lastName, row.referralCode))
  }

  function ReferralTicketsOf(refs: set<(int, int)>, userId: int): set<(int, int)> {
    set p | p in refs && p.0 == userId
  }

  /** `get_user_tickets`: one for a true subscription flag plus one per
      `tickets_referral` row of the user. */
  function TicketsOf(t: Tables, userId: int): nat {
    (if userId in t.subscriptions && t.subscriptions[userId] then 1 else 0)
    + |ReferralTicketsOf(t.referralTickets, userId)|
  }

  datatype TaskStatuses = TaskStatuses(task1Done: bool, task2Done: bool)

  /** `get_task_statuses`: task 1 is a `giveaway_participants` row, task 2 a joined invite. */
  function TaskStatusesOf(t: Tables, userId: int): TaskStatuses {
    TaskStatuses(userId in t.participants, JoinedCount(t.invites, userId) > 0)
  }

  function PrizeKey(p: Prize): Key {
    Key(p.value, 0)
  }

  /** `SELECT ... FROM giveaway_prizes ORDER BY value DESC`; ties keep table order. */
  function PrizesByValue(prizes: seq<Prize>): seq<Prize> {
    SortDesc(prizes, PrizeKey)
  }

  // ---------------------------------------------------------------------
  // The counter invariant

  /** `referral_count` and `total_referral_xp` agree with the invite rows,
      and every invite row's inviter is a registered user. */
  ghost predicate CountersAgree(t: Tables) {
    && (forall u :: u in t.users ==> t.users[u].referralCount == JoinedCount(t.invites, u))
    && (forall u :: u in t.users ==> t.users[u].totalReferralXp == ReferralXp * CodedJoinedCount(t.invites, u))
    && (forall i :: 0 <= i < |t.invites| ==> t.invites[i].inviter in t.users)
  }
}
