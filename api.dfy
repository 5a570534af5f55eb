/** The HTTP side of the ledger: the early-return validation of
    `upload_photo` and `create_prepared_message`, the `photo_uploads` rows
    that upload and delete change, the "any channel" membership loop, and
    the ticket count of the tickets endpoint. */
module Api {
  import opened Common
  import opened LedgerSpec
  import LedgerProps

  // ---------------------------------------------------------------------
  // Request bodies

  /** A JSON value inside a request body. Arrays and objects are kept only
      as their Python `repr`, which is all the endpoints use of them. */
  datatype Json = JNull | JBool(b: bool) | JInt(i: int) | JStr(s: string) | JComposite(repr: string)

  /** What `request.get_json()` gives: it raises on a body that is not JSON
      (`Unreadable`), or yields `None` or an object. */
  datatype Body = Unreadable | NullBody | Object(fields: map<string, Json>)

  /** Python's `not data` for a parsed body. */
  predicate NoData(body: Body) {
    body.NullBody? || (body.Object? && body.fields == map[])
  }

  /** Python's `str(v)`, as an f-string renders it. */
  function PyStr(v: Json): string {
    match v
    case JNull => "None"
    case JBool(b) => if b then "True" else "False"
    case JInt(i) => IntToString(i)
    case JStr(s) => s
    case JComposite(repr) => repr
  }

  /** Why a request is answered 400. */
  datatype Reason = NoDataProvided | MissingField(field: string) | NotImageOrVideo | TooLarge

  /** The first of `required` that `data` lacks, in list order. */
  function FirstMissing(required: seq<string>, data: map<string, Json>): (r: Option<string>)
    ensures r.None? <==> forall i :: 0 <= i < |required| ==> required[i] in data
    ensures r.Some? ==> exists i :: 0 <= i < |required| && required[i] == r.value && r.value !in data
                                    && forall j :: 0 <= j < i ==> required[j] in data
  {
    if required == [] then None
    else if required[0] !in data then Some(required[0])
    else
      var r := FirstMissing(required[1..], data);
      if r.Some? then
        var i :| 0 <= i < |required[1..]| && required[1..][i] == r.value && r.value !in data
                 && forall j :: 0 <= j < i ==> required[1..][j] in data;
        assert required[i + 1] == r.value;
        assert forall j :: 1 <= j < i + 1 ==> required[j] == required[1..][j - 1];
        r
      else
        assert forall i :: 1 <= i < |required| ==> required[i] == required[1..][i - 1];
        r
  }

  // ---------------------------------------------------------------------
  // upload_photo

  const UploadFields := ["id", "userId", "category", "fileId", "fileName", "fileSize", "mimeType", "uploadDate"]

  /** The size limit, 10 MiB; the check is a strict `>`. */
  const MaxFileSize := 10 * 1024 * 1024

  /** How validation ends: the request goes on to the insert, is answered
      400 with a reason, or raises (500). */
  datatype Verdict = Pass | Reject(reason: Reason) | Raise

  /** The checks of `upload_photo`, in source order. A `mimeType` that is
      not a string has no `startswith` and a `fileSize` that is not a
      number cannot be compared with an int: both raise. */
  function UploadVerdict(body: Body): Verdict {
    if body.Unreadable? then Raise
    else if NoData(body) then Reject(NoDataProvided)
    else
      var data := body.fields;
      match FirstMissing(UploadFields, data)
      case Some(field) => Reject(MissingField(field))
      case None =>
        assert UploadFields[5] in data && UploadFields[6] in data;
        match data["mimeType"]
        case JStr(mime) =>
          if !(StartsWith(mime, "image/") || StartsWith(mime, "video/")) then Reject(NotImageOrVideo)
          else (
            match data["fileSize"]
            case JInt(n) => if n > MaxFileSize then Reject(TooLarge) else Pass
            case JBool(b) => Pass
            case _ => Raise)
        case _ => Raise
  }

  predicate HasAllUploadFields(body: Body) {
    body.Object? && forall f :: f in UploadFields ==> f in body.fields
  }

  predicate MediaType(v: Json) {
    v.JStr? && (StartsWith(v.s, "image/") || StartsWith(v.s, "video/"))
  }

  /** The order of the checks, stated case by case: the first failing check
      decides the answer. */
  lemma UploadVerdictOrder(body: Body)
    ensures UploadVerdict(body) == Reject(NoDataProvided) <==> NoData(body)
    ensures forall f :: UploadVerdict(body) == Reject(MissingField(f)) <==>
      && body.Object? && body.fields != map[]
      && exists i :: 0 <= i < |UploadFields| && UploadFields[i] == f && f !in body.fields
                     && forall j :: 0 <= j < i ==> UploadFields[j] in body.fields
    ensures UploadVerdict(body) == Reject(NotImageOrVideo) <==>
      HasAllUploadFields(body) && body.fields["mimeType"].JStr? && !MediaType(body.fields["mimeType"])
    ensures UploadVerdict(body) == Reject(TooLarge) <==>
      && HasAllUploadFields(body) && MediaType(body.fields["mimeType"])
      && body.fields["fileSize"].JInt? && body.fields["fileSize"].i > MaxFileSize
    ensures UploadVerdict(body) == Pass <==>
      && HasAllUploadFields(body) && MediaType(body.fields["mimeType"])
      && (body.fields["fileSize"].JBool? || (body.fields["fileSize"].JInt? && body.fields["fileSize"].i <= MaxFileSize))
  {
    if body.Object? && body.fields != map[] {
      var data := body.fields;
      var r := FirstMissing(UploadFields, data);
      assert HasAllUploadFields(body) <==> r.None?;
      if r.Some? {
        forall f | exists i :: 0 <= i < |UploadFields| && UploadFields[i] == f && f !in data
                               && forall j :: 0 <= j < i ==> UploadFields[j] in data
          ensures f == r.value
        {
          var i :| 0 <= i < |UploadFields| && UploadFields[i] == f && f !in data
                   && forall j :: 0 <= j < i ==> UploadFields[j] in data;
          var k :| 0 <= k < |UploadFields| && UploadFields[k] == r.value && r.value !in data
                   && forall j :: 0 <= j < k ==> UploadFields[j] in data;
          assert !(i < k) && !(k < i);
        }
      }
    }
  }

  /** The limit is inclusive: exactly 10 MiB passes, one byte more does not. */
  lemma SizeLimitBoundary(fields: map<string, Json>)
    requires forall f :: f in UploadFields ==> f in fields
    requires fields["mimeType"] == JStr("image/png")
    ensures UploadVerdict(Object(fields["fileSize" := JInt(10485760)])) == Pass
    ensures UploadVerdict(Object(fields["fileSize" := JInt(10485761)])) == Reject(TooLarge)
  {
    assert StartsWith("image/png", "image/");
    UploadVerdictOrder(Object(fields["fileSize" := JInt(10485760)]));
    UploadVerdictOrder(Object(fields["fileSize" := JInt(10485761)]));
  }

  // ---------------------------------------------------------------------
  // photo_uploads

  /** A stored SQLite value. */
  datatype Cell = Null | Int(i: int) | Text(s: string)

  /** A row of `photo_uploads` as `init_photo_uploads_table` defines it. */
  datatype PhotoRow = PhotoRow(id: Cell, userId: Cell, category: Cell, fileId: Cell, fileName: Cell,
                               fileSize: Cell, mimeType: Cell, uploadDate: Cell, description: Cell, fileData: Cell)

  /** Binding a parameter: Python's bool is an int, an int must fit in 64
      bits, and arrays or objects cannot be bound at all. */
  function Bind(v: Json): Option<Cell> {
    match v
    case JNull => Some(Null)
    case JBool(b) => Some(Int(if b then 1 else 0))
    case JInt(i) => if InSqliteRange(i) then Some(Int(i)) else None
    case JStr(s) => Some(Text(s))
    case JComposite(_) => None
  }

  /** TEXT affinity: a number stored in a TEXT column is stored as its text. */
  function AsText(c: Cell): (r: Cell)
    ensures r.Null? <==> c.Null?
    ensures !r.Int?
  {
    match c
    case Int(i) => Text(IntToString(i))
    case _ => c
  }

  function Field(data: map<string, Json>, key: string, default: Json): Json {
    if key in data then data[key] else default
  }

  /** The parameters of the INSERT, bound and stored; `None` when one cannot be bound. */
  function BindRow(data: map<string, Json>): Option<PhotoRow>
    requires forall f :: f in UploadFields ==> f in data
  {
    var values := [data["id"], data["userId"], data["category"], data["fileId"], data["fileName"],
                   data["fileSize"], data["mimeType"], data["uploadDate"],
                   Field(data, "description", JNull), Field(data, "base64_data", JStr(""))];
    if exists k :: 0 <= k < |values| && Bind(values[k]).None? then None
    else
      var c := seq(|values|, k requires 0 <= k < |values| => Bind(values[k]).value);
      Some(PhotoRow(AsText(c[0]), AsText(c[1]), AsText(c[2]), AsText(c[3]), AsText(c[4]),
                    c[5], AsText(c[6]), AsText(c[7]), AsText(c[8]), AsText(c[9])))
  }

  /** The NOT NULL columns of `photo_uploads`. The TEXT primary key `id`
      is not one of them: SQLite admits NULL there. */
  predicate NotNullHolds(r: PhotoRow) {
    && !r.userId.Null? && !r.category.Null? && !r.fileId.Null? && !r.fileName.Null?
    && !r.fileSize.Null? && !r.mimeType.Null? && !r.uploadDate.Null?
  }

  predicate IdTaken(rows: seq<PhotoRow>, id: Cell) {
    exists k :: 0 <= k < |rows| && !rows[k].id.Null? && rows[k].id == id
  }

  /** PRIMARY KEY on `id`: no two rows share a non-NULL id. */
  predicate IdsUnique(rows: seq<PhotoRow>) {
    forall a, b :: 0 <= a < b < |rows| && !rows[a].id.Null? ==> rows[a].id != rows[b].id
  }

  /** `upload_photo`: validation, then the INSERT, which raises on an
      unbindable value, a NULL in a NOT NULL column, or a taken id. The
      status is 200, 400 or 500. */
  function UploadSpec(rows: seq<PhotoRow>, body: Body): (seq<PhotoRow>, int) {
    match UploadVerdict(body)
    case Raise => (rows, 500)
    case Reject(_) => (rows, 400)
    case Pass =>
      match BindRow(body.fields)
      case None => (rows, 500)
      case Some(row) =>
        if !NotNullHolds(row) || IdTaken(rows, row.id) then (rows, 500)
        else (rows + [row], 200)
  }

  /** `delete_photo`: remove the rows whose id is the path segment. */
  function WithoutId(rows: seq<PhotoRow>, photoId: string): (r: seq<PhotoRow>)
    ensures |r| <= |rows|
    ensures forall k :: 0 <= k < |r| ==> r[k].id != Text(photoId) && r[k] in rows
    ensures |r| == |rows| <==> forall k :: 0 <= k < |rows| ==> rows[k].id != Text(photoId)
  {
    if rows == [] then []
    else
      var rest := WithoutId(rows[1..], photoId);
      assert forall k :: 1 <= k < |rows| ==> rows[k] == rows[1..][k - 1];
      if rows[0].id == Text(photoId) then rest else [rows[0]] + rest
  }

  /** Deleting by id removes every row with that id and keeps every other
      row, as often as it occurred. */
  lemma {:induction false} WithoutIdCounts(rows: seq<PhotoRow>, photoId: string)
    ensures forall x :: multiset(WithoutId(rows, photoId))[x] == (if x.id == Text(photoId) then 0 else multiset(rows)[x])
  {
    if rows != [] {
      WithoutIdCounts(rows[1..], photoId);
      assert rows == [rows[0]] + rows[1..];
      var rest := WithoutId(rows[1..], photoId);
      if rows[0].id != Text(photoId) {
        assert WithoutId(rows, photoId) == [rows[0]] + rest;
      }
    }
  }

  /** Removing rows keeps the primary key: what is left keeps its order. */
  lemma {:induction false} WithoutIdKeepsIdsUnique(rows: seq<PhotoRow>, photoId: string)
    requires IdsUnique(rows)
    ensures IdsUnique(WithoutId(rows, photoId))
  {
    if rows != [] {
      var tail := rows[1..];
      assert IdsUnique(tail) by {
        forall a, b | 0 <= a < b < |tail| && !tail[a].id.Null? ensures tail[a].id != tail[b].id {
          assert tail[a] == rows[a + 1] && tail[b] == rows[b + 1];
        }
      }
      WithoutIdKeepsIdsUnique(tail, photoId);
      var rest := WithoutId(tail, photoId);
      if rows[0].id != Text(photoId) {
        var r := [rows[0]] + rest;
        forall a, b | 0 <= a < b < |r| && !r[a].id.Null? ensures r[a].id != r[b].id {
          if a == 0 {
            assert r[b] == rest[b - 1] && rest[b - 1] in tail;
            var j :| 0 <= j < |tail| && tail[j] == rest[b - 1];
            assert rows[j + 1] == tail[j];
          } else {
            assert r[a] == rest[a - 1] && r[b] == rest[b - 1];
          }
        }
      }
    }
  }

  function DeleteSpec(rows: seq<PhotoRow>, photoId: string): (seq<PhotoRow>, int) {
    var kept := WithoutId(rows, photoId);
    (kept, if |kept| == |rows| then 404 else 200)
  }

  /** Only a request that passes every check adds a row, exactly one, and
      it is answered 200; every other request leaves the table alone. */
  lemma UploadInsertsOnlyValid(rows: seq<PhotoRow>, body: Body)
    ensures var (after, status) := UploadSpec(rows, body);
      && (status == 200 <==> after != rows)
      && (status == 200 ==> UploadVerdict(body) == Pass && |after| == |rows| + 1 && after[..|rows|] == rows)
      && (status != 200 ==> after == rows)
      && (status == 400 <==> UploadVerdict(body).Reject?)
  {
    var (after, status) := UploadSpec(rows, body);
    if status == 200 {
      assert |after| == |rows| + 1;
      assert after[..|rows|] == rows;
    }
  }

  /** The PRIMARY KEY survives every upload. */
  lemma UploadKeepsIdsUnique(rows: seq<PhotoRow>, body: Body)
    requires IdsUnique(rows)
    ensures IdsUnique(UploadSpec(rows, body).0)
  {
    var (after, status) := UploadSpec(rows, body);
    if status == 200 {
      var row := after[|rows|];
      forall a, b | 0 <= a < b < |after| && !after[a].id.Null? ensures after[a].id != after[b].id {
        if b == |rows| {
          assert after[a] == rows[a];
          assert !IdTaken(rows, row.id);
        } else {
          assert after[a] == rows[a] && after[b] == rows[b];
        }
      }
    }
  }

  /** 404 exactly when no row has the id, and then nothing changes;
      afterwards no row has it, so a second delete is a 404. */
  lemma DeleteNotFoundIff(rows: seq<PhotoRow>, photoId: string)
    ensures var (after, status) := DeleteSpec(rows, photoId);
      && (status == 404 <==> forall k :: 0 <= k < |rows| ==> rows[k].id != Text(photoId))
      && (status == 404 ==> after == rows)
      && (forall k :: 0 <= k < |after| ==> after[k].id != Text(photoId))
      && (forall k :: 0 <= k < |rows| && rows[k].id != Text(photoId) ==> rows[k] in after)
      && DeleteSpec(after, photoId).1 == 404
  {
    var (after, status) := DeleteSpec(rows, photoId);
    if status == 404 {
      WithoutIdOfAbsent(rows, photoId);
    }
    WithoutIdCounts(rows, photoId);
    forall k | 0 <= k < |rows| && rows[k].id != Text(photoId) ensures rows[k] in after {
      assert rows[k] in multiset(rows);
      assert multiset(after)[rows[k]] == multiset(rows)[rows[k]];
    }
  }

  lemma {:induction false} WithoutIdOfAbsent(rows: seq<PhotoRow>, photoId: string)
    requires forall k :: 0 <= k < |rows| ==> rows[k].id != Text(photoId)
    ensures WithoutId(rows, photoId) == rows
  {
    if rows != [] {
      WithoutIdOfAbsent(rows[1..], photoId);
    }
  }

  /** An upload with a string id can be deleted by that id. */
  lemma UploadThenDelete(rows: seq<PhotoRow>, body: Body, photoId: string)
    requires UploadSpec(rows, body).1 == 200
    requires body.Object? && "id" in body.fields && body.fields["id"] == JStr(photoId)
    ensures DeleteSpec(UploadSpec(rows, body).0, photoId).1 == 200
  {
    var after := UploadSpec(rows, body).0;
    UploadInsertsOnlyValid(rows, body);
    var row := BindRow(body.fields).value;
    assert after[|rows|] == row;
    assert row.id == Text(photoId);
  }

  /** The `photo_uploads` table and the two mutating endpoints. */
  class PhotoStore {
    var rows: seq<PhotoRow>

    constructor ()
      ensures rows == []
    {
      rows := [];
    }

    method Upload(body: Body) returns (status: int)
      modifies this
      ensures (rows, status) == UploadSpec(old(rows), body)
      ensures old(IdsUnique(rows)) ==> IdsUnique(rows)
    {
      if IdsUnique(rows) {
        UploadKeepsIdsUnique(rows, body);
      }
      var verdict := UploadVerdict(body);
      if verdict.Raise? {
        return 500;
      }
      if verdict.Reject? {
        return 400;
      }
      var row := BindRow(body.fields);
      if row.None? || !NotNullHolds(row.value) || IdTaken(rows, row.value.id) {
        return 500;
      }
      rows := rows + [row.value];
      return 200;
    }

    method Delete(photoId: string) returns (status: int)
      modifies this
      ensures (rows, status) == DeleteSpec(old(rows), photoId)
      ensures status == 404 <==> forall k :: 0 <= k < |old(rows)| ==> old(rows)[k].id != Text(photoId)
      ensures old(IdsUnique(rows)) ==> IdsUnique(rows)
    {
      DeleteNotFoundIff(rows, photoId);
      if IdsUnique(rows) {
        WithoutIdKeepsIdsUnique(rows, photoId);
      }
      var kept := WithoutId(rows, photoId);
      if |kept| == |rows| {
        return 404;
      }
      rows := kept;
      return 200;
    }
  }

  // ---------------------------------------------------------------------
  // create_prepared_message

  const MessageFields := ["title", "description", "message_text", "user_id"]

  datatype Prepared = MessageId(id: string) | Rejected(reason: Reason) | Failed

  /** `create_prepared_message` with `now` the integer timestamp. */
  function CreatePreparedMessage(body: Body, now: int): Prepared {
    if body.Unreadable? then Failed
    else if NoData(body) then Rejected(NoDataProvided)
    else
      match FirstMissing(MessageFields, body.fields)
      case Some(field) => Rejected(MissingField(field))
      case None =>
        assert MessageFields[3] in body.fields;
        MessageId("invite_" + PyStr(body.fields["user_id"]) + "_" + IntToString(now))
  }

  /** The text before the first `c` in `s`, and the text after it. */
  function SplitAt(s: string, c: char): (string, string) {
    if s == [] then ([], [])
    else if s[0] == c then ([], s[1..])
    else var (a, b) := SplitAt(s[1..], c); ([s[0]] + a, b)
  }

  lemma {:induction false} SplitAtFirst(a: string, c: char, b: string)
    requires c !in a
    ensures SplitAt(a + [c] + b, c) == (a, b)
  {
    if a == [] {
      assert a + [c] + b == [c] + b;
    } else {
      assert (a + [c] + b)[1..] == a[1..] + [c] + b;
      SplitAtFirst(a[1..], c, b);
      assert [a[0]] + a[1..] == a;
    }
  }

  /** With all four fields present the message id is "invite_", the user
      id, "_" and the timestamp; for an integer user id both numbers can be
      read back from it. */
  lemma PreparedMessageRoundTrip(fields: map<string, Json>, userId: int, now: int)
    requires forall f :: f in MessageFields ==> f in fields
    requires fields["user_id"] == JInt(userId)
    ensures CreatePreparedMessage(Object(fields), now).MessageId?
    ensures var id := CreatePreparedMessage(Object(fields), now).id;
      && StartsWith(id, "invite_")
      && var (user, stamp) := SplitAt(id[|"invite_"|..], '_');
         ParseInt(user) == Some(userId) && ParseInt(stamp) == Some(now)
  {
    assert fields != map[] by { assert "user_id" in fields; }
    var id := CreatePreparedMessage(Object(fields), now).id;
    var user := IntToString(userId);
    var stamp := IntToString(now);
    assert id == "invite_" + user + "_" + stamp;
    assert id[..|"invite_"|] == "invite_";
    assert id[|"invite_"|..] == user + ['_'] + stamp;
    IntToStringHasNoUnderscore(userId);
    SplitAtFirst(user, '_', stamp);
    ParseIntToString(userId);
    ParseIntToString(now);
  }

  /** Any missing field of the four is reported, the first in list order. */
  lemma PreparedMessageRequiresFields(fields: map<string, Json>, now: int)
    requires fields != map[]
    ensures CreatePreparedMessage(Object(fields), now).MessageId? <==> forall f :: f in MessageFields ==> f in fields
    ensures CreatePreparedMessage(Object(fields), now).Rejected? ==>
      exists i :: 0 <= i < |MessageFields|
        && CreatePreparedMessage(Object(fields), now).reason == MissingField(MessageFields[i])
        && MessageFields[i] !in fields && forall j :: 0 <= j < i ==> MessageFields[j] in fields
  {
  }

  // ---------------------------------------------------------------------
  // Channel membership and the tickets endpoint

  /** One `get_chat_member` call: the status it reports, or an exception. */
  datatype Probe = Raised | Status(status: string)

  predicate IsMember(p: Probe) {
    p.Status? && (p.status == "member" || p.status == "administrator" || p.status == "creator")
  }

  /** The loop of `check_subscription` and of the tickets endpoint: ask the
      channels in order, skip a call that raises, stop at the first member
      status. `asked` is the number of channels asked. */
  method CheckMembership(results: seq<Probe>) returns (subscribed: bool, asked: nat)
    ensures subscribed <==> exists i :: 0 <= i < |results| && IsMember(results[i])
    ensures asked <= |results|
    ensures subscribed ==> asked >= 1 && IsMember(results[asked - 1])
    ensures !subscribed ==> asked == |results|
    ensures forall i :: 0 <= i < asked && !(subscribed && i == asked - 1) ==> !IsMember(results[i])
  {
    subscribed := false;
    asked := 0;
    while asked < |results|
      invariant 0 <= asked <= |results|
      invariant forall i :: 0 <= i < asked ==> !IsMember(results[i])
    {
      var probe := results[asked];
      asked := asked + 1;
      if probe.Status? && (probe.status == "member" || probe.status == "administrator" || probe.status == "creator") {
        subscribed := true;
        return;
      }
    }
  }

  /** The answer of the tickets endpoint: 200 with these values, or 500. */
  datatype TicketsReply = TicketsReply(tickets: int, subscribed: bool, username: Option<string>)

  /** The ticket formula: one for a subscription plus `successful_invites`,
      or nothing for the invites when there is no referral info. */
  function TicketsFormula(subscribed: bool, info: Option<ReferralInfo>): int {
    (if subscribed then 1 else 0) + (if info.Some? then info.value.successfulInvites else 0)
  }

  /** `GET /api/user/<user_id>/tickets`. `None` is the 500 answer: the path
      segment is not an integer, or the user is unknown, where
      `get_user_stats` returns `None` and `.get` on it raises. */
  function UserTicketsEndpoint(t: Tables, userIdText: string, results: seq<Probe>): Option<TicketsReply> {
    match ParseInt(userIdText)
    case None => None
    case Some(userId) =>
      var subscribed := exists i :: 0 <= i < |results| && IsMember(results[i]);
      var info := if InSqliteRange(userId) then ReferralInfoOf(t, userId) else None;
      if InSqliteRange(userId) && userId in t.users then
        Some(TicketsReply(TicketsFormula(subscribed, info), subscribed, t.users[userId].username))
      else None
  }

  /** The endpoint answers only for a registered user, and then counts the
      joined invites of the user; the "no referral info" branch of the
      formula is never the one that answers. */
  lemma TicketsEndpointCounts(t: Tables, userId: int, results: seq<Probe>)
    ensures var reply := UserTicketsEndpoint(t, IntToString(userId), results);
      && (reply.Some? <==> InSqliteRange(userId) && userId in t.users)
      && (reply.Some? ==>
            && reply.value.subscribed == (exists i :: 0 <= i < |results| && IsMember(results[i]))
            && reply.value.tickets == (if reply.value.subscribed then 1 else 0) + JoinedCount(t.invites, userId))
  {
    ParseIntToString(userId);
  }

  /** The endpoint and `get_user_tickets` count different tables: the
      start-link credit raises the endpoint's count and not the ledger's,
      `add_referral_ticket` the ledger's and not the endpoint's. */
  lemma EndpointAndLedgerDisagree(t: Tables, inviterId: int, inviteeId: int, results: seq<Probe>)
    requires InSqliteRange(inviterId) && InSqliteRange(inviteeId) && inviterId in t.users
    requires !HasInvite(t.invites, inviterId, inviteeId)
    requires (inviterId, inviteeId) !in t.referralTickets
    ensures var t2 := AddTicketSpec(t, inviterId, inviteeId).0;
      && UserTicketsEndpoint(t, IntToString(inviterId), results).Some?
      && UserTicketsEndpoint(t2, IntToString(inviterId), results).Some?
      && UserTicketsEndpoint(t2, IntToString(inviterId), results).value.tickets
         == UserTicketsEndpoint(t, IntToString(inviterId), results).value.tickets + 1
      && TicketsOf(t2, inviterId) == TicketsOf(t, inviterId)
    ensures var t3 := AddReferralTicketSpec(t, inviterId, inviteeId);
      && UserTicketsEndpoint(t3, IntToString(inviterId), results) == UserTicketsEndpoint(t, IntToString(inviterId), results)
      && TicketsOf(t3, inviterId) == TicketsOf(t, inviterId) + 1
  {
    var t2 := AddTicketSpec(t, inviterId, inviteeId).0;
    LedgerProps.AddTicketFresh(t, inviterId, inviteeId);
    TicketsEndpointCounts(t, inviterId, results);
    TicketsEndpointCounts(t2, inviterId, results);
    LedgerProps.AddReferralTicketIdempotent(t, inviterId, inviteeId);
    ParseIntToString(inviterId);
  }

  // ---------------------------------------------------------------------
  // POST /api/add-ticket-for-referral

  /** Python's `int(v)` on a JSON value: integers stay, booleans are 0 and 1,
      strings are parsed, and `None` raises. Arrays and objects raise as well. */
  function PyInt(v: Json): Option<int> {
    match v
    case JNull => None
    case JBool(b) => Some(if b then 1 else 0)
    case JInt(i) => Some(i)
    case JStr(s) => ParseInt(s)
    case JComposite(_) => None
  }

  /** The answer of the add-ticket endpoint: 200 with these values, or 500. */
  datatype AddTicketReply = AddTicketReply(success: bool, tickets: nat)

  /** `POST /api/add-ticket-for-referral`: both ids go through `int()`, then
      the start-link credit runs and `get_user_tickets` of the inviter is
      reported. The second part of the pair is `None` for the 500 answer: no
      JSON object, or an id `int()` rejects (a missing one is `None`). An id
      SQLite cannot bind makes `get_user_tickets` fall back to 0. */
  function AddTicketEndpoint(t: Tables, body: Body): (Tables, Option<AddTicketReply>) {
    if !body.Object? then (t, None)
    else
      var inviter := PyInt(Field(body.fields, "inviter_id", JNull));
      var invitee := PyInt(Field(body.fields, "invitee_id", JNull));
      if inviter.None? || invitee.None? then (t, None)
      else
        var (t2, ok) := AddTicketSpec(t, inviter.value, invitee.value);
        (t2, Some(AddTicketReply(ok, if InSqliteRange(inviter.value) then TicketsOf(t2, inviter.value) else 0)))
  }

  /** The endpoint answers 500 exactly when the body or an id does not
      convert, and then changes nothing. Otherwise it performs the start-link
      credit, and the tickets it reports are the inviter's ledger tickets
      from before the call: the credit it just made never shows in them. */
  lemma AddTicketEndpointReply(t: Tables, body: Body)
    ensures var (t2, reply) := AddTicketEndpoint(t, body);
      && (reply.None? <==>
            || !body.Object?
            || PyInt(Field(body.fields, "inviter_id", JNull)).None?
            || PyInt(Field(body.fields, "invitee_id", JNull)).None?)
      && (reply.None? ==> t2 == t)
      && (reply.Some? ==>
            var inviter := PyInt(body.fields["inviter_id"]).value;
            var invitee := PyInt(body.fields["invitee_id"]).value;
            && (t2, reply.value.success) == AddTicketSpec(t, inviter, invitee)
            && reply.value.tickets == (if InSqliteRange(inviter) then TicketsOf(t, inviter) else 0))
  {
    var (t2, reply) := AddTicketEndpoint(t, body);
    if reply.Some? {
      var inviter := PyInt(body.fields["inviter_id"]).value;
      var invitee := PyInt(body.fields["invitee_id"]).value;
      LedgerProps.AddTicketLeavesLedgerTickets(t, inviter, invitee);
    }
  }

  /** With integer ids, written as numbers or as decimal strings, a first
      start-link credit for the pair succeeds and a repeat of
      the same request reports failure; both report the same tickets. */
  lemma AddTicketEndpointOnce(t: Tables, inviterId: int, inviteeId: int, asText: bool)
    requires InSqliteRange(inviterId) && InSqliteRange(inviteeId)
    requires !HasInvite(t.invites, inviterId, inviteeId)
    ensures var body := Object(map["inviter_id" := if asText then JStr(IntToString(inviterId)) else JInt(inviterId),
                                   "invitee_id" := JInt(inviteeId)]);
      var (t2, reply) := AddTicketEndpoint(t, body);
      var (t3, reply2) := AddTicketEndpoint(t2, body);
      && reply == Some(AddTicketReply(true, TicketsOf(t, inviterId)))
      && reply2 == Some(AddTicketReply(false, TicketsOf(t, inviterId)))
      && t3 == t2
      && t2.invites == t.invites + [Invite(inviterId, inviteeId, "", Joined)]
  {
    var body := Object(map["inviter_id" := if asText then JStr(IntToString(inviterId)) else JInt(inviterId),
                           "invitee_id" := JInt(inviteeId)]);
    ParseIntToString(inviterId);
    assert Field(body.fields, "inviter_id", JNull) == body.fields["inviter_id"];
    assert Field(body.fields, "invitee_id", JNull) == JInt(inviteeId);
    assert PyInt(body.fields["inviter_id"]) == Some(inviterId);
    var t2 := AddTicketSpec(t, inviterId, inviteeId).0;
    LedgerProps.AddTicketFresh(t, inviterId, inviteeId);
    LedgerProps.AddTicketOnce(t, inviterId, inviteeId);
    LedgerProps.AddTicketLeavesLedgerTickets(t, inviterId, inviteeId);
    AddTicketEndpointOfIds(t, body, inviterId, inviteeId);
    AddTicketEndpointOfIds(t2, body, inviterId, inviteeId);
  }

  lemma AddTicketEndpointOfIds(t: Tables, body: Body, inviterId: int, inviteeId: int)
    requires body.Object? && InSqliteRange(inviterId)
    requires PyInt(Field(body.fields, "inviter_id", JNull)) == Some(inviterId)
    requires PyInt(Field(body.fields, "invitee_id", JNull)) == Some(inviteeId)
    ensures AddTicketEndpoint(t, body)
            == (AddTicketSpec(t, inviterId, inviteeId).0,
                Some(AddTicketReply(AddTicketSpec(t, inviterId, inviteeId).1,
                                    TicketsOf(AddTicketSpec(t, inviterId, inviteeId).0, inviterId))))
  {
  }
}
