/** The journal's Django views: the client address, the maintenance gate on
    the index page, the entries API (list and upsert), the ZIP export and
    the translation proxy. The request, the database and the upstream
    translation service are parameters. */
module JournalViews {
  import opened Wrappers
  import opened Text
  import opened Calendar
  import opened PyJson
  import opened JournalModels
  import opened EntryStore
  import opened SiteConfig

  // ---------------------------------------------------------------------------
  // get_client_ip
  // ---------------------------------------------------------------------------

  /** `get_client_ip`: the text before the first comma of a non-empty
      `X-Forwarded-For` header, otherwise `REMOTE_ADDR`. */
  function ClientIp(forwardedFor: Option<string>, remoteAddr: Option<string>): (ip: Option<string>)
    ensures forwardedFor.Some? && forwardedFor.value != "" ==>
              && ip.Some? && ',' !in ip.value
              && StartsWith(forwardedFor.value, ip.value)
              && (|ip.value| == |forwardedFor.value| || forwardedFor.value[|ip.value|] == ',')
    ensures forwardedFor.None? || forwardedFor.value == "" ==> ip == remoteAddr
  {
    if forwardedFor.Some? && forwardedFor.value != "" then
      SplitFirst(forwardedFor.value, ',');
      Some(Split(forwardedFor.value, ',')[0])
    else remoteAddr
  }

  /** The address recorded from a forwarded request is the first hop: for a
      header `first, rest`, the recorded address is `first`. */
  lemma ClientIpFirstHop(first: string, rest: string, remoteAddr: Option<string>)
    requires first != "" && ',' !in first
    ensures ClientIp(Some(first + "," + rest), remoteAddr) == Some(first)
    ensures ClientIp(Some(first), remoteAddr) == Some(first)
  {
    SplitConcat(first, ',', rest);
    SplitNoSeparator(first, ',');
  }

  // ---------------------------------------------------------------------------
  // index
  // ---------------------------------------------------------------------------

  const MaintenanceHtml: string :=
    "<h1>Maintenance Mode</h1><p>We are currently upgrading the system. Please try again later.</p>"

  datatype IndexResponse =
    | MaintenancePage(status: nat, html: string)
    | Rendered(template: string, config: SiteConfiguration)

  /** What `index` answers for a loaded configuration. */
  function IndexPage(config: SiteConfiguration, isStaff: bool): (r: IndexResponse)
    ensures r.MaintenancePage? <==> config.maintenanceMode && !isStaff
    ensures r.MaintenancePage? ==> r.status == 503 && r.html == MaintenanceHtml
    ensures r.Rendered? ==> r.template == "journal/index.html" && r.config == config
  {
    if config.maintenanceMode && !isStaff then MaintenancePage(503, MaintenanceHtml)
    else Rendered("journal/index.html", config)
  }

  /** `index`: loads the configuration (creating it when missing) and gates
      the page on it. */
  method Index(site: ConfigTable, isStaff: bool) returns (r: IndexResponse)
    modifies site
    ensures site.row.Some? && r == IndexPage(site.row.value, isStaff)
    ensures old(site.row).Some? ==> site.row == old(site.row)
  {
    var config := site.Load();
    r := IndexPage(config, isStaff);
  }

  /** Staff always get the page; everybody gets it when maintenance is off. */
  lemma IndexGate(config: SiteConfiguration, isStaff: bool)
    ensures isStaff ==> IndexPage(config, isStaff).Rendered?
    ensures !config.maintenanceMode ==> IndexPage(config, isStaff).Rendered?
    ensures IndexPage(config, isStaff).Rendered? || IndexPage(config, isStaff).status == 503
  {
  }

  // ---------------------------------------------------------------------------
  // api_entries, GET
  // ---------------------------------------------------------------------------

  /** One element of the list the GET answers with. */
  datatype EntryItem = EntryItem(id: nat, title: string, content: string, date: string, durationStr: string)

  function Item(e: Entry): EntryItem {
    EntryItem(e.id, e.title, e.content, IsoFormat(e.createdAt), e.durationStr)
  }

  /** `api_entries` GET: the caller's entries, newest first, each as id,
      title, content, ISO creation time and duration. */
  function ListEntries(rows: seq<Entry>, user: UserId): (items: seq<EntryItem>)
    ensures |items| == |OwnedBy(rows, user)|
    ensures forall i :: 0 <= i < |items| ==> items[i] == Item(OwnedBy(rows, user)[i])
  {
    var owned := OwnedBy(rows, user);
    seq(|owned|, i requires 0 <= i < |owned| => Item(owned[i]))
  }

  /** Every listed item is one of the caller's rows. */
  lemma ListEntriesOwnRowsOnly(rows: seq<Entry>, user: UserId)
    ensures forall it :: it in ListEntries(rows, user) ==>
              exists e :: e in rows && e.user == user && it == Item(e)
  {
    var owned := OwnedBy(rows, user);
    var items := ListEntries(rows, user);
    forall it | it in items
      ensures exists e :: e in rows && e.user == user && it == Item(e)
    {
      var i :| 0 <= i < |items| && items[i] == it;
      var e := owned[i];
      assert e in owned;
      assert e in rows && OwnerIs(user)(e);
      assert it == Item(e);
    }
  }

  /** Each of the caller's rows is listed. */
  lemma ListEntriesEveryOwnRow(rows: seq<Entry>, user: UserId, e: Entry)
    requires e in rows && e.user == user
    ensures Item(e) in ListEntries(rows, user)
  {
    var owned := OwnedBy(rows, user);
    assert OwnerIs(user)(e);
    assert e in owned;
    var i :| 0 <= i < |owned| && owned[i] == e;
    assert ListEntries(rows, user)[i] == Item(e);
  }

  /** The listed date starts with the creation day of the row. */
  lemma ItemDate(e: Entry)
    ensures ParseDate(Item(e).date[..10]) == Some((e.createdAt.year, e.createdAt.month, e.createdAt.day))
    ensures Item(e).date[10] == 'T'
  {
    DateStringRoundTrip(e.createdAt);
  }

  // ---------------------------------------------------------------------------
  // api_entries, POST
  // ---------------------------------------------------------------------------

  const DefaultTitle: string := "Untitled"
  const DefaultContent: string := ""

  /** The request body after `json.loads`: unparsable (the parser's message),
      a JSON value that is not an object, or an object's relevant members
      (None when a member is absent). */
  datatype PostBody =
    | Unparsable(message: string)
    | NotAnObject(value: Json)
    | Fields(id: Option<Json>, title: Option<Json>, content: Option<Json>, durationStr: Option<Json>)

  /** The body the view works on, from what `json.loads(request.body)` gave:
      `data.get(key)` reads the members of an object and raises on anything
      else. */
  function DecodedBody(parsed: Outcome<Json>): (b: PostBody)
    ensures parsed.Raised? <==> b.Unparsable?
    ensures b.Unparsable? ==> b.message == parsed.message
    ensures b.NotAnObject? <==> parsed.Ok? && !parsed.value.JObj?
    ensures b.NotAnObject? ==> b.value == parsed.value
    ensures b.Fields? ==>
              && b.id == Get(parsed.value.members, "id")
              && b.title == Get(parsed.value.members, "title")
              && b.content == Get(parsed.value.members, "content")
              && b.durationStr == Get(parsed.value.members, "durationStr")
  {
    match parsed
    case Raised(m) => Unparsable(m)
    case Ok(v) =>
      if v.JObj? then
        Fields(Get(v.members, "id"), Get(v.members, "title"), Get(v.members, "content"),
               Get(v.members, "durationStr"))
      else NotAnObject(v)
  }

  /** Why a POST fails: an exception with the given `str(e)` (the parser's,
      the AttributeError of `data.get`, the id lookup's or the database's
      NOT NULL refusal), or a value longer than its column. */
  datatype PostFailure = Threw(message: string) | ValueTooLong(column: string)

  datatype PostResponse = Created(id: nat) | Updated(id: nat) | Failed(cause: PostFailure)

  /** The HTTP status of a POST answer. */
  function PostStatus(r: PostResponse): (status: nat)
    ensures status == 400 <==> r.Failed?
    ensures status == 200 <==> !r.Failed?
  {
    if r.Failed? then 400 else 200
  }

  /** The id the lookup `Entry.objects.get(id=v, ...)` compares with: the
      integer field converts `v` with `int(v)`; None when that raises. */
  function IdKey(v: Json): Option<int> {
    match v
    case JNum(n) => Some(n)
    case JBool(b) => Some(if b then 1 else 0)
    case JStr(s) => ParsePyInt(s)
    case _ => None
  }

  /** The message of the error the integer field raises when `int(v)` fails. */
  function IdMessage(v: Json): string {
    "Field 'id' expected a number but got " + PyRepr(v) + "."
  }

  /** What a POST body asks for: a new entry, an update of one of the
      caller's rows, or nothing because the id cannot be looked up. */
  datatype Target = CreateNew | UpdateRow(row: Entry) | InvalidId(value: Json)

  function PostTarget(rows: seq<Entry>, user: UserId, id: Option<Json>): (t: Target)
    ensures t.UpdateRow? ==> t.row in rows && t.row.user == user
    ensures id.None? || !Truthy(id.value) ==> t == CreateNew
    ensures t.InvalidId? <==> id.Some? && Truthy(id.value) && IdKey(id.value).None?
    ensures t.InvalidId? ==> t.value == id.value
  {
    if id.Some? && Truthy(id.value) then
      match IdKey(id.value)
      case None => InvalidId(id.value)
      case Some(k) =>
        match Find(rows, k, user)
        case Some(e) => UpdateRow(e)
        case None => CreateNew
    else CreateNew
  }

  /** The three text columns a POST writes. */
  datatype Columns = Columns(title: string, content: string, durationStr: string)

  /** The text a column receives from `data.get(key, fallback)`: the member's
      `str()` when the body has it, otherwise the fallback. */
  function MemberText(member: Option<Json>, fallback: string): string {
    if member.Some? then PyStr(member.value) else fallback
  }

  /** The texts written to the title, content and duration columns, each
      from the body's member when present and from `fallback` otherwise; the
      first of them, in column order, that is `null` makes the statement
      fail with the database's NOT NULL message. */
  function PostColumns(title: Option<Json>, content: Option<Json>, durationStr: Option<Json>,
                       fallback: Columns): (r: Outcome<Columns>)
    ensures r.Ok? <==> title != Some(JNull) && content != Some(JNull) && durationStr != Some(JNull)
    ensures r.Ok? ==> r.value == Columns(MemberText(title, fallback.title), MemberText(content, fallback.content),
                                         MemberText(durationStr, fallback.durationStr))
    ensures title == Some(JNull) ==> r == Raised(NotNullMessage("title"))
    ensures title != Some(JNull) && content == Some(JNull) ==> r == Raised(NotNullMessage("content"))
    ensures title != Some(JNull) && content != Some(JNull) && durationStr == Some(JNull) ==>
              r == Raised(NotNullMessage("duration_str"))
  {
    var t := ColumnText(if title.Some? then title.value else JStr(fallback.title), "title");
    var c := ColumnText(if content.Some? then content.value else JStr(fallback.content), "content");
    var d := ColumnText(if durationStr.Some? then durationStr.value else JStr(fallback.durationStr),
                        "duration_str");
    if t.Raised? then Raised(t.message)
    else if c.Raised? then Raised(c.message)
    else if d.Raised? then Raised(d.message)
    else Ok(Columns(t.value, c.value, d.value))
  }

  /** The columns an update starts from: the row's own texts. */
  function RowColumns(e: Entry): Columns {
    Columns(e.title, e.content, e.durationStr)
  }

  /** The columns a creation starts from: the view's defaults. */
  const DefaultColumns: Columns := Columns(DefaultTitle, DefaultContent, DefaultDuration)

  /** The row an update writes. */
  function UpdatedRow(e: Entry, col: Columns, ip: Option<string>, now: DateTime): Entry {
    e.(title := col.title, content := col.content, durationStr := col.durationStr,
       ipAddress := StoredIp(ip), updatedAt := now)
  }

  /** The row a creation writes. */
  function CreatedRow(id: nat, user: UserId, col: Columns, ip: Option<string>, now: DateTime): Entry {
    Entry(id, user, col.title, col.content, now, now, StoredIp(ip), col.durationStr)
  }

  datatype PostResult = PostResult(response: PostResponse, rows: seq<Entry>, nextId: nat)

  /** The answer and the new table of `api_entries` POST. */
  function PostSpec(rows: seq<Entry>, nextId: nat, user: UserId, body: PostBody,
                    ip: Option<string>, now: DateTime): PostResult
  {
    match body
    case Unparsable(m) => PostResult(Failed(Threw(m)), rows, nextId)
    case NotAnObject(v) => PostResult(Failed(Threw(NoGetMessage(v))), rows, nextId)
    case Fields(id, title, content, durationStr) =>
      match PostTarget(rows, user, id)
      case InvalidId(v) => PostResult(Failed(Threw(IdMessage(v))), rows, nextId)
      case UpdateRow(e) =>
        (match PostColumns(title, content, durationStr, RowColumns(e))
         case Raised(m) => PostResult(Failed(Threw(m)), rows, nextId)
         case Ok(col) =>
           match LengthViolation(col.title, col.durationStr)
           case Some(column) => PostResult(Failed(ValueTooLong(column)), rows, nextId)
           case None => PostResult(Updated(e.id), ReplaceRow(rows, UpdatedRow(e, col, ip, now)), nextId))
      case CreateNew =>
        match PostColumns(title, content, durationStr, DefaultColumns)
        case Raised(m) => PostResult(Failed(Threw(m)), rows, nextId)
        case Ok(col) =>
          match LengthViolation(col.title, col.durationStr)
          case Some(column) => PostResult(Failed(ValueTooLong(column)), rows, nextId)
          case None =>
            PostResult(Created(nextId), InsertNewest(rows, CreatedRow(nextId, user, col, ip, now)), nextId + 1)
  }

  /** `api_entries` POST on the table. */
  method ApiEntriesPost(table: EntryTable, user: UserId, body: PostBody,
                        forwardedFor: Option<string>, remoteAddr: Option<string>,
                        now: DateTime) returns (r: PostResponse)
    requires table.Valid()
    modifies table
    ensures table.Valid()
    ensures PostResult(r, table.rows, table.nextId)
            == PostSpec(old(table.rows), old(table.nextId), user, body,
                        ClientIp(forwardedFor, remoteAddr), now)
  {
    var ip := ClientIp(forwardedFor, remoteAddr);
    ghost var rows0 := table.rows;
    match body {
      case Unparsable(m) =>
        return Failed(Threw(m));
      case NotAnObject(v) =>
        return Failed(Threw(NoGetMessage(v)));
      case Fields(id, title, content, durationStr) =>
        if id.Some? && Truthy(id.value) {
          var key := IdKey(id.value);
          if key.None? {
            return Failed(Threw(IdMessage(id.value)));
          }
          var found := table.Get(key.value, user);
          if found.Some? {
            var e := found.value;
            assert PostTarget(rows0, user, id) == UpdateRow(e);
            var col := PostColumns(title, content, durationStr, RowColumns(e));
            if col.Raised? {
              return Failed(Threw(col.message));
            }
            var w := table.Update(e, col.value.title, col.value.content, col.value.durationStr, ip, now);
            if w.TooLong? {
              return Failed(ValueTooLong(w.column));
            }
            return Updated(e.id);
          }
        }
        assert PostTarget(rows0, user, id) == CreateNew;
        var col := PostColumns(title, content, durationStr, DefaultColumns);
        if col.Raised? {
          return Failed(Threw(col.message));
        }
        var w := table.Create(user, col.value.title, col.value.content, col.value.durationStr, ip, now);
        if w.TooLong? {
          return Failed(ValueTooLong(w.column));
        }
        return Created(w.entry.id);
    }
  }

  /** A POST keeps the table valid. */
  lemma PostKeepsValid(rows: seq<Entry>, nextId: nat, user: UserId, body: PostBody,
                       ip: Option<string>, now: DateTime)
    requires ValidRows(rows, nextId)
    ensures var res := PostSpec(rows, nextId, user, body, ip, now);
      ValidRows(res.rows, res.nextId)
  {
    if body.Fields? {
      match PostTarget(rows, user, body.id)
      case InvalidId(_) =>
      case UpdateRow(e) =>
        var col := PostColumns(body.title, body.content, body.durationStr, RowColumns(e));
        if col.Ok? && LengthViolation(col.value.title, col.value.durationStr).None? {
          ReplaceRowValid(rows, nextId, e, UpdatedRow(e, col.value, ip, now));
        }
      case CreateNew =>
        var col := PostColumns(body.title, body.content, body.durationStr, DefaultColumns);
        if col.Ok? && LengthViolation(col.value.title, col.value.durationStr).None? {
          InsertIsValid(rows, nextId, CreatedRow(nextId, user, col.value, ip, now));
        }
    }
  }

  /** A POST by one user never changes what another user owns. */
  lemma PostIsolation(rows: seq<Entry>, nextId: nat, user: UserId, body: PostBody,
                      ip: Option<string>, now: DateTime, other: UserId)
    requires ValidRows(rows, nextId) && other != user
    ensures OwnedBy(PostSpec(rows, nextId, user, body, ip, now).rows, other) == OwnedBy(rows, other)
  {
    if body.Fields? {
      match PostTarget(rows, user, body.id)
      case InvalidId(_) =>
      case UpdateRow(e) =>
        var col := PostColumns(body.title, body.content, body.durationStr, RowColumns(e));
        if col.Ok? && LengthViolation(col.value.title, col.value.durationStr).None? {
          var e' := UpdatedRow(e, col.value, ip, now);
          ReplaceRowValid(rows, nextId, e, e');
          ReplaceRowOthers(rows, e', other);
        }
      case CreateNew =>
        var col := PostColumns(body.title, body.content, body.durationStr, DefaultColumns);
        if col.Ok? && LengthViolation(col.value.title, col.value.durationStr).None? {
          InsertNewestOthers(rows, CreatedRow(nextId, user, col.value, ip, now), other);
        }
    }
  }

  /** A failed POST changes nothing, and says why: the parser's message, the
      AttributeError of `data.get` on a value that is not an object, Django's
      message for an id `int()` refuses, or the NOT NULL refusal of the first
      column given as `null`. */
  lemma PostFailureChangesNothing(rows: seq<Entry>, nextId: nat, user: UserId, body: PostBody,
                                  ip: Option<string>, now: DateTime)
    ensures var res := PostSpec(rows, nextId, user, body, ip, now);
      res.response.Failed? ==> res.rows == rows && res.nextId == nextId
    ensures body.Unparsable? ==> PostSpec(rows, nextId, user, body, ip, now).response
                                 == Failed(Threw(body.message))
    ensures body.NotAnObject? ==> PostSpec(rows, nextId, user, body, ip, now).response
                                  == Failed(Threw(NoGetMessage(body.value)))
    ensures body.Fields? && PostTarget(rows, user, body.id).InvalidId? ==>
              PostSpec(rows, nextId, user, body, ip, now).response == Failed(Threw(IdMessage(body.id.value)))
    ensures body.Fields? && !PostTarget(rows, user, body.id).InvalidId? && body.title == Some(JNull) ==>
              PostSpec(rows, nextId, user, body, ip, now).response == Failed(Threw(NotNullMessage("title")))
    ensures body.Fields? && !PostTarget(rows, user, body.id).InvalidId? && body.title != Some(JNull)
            && body.content == Some(JNull) ==>
              PostSpec(rows, nextId, user, body, ip, now).response == Failed(Threw(NotNullMessage("content")))
    ensures body.Fields? && !PostTarget(rows, user, body.id).InvalidId? && body.title != Some(JNull)
            && body.content != Some(JNull) && body.durationStr == Some(JNull) ==>
              PostSpec(rows, nextId, user, body, ip, now).response == Failed(Threw(NotNullMessage("duration_str")))
  {
  }

  /** An id that is not a number is refused with Django's message quoting
      it, and nothing changes. */
  lemma BadIdExample(rows: seq<Entry>, nextId: nat, user: UserId, title: Option<Json>,
                     content: Option<Json>, durationStr: Option<Json>, ip: Option<string>, now: DateTime)
    ensures PostSpec(rows, nextId, user, Fields(Some(JStr("abc")), title, content, durationStr), ip, now)
            == PostResult(Failed(Threw("Field 'id' expected a number but got 'abc'.")), rows, nextId)
  {
    TrimClean("abc", IsPySpace);
    assert Trim("abc", IsPySpace) == "abc";
    assert !PyDigits("abc");
    assert ParsePyInt("abc") == None;
    assert PostTarget(rows, user, Some(JStr("abc"))) == InvalidId(JStr("abc"));
    StrReprPlain("abc");
    assert IdMessage(JStr("abc")) == "Field 'id' expected a number but got " + "'abc'" + "."
                                  == "Field 'id' expected a number but got 'abc'.";
  }

  /** In a table with distinct ids, looking up a row by its own id and owner
      finds that row. */
  lemma FindRow(rows: seq<Entry>, e: Entry)
    requires DistinctIds(rows) && e in rows
    ensures Find(rows, e.id, e.user) == Some(e)
  {
    var r := Find(rows, e.id, e.user);
    var i :| 0 <= i < |rows| && rows[i] == e;
    var j :| 0 <= j < |rows| && rows[j] == r.value;
    assert i == j;
  }

  /** A POST whose id names one of the caller's rows updates that row: the
      members present in the body replace title, content and duration (a
      number or a boolean by its `str()`), the others are kept, the address
      is refreshed, `created_at` is kept and `updated_at` becomes `now`; the
      answer is 'updated' with the same id. */
  lemma PostUpdatesOwnedRow(rows: seq<Entry>, nextId: nat, user: UserId, e: Entry,
                            v: Json, title: Option<Json>, content: Option<Json>,
                            durationStr: Option<Json>, ip: Option<string>, now: DateTime)
    requires ValidRows(rows, nextId) && e in rows && e.user == user
    requires Truthy(v) && IdKey(v) == Some(e.id as int)
    requires title != Some(JNull) && content != Some(JNull) && durationStr != Some(JNull)
    requires LengthViolation(MemberText(title, e.title), MemberText(durationStr, e.durationStr)).None?
    ensures var res := PostSpec(rows, nextId, user, Fields(Some(v), title, content, durationStr), ip, now);
      && res.response == Updated(e.id)
      && res.nextId == nextId
      && |res.rows| == |rows|
      && Find(res.rows, e.id, user) == Some(Entry(e.id, user,
           MemberText(title, e.title), MemberText(content, e.content), e.createdAt, now,
           StoredIp(ip), MemberText(durationStr, e.durationStr)))
  {
    FindRow(rows, e);
    var col := PostColumns(title, content, durationStr, RowColumns(e));
    var e' := UpdatedRow(e, col.value, ip, now);
    ReplaceRowValid(rows, nextId, e, e');
    var i :| 0 <= i < |rows| && rows[i] == e;
    assert ReplaceRow(rows, e')[i] == e';
    FindRow(ReplaceRow(rows, e'), e');
  }

  /** A POST without a usable id of the caller's (absent, falsy, or naming no
      row of the caller's) creates a new row owned by the caller, with
      'Untitled', '' and '0s' for the absent members; the answer is 'created'
      with the new id. */
  lemma PostCreatesRow(rows: seq<Entry>, nextId: nat, user: UserId,
                       id: Option<Json>, title: Option<Json>, content: Option<Json>,
                       durationStr: Option<Json>, ip: Option<string>, now: DateTime)
    requires ValidRows(rows, nextId)
    requires id.None? || !Truthy(id.value)
             || (IdKey(id.value).Some? && Find(rows, IdKey(id.value).value, user).None?)
    requires title != Some(JNull) && content != Some(JNull) && durationStr != Some(JNull)
    requires LengthViolation(MemberText(title, DefaultTitle), MemberText(durationStr, DefaultDuration)).None?
    ensures var res := PostSpec(rows, nextId, user, Fields(id, title, content, durationStr), ip, now);
      && res.response == Created(nextId)
      && res.nextId == nextId + 1
      && |res.rows| == |rows| + 1
      && Find(res.rows, nextId, user) == Some(Entry(nextId, user,
           MemberText(title, DefaultTitle), MemberText(content, DefaultContent), now, now,
           StoredIp(ip), MemberText(durationStr, DefaultDuration)))
  {
    var col := PostColumns(title, content, durationStr, DefaultColumns);
    var e := CreatedRow(nextId, user, col.value, ip, now);
    InsertIsValid(rows, nextId, e);
    InsertNewestOrder(rows, e);
    InsertNewestAt(rows, e);
    FindRow(InsertNewest(rows, e), e);
  }

  /** How a save of a row the caller owns can be refused: a column too long
      for its bound, or a column given as `null`. */
  predicate SaveRefusal(f: PostFailure) {
    || f == ValueTooLong("title") || f == ValueTooLong("duration_str")
    || f == Threw(NotNullMessage("title")) || f == Threw(NotNullMessage("content"))
    || f == Threw(NotNullMessage("duration_str"))
  }

  /** Creating and then posting again with the returned id updates the row
      just created instead of creating another. */
  lemma CreateThenUpdate(rows: seq<Entry>, nextId: nat, user: UserId,
                         first: PostBody, second: PostBody,
                         ip: Option<string>, now: DateTime, later: DateTime)
    requires ValidRows(rows, nextId)
    requires first.Fields? && second.Fields?
    requires var res := PostSpec(rows, nextId, user, first, ip, now);
      res.response.Created? && second.id == Some(JNum(res.response.id))
    ensures var res := PostSpec(rows, nextId, user, first, ip, now);
      var res2 := PostSpec(res.rows, res.nextId, user, second, ip, later);
      PostTarget(res.rows, user, second.id).UpdateRow?
      && (res2.response.Updated? || (res2.response.Failed? && SaveRefusal(res2.response.cause)))
      && (res2.response.Updated? ==> res2.response.id == res.response.id && res2.nextId == res.nextId)
  {
    var res := PostSpec(rows, nextId, user, first, ip, now);
    assert PostTarget(rows, user, first.id).CreateNew?;
    var col := PostColumns(first.title, first.content, first.durationStr, DefaultColumns);
    var e := CreatedRow(nextId, user, col.value, ip, now);
    assert res == PostResult(Created(nextId), InsertNewest(rows, e), nextId + 1);
    InsertIsValid(rows, nextId, e);
    InsertNewestAt(rows, e);
    FindRow(InsertNewest(rows, e), e);
    assert second.id == Some(JNum(nextId));
    assert Truthy(JNum(nextId)) && IdKey(JNum(nextId)) == Some(nextId);
    assert Find(res.rows, nextId, user) == Some(e);
    assert PostTarget(res.rows, user, second.id) == UpdateRow(e);
    PostToOwnedRow(res.rows, res.nextId, user, second, ip, later, e);
  }

  /** A POST whose id names a row of the caller either updates it, keeping
      its id and the next id, or is refused because a column is too long or
      given as `null`. */
  lemma PostToOwnedRow(rows: seq<Entry>, nextId: nat, user: UserId, body: PostBody,
                       ip: Option<string>, now: DateTime, e: Entry)
    requires body.Fields? && PostTarget(rows, user, body.id) == UpdateRow(e)
    ensures var res := PostSpec(rows, nextId, user, body, ip, now);
      && (res.response.Updated? || (res.response.Failed? && SaveRefusal(res.response.cause)))
      && (res.response.Updated? ==> res.response.id == e.id && res.nextId == nextId)
  {
  }

  // ---------------------------------------------------------------------------
  // export_zip
  // ---------------------------------------------------------------------------

  /** The characters the export keeps in a title; `isAlnum` is the
      character class of `str.isalnum`, whose Unicode tables are a
      parameter. */
  predicate FileNameChar(c: char, isAlnum: char -> bool) {
    isAlnum(c) || c == ' ' || c == '-' || c == '_'
  }

  /** No character `str.isalnum` accepts is whitespace. */
  predicate AlnumNotSpace(isAlnum: char -> bool) {
    forall c :: isAlnum(c) ==> !IsPySpace(c)
  }

  /** The title's kept characters, in order. */
  function KeepFileNameChars(title: string, isAlnum: char -> bool): (r: string)
    ensures |r| <= |title|
  {
    if title == [] then []
    else (if FileNameChar(title[0], isAlnum) then [title[0]] else [])
         + KeepFileNameChars(title[1..], isAlnum)
  }

  /** Only allowed characters are kept. */
  lemma {:induction false} KeepOnlyAllowed(title: string, isAlnum: char -> bool)
    ensures forall i :: 0 <= i < |KeepFileNameChars(title, isAlnum)| ==>
              FileNameChar(KeepFileNameChars(title, isAlnum)[i], isAlnum)
  {
    if title != [] {
      KeepOnlyAllowed(title[1..], isAlnum);
      var head := if FileNameChar(title[0], isAlnum) then [title[0]] else [];
      var rest := KeepFileNameChars(title[1..], isAlnum);
      assert KeepFileNameChars(title, isAlnum) == head + rest;
      forall i | 0 <= i < |head + rest|
        ensures FileNameChar((head + rest)[i], isAlnum)
      {
        if i >= |head| {
          assert (head + rest)[i] == rest[i - |head|];
        }
      }
    }
  }

  /** A title made only of kept characters is kept whole. */
  lemma {:induction false} KeepAllowed(title: string, isAlnum: char -> bool)
    requires forall i :: 0 <= i < |title| ==> FileNameChar(title[i], isAlnum)
    ensures KeepFileNameChars(title, isAlnum) == title
  {
    if title != [] {
      KeepAllowed(title[1..], isAlnum);
      assert [title[0]] + title[1..] == title;
    }
  }

  /** `safe_title`: the kept characters with surrounding whitespace trimmed. */
  function SafeTitle(title: string, isAlnum: char -> bool): string {
    Trim(KeepFileNameChars(title, isAlnum), IsPySpace)
  }

  /** The sanitised title holds only kept characters and neither starts nor
      ends with a space. */
  lemma SafeTitleParts(title: string, isAlnum: char -> bool)
    ensures var r := SafeTitle(title, isAlnum);
      && (forall i :: 0 <= i < |r| ==> FileNameChar(r[i], isAlnum))
      && (r != [] ==> r[0] != ' ' && r[|r| - 1] != ' ')
  {
    var kept := KeepFileNameChars(title, isAlnum);
    var r := SafeTitle(title, isAlnum);
    KeepOnlyAllowed(title, isAlnum);
    forall i | 0 <= i < |r|
      ensures FileNameChar(r[i], isAlnum)
    {
      assert r[i] in r;
      assert r[i] in kept;
      var j :| 0 <= j < |kept| && kept[j] == r[i];
    }
  }

  /** Sanitising a sanitised title changes nothing. */
  lemma SafeTitleIdempotent(title: string, isAlnum: char -> bool)
    requires AlnumNotSpace(isAlnum)
    ensures SafeTitle(SafeTitle(title, isAlnum), isAlnum) == SafeTitle(title, isAlnum)
  {
    var r := SafeTitle(title, isAlnum);
    SafeTitleParts(title, isAlnum);
    KeepAllowed(r, isAlnum);
    if r != [] {
      SafeCharNotSpace(r[0], isAlnum);
      SafeCharNotSpace(r[|r| - 1], isAlnum);
    }
    TrimClean(r, IsPySpace);
  }

  lemma SafeCharNotSpace(c: char, isAlnum: char -> bool)
    requires AlnumNotSpace(isAlnum)
    requires FileNameChar(c, isAlnum) && c != ' '
    ensures !IsPySpace(c)
  {
  }

  lemma {:induction false} KeepAppend(a: string, b: string, isAlnum: char -> bool)
    ensures KeepFileNameChars(a + b, isAlnum) == KeepFileNameChars(a, isAlnum) + KeepFileNameChars(b, isAlnum)
  {
    if a != [] {
      assert (a + b)[1..] == a[1..] + b;
      KeepAppend(a[1..], b, isAlnum);
    } else {
      assert a + b == b;
    }
  }

  lemma KeepRejected(c: char, isAlnum: char -> bool)
    requires !FileNameChar(c, isAlnum)
    ensures KeepFileNameChars([c], isAlnum) == []
  {
    assert [c][1..] == [];
  }

  /** A dropped character leaves no gap: the kept characters on either side
      of it are joined directly. */
  lemma KeepSkips(a: string, c: char, b: string, isAlnum: char -> bool)
    requires !FileNameChar(c, isAlnum)
    ensures KeepFileNameChars(a + [c] + b, isAlnum) == KeepFileNameChars(a, isAlnum) + KeepFileNameChars(b, isAlnum)
  {
    var ac := a + [c];
    KeepAppend(ac, b, isAlnum);
    KeepAppend(a, [c], isAlnum);
    KeepRejected(c, isAlnum);
    assert KeepFileNameChars(a, isAlnum) + [] == KeepFileNameChars(a, isAlnum);
  }

  /** A slash between two words disappears without leaving a space. */
  lemma SafeTitleExample(isAlnum: char -> bool)
    requires isAlnum('Q') && isAlnum('1') && isAlnum('2') && !isAlnum('/')
    requires AlnumNotSpace(isAlnum)
    ensures SafeTitle("Q1/Q2", isAlnum) == "Q1Q2"
  {
    KeepSkips("Q1", '/', "Q2", isAlnum);
    assert "Q1" + ['/'] + "Q2" == "Q1/Q2";
    KeepAllowed("Q1", isAlnum);
    KeepAllowed("Q2", isAlnum);
    SafeCharNotSpace('Q', isAlnum);
    SafeCharNotSpace('2', isAlnum);
    assert "Q1" + "Q2" == "Q1Q2";
    TrimClean("Q1Q2", IsPySpace);
  }

  /** The file name of an entry in the archive. */
  function ExportName(e: Entry, isAlnum: char -> bool): string {
    DateString(e.createdAt) + " - " + SafeTitle(e.title, isAlnum) + ".html"
  }

  /** The file name is the creation day, a dash, the sanitised title and the
      `.html` extension, and the day can be read back from it. */
  lemma ExportNameParts(e: Entry, isAlnum: char -> bool)
    ensures var name := ExportName(e, isAlnum);
      && |name| >= 18
      && ParseDate(name[..10]) == Some((e.createdAt.year, e.createdAt.month, e.createdAt.day))
      && name[10..13] == " - " && name[|name| - 5..] == ".html"
      && name[13..|name| - 5] == SafeTitle(e.title, isAlnum)
  {
    DateStringRoundTrip(e.createdAt);
    var date := DateString(e.createdAt);
    var title := SafeTitle(e.title, isAlnum);
    var name := ExportName(e, isAlnum);
    assert name[..10] == date;
    assert name[10..13] == " - ";
    assert name[13..|name| - 5] == title;
    assert name[|name| - 5..] == ".html";
  }

  /** The file body of an entry in the archive. */
  function ExportBody(e: Entry): string {
    "<h1>" + e.title + "</h1><p>Date: " + DateString(e.createdAt) + "</p><hr>" + e.content
  }

  /** The body opens with the title as a heading and the date line, whose
      day reads back, and ends with the content unchanged. */
  lemma ExportBodyParts(e: Entry)
    ensures var body := ExportBody(e);
      && |body| == |e.title| + |e.content| + 36
      && StartsWith(body, "<h1>" + e.title + "</h1><p>Date: ")
      && body[|e.title| + 18..|e.title| + 28] == DateString(e.createdAt)
      && ParseDate(body[|e.title| + 18..|e.title| + 28])
         == Some((e.createdAt.year, e.createdAt.month, e.createdAt.day))
      && body[|e.title| + 28..|e.title| + 36] == "</p><hr>"
      && body[|body| - |e.content|..] == e.content
  {
    DateStringRoundTrip(e.createdAt);
  }

  datatype ZipMember = ZipMember(name: string, body: string)

  /** The member written for each entry. */
  function Writer(isAlnum: char -> bool): Entry -> ZipMember {
    e => ZipMember(ExportName(e, isAlnum), ExportBody(e))
  }

  datatype ZipDownload = ZipDownload(members: seq<ZipMember>, contentType: string, disposition: string)

  /** The members written for `entries` in order, `member` giving each. */
  function WriteEach(entries: seq<Entry>, member: Entry -> ZipMember): (members: seq<ZipMember>)
    ensures |members| == |entries|
  {
    if entries == [] then []
    else WriteEach(entries[..|entries| - 1], member) + [member(entries[|entries| - 1])]
  }

  /** The member at each position is the one written for the entry there. */
  lemma {:induction false} WriteEachAt(entries: seq<Entry>, member: Entry -> ZipMember, k: nat)
    requires k < |entries|
    ensures WriteEach(entries, member)[k] == member(entries[k])
  {
    var n := |entries| - 1;
    if k < n {
      WriteEachAt(entries[..n], member, k);
    }
  }

  /** Writing one more entry appends its member. */
  lemma WriteEachSnoc(entries: seq<Entry>, member: Entry -> ZipMember, i: nat)
    requires i < |entries|
    ensures WriteEach(entries[..i + 1], member) == WriteEach(entries[..i], member) + [member(entries[i])]
  {
    assert entries[..i + 1][..i] == entries[..i];
  }

  /** The archive members for the given entries. */
  function Archive(entries: seq<Entry>, isAlnum: char -> bool): seq<ZipMember> {
    WriteEach(entries, Writer(isAlnum))
  }

  lemma ArchiveAt(entries: seq<Entry>, isAlnum: char -> bool, k: nat)
    requires k < |entries|
    ensures Archive(entries, isAlnum)[k] == ZipMember(ExportName(entries[k], isAlnum), ExportBody(entries[k]))
  {
    WriteEachAt(entries, Writer(isAlnum), k);
  }

  /** `export_zip`: one archive member per entry of the caller's, newest
      first; entries with the same day and sanitised title give members of
      the same name, all of which are written. */
  method ExportZip(table: EntryTable, user: UserId, isAlnum: char -> bool) returns (r: ZipDownload)
    requires table.Valid()
    ensures r.members == Archive(table.Filter(user), isAlnum)
    ensures r.contentType == "application/zip"
    ensures r.disposition == "attachment; filename=\"my_journal_backup.zip\""
  {
    var entries := table.Filter(user);
    var member := Writer(isAlnum);
    var members: seq<ZipMember> := [];
    var i := 0;
    while i < |entries|
      invariant 0 <= i <= |entries|
      invariant members == WriteEach(entries[..i], member)
    {
      WriteEachSnoc(entries, member, i);
      members := members + [member(entries[i])];
      i := i + 1;
    }
    assert entries[..i] == entries;
    r := ZipDownload(members, "application/zip", "attachment; filename=\"my_journal_backup.zip\"");
  }

  /** The member a reader finds under a name: the last one written with it. */
  function MemberNamed(members: seq<ZipMember>, name: string): (r: Option<ZipMember>)
    ensures r.Some? ==> r.value in members && r.value.name == name
    ensures r.None? <==> forall m :: m in members ==> m.name != name
  {
    if members == [] then None
    else if members[|members| - 1].name == name then Some(members[|members| - 1])
    else MemberNamed(members[..|members| - 1], name)
  }

  /** Every exported entry can be found under its file name. */
  lemma ExportFindsEachName(entries: seq<Entry>, isAlnum: char -> bool, i: nat)
    requires i < |entries|
    ensures MemberNamed(Archive(entries, isAlnum), ExportName(entries[i], isAlnum)).Some?
  {
    ArchiveAt(entries, isAlnum, i);
    assert Archive(entries, isAlnum)[i] in Archive(entries, isAlnum);
  }

  // ---------------------------------------------------------------------------
  // proxy_translate
  // ---------------------------------------------------------------------------

  /** `request.GET.get(key, default)`: the last value given for `key`. */
  function LastValue(params: seq<(string, string)>, key: string): (r: Option<string>)
    ensures r.Some? ==> (key, r.value) in params
    ensures r.None? <==> forall p :: p in params ==> p.0 != key
  {
    if params == [] then None
    else if params[|params| - 1].0 == key then Some(params[|params| - 1].1)
    else LastValue(params[..|params| - 1], key)
  }

  /** A later value for a key overrides every earlier one. */
  lemma {:induction false} LastValueWins(a: seq<(string, string)>, b: seq<(string, string)>, key: string)
    requires LastValue(b, key).Some?
    ensures LastValue(a + b, key) == LastValue(b, key)
  {
    var n := |b| - 1;
    assert (a + b)[|a + b| - 1] == b[n];
    if b[n].0 != key {
      assert (a + b)[..|a + b| - 1] == a + b[..n];
      LastValueWins(a, b[..n], key);
    }
  }

  /** What `translated_text` becomes over the given segments, or the
      exception the loop raises first: each truthy segment contributes
      `segment[0]`, which must be a string. */
  function JoinSegments(segments: seq<Json>): Outcome<string>
  {
    if segments == [] then Ok("")
    else
      match JoinSegments(segments[..|segments| - 1])
      case Raised(m) => Raised(m)
      case Ok(text) =>
        var last := segments[|segments| - 1];
        if !Truthy(last) then Ok(text)
        else
          match First(last)
          case Raised(m) => Raised(m)
          case Ok(head) => Append(text, head)
  }

  /** Once the loop has raised, the rest of the segments do not matter. */
  lemma {:induction false} JoinRaisedPrefix(segments: seq<Json>, i: nat, m: string)
    requires i <= |segments| && JoinSegments(segments[..i]) == Raised(m)
    ensures JoinSegments(segments) == Raised(m)
    decreases |segments| - i
  {
    if i < |segments| {
      assert segments[..i + 1][..i] == segments[..i];
      JoinRaisedPrefix(segments, i + 1, m);
    } else {
      assert segments[..i] == segments;
    }
  }

  /** A segment as the upstream service sends it: a list whose first item is
      the translated piece. */
  function TextSegment(piece: string, rest: seq<Json>): Json {
    JList([JStr(piece)] + rest)
  }

  function Concat(pieces: seq<string>): string {
    if pieces == [] then "" else Concat(pieces[..|pieces| - 1]) + pieces[|pieces| - 1]
  }

  /** Well-formed segments join to the concatenation of their pieces, in
      order. */
  lemma {:induction false} JoinTextSegments(pieces: seq<string>, rests: seq<seq<Json>>)
    requires |rests| == |pieces|
    ensures JoinSegments(seq(|pieces|, i requires 0 <= i < |pieces| => TextSegment(pieces[i], rests[i])))
            == Ok(Concat(pieces))
  {
    var segs := seq(|pieces|, i requires 0 <= i < |pieces| => TextSegment(pieces[i], rests[i]));
    if pieces != [] {
      var n := |pieces| - 1;
      JoinTextSegments(pieces[..n], rests[..n]);
      assert segs[..n] == seq(n, i requires 0 <= i < n => TextSegment(pieces[..n][i], rests[..n][i]));
    }
  }

  /** Falsy segments (empty lists, None, "") contribute nothing. */
  lemma JoinSkipsFalsy(segments: seq<Json>, falsy: Json)
    requires !Truthy(falsy)
    ensures JoinSegments(segments + [falsy]) == JoinSegments(segments)
  {
    assert (segments + [falsy])[..|segments|] == segments;
  }

  /** The translated text of the upstream answer `raw`: the joined segments of
      `raw[0]` when `raw` is a non-empty list, "" otherwise. */
  function TranslatedText(raw: Json): Outcome<string> {
    if Truthy(raw) && raw.JList? then
      match First(raw)
      case Raised(m) => Raised(m)
      case Ok(segs) =>
        match Elements(segs)
        case Raised(m) => Raised(m)
        case Ok(items) => JoinSegments(items)
    else Ok("")
  }

  datatype TranslateResponse = Translated(translatedText: string) | TranslateError(status: nat, error: string)

  /** `proxy_translate`, with the upstream call as `fetch(target, text)`
      (its decoded JSON, or the exception it raised). */
  function TranslateSpec(params: seq<(string, string)>,
                         fetch: (string, string) -> Outcome<Json>): TranslateResponse
  {
    var text := LastValue(params, "text").GetOr("");
    var target := LastValue(params, "target").GetOr("es");
    if text == "" then TranslateError(400, "No text provided")
    else
      match fetch(target, text)
      case Raised(m) => TranslateError(500, m)
      case Ok(raw) =>
        match TranslatedText(raw)
        case Raised(m) => TranslateError(500, m)
        case Ok(t) => Translated(t)
  }

  /** `proxy_translate`: the loop accumulates `translated_text`. */
  method ProxyTranslate(params: seq<(string, string)>, fetch: (string, string) -> Outcome<Json>)
    returns (r: TranslateResponse)
    ensures r == TranslateSpec(params, fetch)
  {
    var text := LastValue(params, "text").GetOr("");
    var target := LastValue(params, "target").GetOr("es");
    if text == "" {
      return TranslateError(400, "No text provided");
    }
    var fetched := fetch(target, text);
    if fetched.Raised? {
      return TranslateError(500, fetched.message);
    }
    var raw := fetched.value;
    var translated := "";
    if Truthy(raw) && raw.JList? {
      var segments := Elements(First(raw).value);
      if segments.Raised? {
        return TranslateError(500, segments.message);
      }
      var items := segments.value;
      var i := 0;
      while i < |items|
        invariant 0 <= i <= |items|
        invariant JoinSegments(items[..i]) == Ok(translated)
      {
        var segment := items[i];
        assert items[..i + 1][..i] == items[..i];
        if Truthy(segment) {
          var head := First(segment);
          if head.Raised? {
            JoinRaisedPrefix(items, i + 1, head.message);
            return TranslateError(500, head.message);
          }
          var appended := Append(translated, head.value);
          if appended.Raised? {
            JoinRaisedPrefix(items, i + 1, appended.message);
            return TranslateError(500, appended.message);
          }
          translated := appended.value;
        }
        i := i + 1;
      }
      assert items[..|items|] == items;
    }
    return Translated(translated);
  }

  /** Empty text is refused with 400 whatever the upstream service would
      answer (it is not asked), and the target defaults to Spanish. */
  lemma TranslateDefaults(params: seq<(string, string)>, f: (string, string) -> Outcome<Json>,
                          g: (string, string) -> Outcome<Json>)
    ensures LastValue(params, "text").GetOr("") == "" ==>
      TranslateSpec(params, f) == TranslateSpec(params, g) == TranslateError(400, "No text provided")
    ensures LastValue(params, "text").GetOr("") != "" && LastValue(params, "target").None?
            && f("es", LastValue(params, "text").value) == g("es", LastValue(params, "text").value) ==>
      TranslateSpec(params, f) == TranslateSpec(params, g)
  {
  }
}
