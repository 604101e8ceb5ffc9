/** The admin dashboard's page script: reading the CSRF cookie, the
    maintenance toggle and what it shows on the page (status indicator,
    toasts), and the statistics cards. The DOM is reduced to the state the
    script writes: the toggle's `checked` flag, the card's `loading` class,
    the indicator's classes and text, the toasts shown, the card texts. */
module AdminScripts {
  import opened Wrappers
  import opened Text
  import opened UriComponent
  import opened PyJson
  import opened SiteConfig
  import JournalAdmin

  // ---------------------------------------------------------------------------
  // getCookie
  // ---------------------------------------------------------------------------

  /** What `getCookie` gives back: null, a decoded value, or the URIError
      `decodeURIComponent` throws on a malformed escape. */
  datatype CookieLookup = NoCookie | Found(value: string) | UriError

  /** A `;`-separated piece, once trimmed, starts with `name=`. */
  predicate Matches(piece: string, name: string) {
    StartsWith(Trim(piece, IsJsSpace), name + "=")
  }

  /** The decoded text after `name=` of a matching piece. */
  function DecodeValue(piece: string, name: string): (r: CookieLookup)
    requires Matches(piece, name)
    ensures !r.NoCookie?
  {
    var t := Trim(piece, IsJsSpace);
    match Decode(t[|name| + 1..])
    case Some(v) => Found(v)
    case None => UriError
  }

  /** The value of the first matching piece; null when no piece matches. */
  function FirstMatch(pieces: seq<string>, name: string): (r: CookieLookup)
    ensures r.NoCookie? <==> forall j :: 0 <= j < |pieces| ==> !Matches(pieces[j], name)
  {
    if pieces == [] then NoCookie
    else if Matches(pieces[0], name) then DecodeValue(pieces[0], name)
    else FirstMatch(pieces[1..], name)
  }

  /** `getCookie(name)` on the page's `document.cookie`. */
  function CookieValue(cookie: Option<string>, name: string): (r: CookieLookup)
    ensures cookie.None? || cookie == Some("") ==> r == NoCookie
  {
    if cookie.None? || cookie.value == "" then NoCookie
    else FirstMatch(Split(cookie.value, ';'), name)
  }

  /** The search stops at the first match: pieces after it are not read. */
  lemma {:induction false} FirstMatchAt(pieces: seq<string>, name: string, k: nat)
    requires k < |pieces| && Matches(pieces[k], name)
    requires forall j :: 0 <= j < k ==> !Matches(pieces[j], name)
    ensures FirstMatch(pieces, name) == DecodeValue(pieces[k], name)
  {
    if k > 0 {
      var rest := pieces[1..];
      forall j | 0 <= j < k - 1
        ensures !Matches(rest[j], name)
      {
        assert rest[j] == pieces[j + 1];
      }
      assert rest[k - 1] == pieces[k];
      FirstMatchAt(rest, name, k - 1);
    }
  }

  /** `getCookie`: the loop over the pieces, leaving at the first match. */
  method GetCookie(cookie: Option<string>, name: string) returns (r: CookieLookup)
    ensures r == CookieValue(cookie, name)
  {
    r := NoCookie;
    if cookie.Some? && cookie.value != "" {
      var cookies := Split(cookie.value, ';');
      var i := 0;
      while i < |cookies|
        invariant 0 <= i <= |cookies|
        invariant r == NoCookie
        invariant FirstMatch(cookies[i..], name) == FirstMatch(cookies, name)
      {
        var c := Trim(cookies[i], IsJsSpace);
        if StartsWith(c, name + "=") {
          var decoded := Decode(c[|name| + 1..]);
          r := if decoded.Some? then Found(decoded.value) else UriError;
          break;
        }
        assert cookies[i..][1..] == cookies[i + 1..];
        i := i + 1;
      }
    }
  }

  /** No character of an encoding is `;` or JavaScript whitespace. */
  lemma EncodedNotSpace(c: char)
    requires EncodedChar(c)
    ensures c != ';' && !IsJsSpace(c)
  {
  }

  /** `name=e`, for an encoding `e`, has no `;` and needs no trimming. */
  lemma WrittenPiece(name: string, e: string)
    requires ';' !in name && (name == [] || !IsJsSpace(name[0]))
    requires forall i :: 0 <= i < |e| ==> EncodedChar(e[i])
    ensures ';' !in name + "=" + e
    ensures Trim(name + "=" + e, IsJsSpace) == name + "=" + e
  {
    var piece := name + "=" + e;
    forall i | 0 <= i < |piece|
      ensures piece[i] != ';'
    {
      if i > |name| {
        assert piece[i] == e[i - |name| - 1];
        EncodedNotSpace(e[i - |name| - 1]);
      }
    }
    if e != [] {
      assert piece[|piece| - 1] == e[|e| - 1];
      EncodedNotSpace(e[|e| - 1]);
    }
    assert Clean(piece, IsJsSpace);
    TrimClean(piece, IsJsSpace);
  }

  /** `name=encodeURIComponent(v)` has no `;`, needs no trimming, and its
      value decodes back to `v`. */
  lemma WrittenCookie(name: string, v: string)
    requires ';' !in name && (name == [] || !IsJsSpace(name[0]))
    ensures var piece := name + "=" + Encode(v);
      && ';' !in piece
      && Matches(piece, name)
      && DecodeValue(piece, name) == Found(v)
  {
    var e := Encode(v);
    var piece := name + "=" + e;
    EncodeAlphabet(v);
    WrittenPiece(name, e);
    assert piece[..|name| + 1] == name + "=";
    assert piece[|name| + 1..] == e;
    DecodeEncode(v);
  }

  /** Joining `;`-free pieces with `;` gives a non-empty text that splits
      back into them, as long as one piece is not empty. */
  lemma JoinedCookies(parts: seq<string>, k: nat)
    requires k < |parts| && parts[k] != ""
    requires forall j :: 0 <= j < |parts| ==> ';' !in parts[j]
    ensures Join(parts, ";") != ""
    ensures Split(Join(parts, ";"), ';') == parts
  {
    SplitUnique(parts, ';');
    if Join(parts, ";") == "" {
      assert false;
    }
  }

  /** Pieces around a `;`-free piece, each `;`-free, make a `;`-free list. */
  lemma PiecesFree(before: seq<string>, piece: string, after: seq<string>)
    requires ';' !in piece
    requires forall j :: 0 <= j < |before| ==> ';' !in before[j]
    requires forall j :: 0 <= j < |after| ==> ';' !in after[j]
    ensures var parts := before + [piece] + after;
      forall j :: 0 <= j < |parts| ==> ';' !in parts[j]
  {
    var parts := before + [piece] + after;
    forall j | 0 <= j < |parts|
      ensures ';' !in parts[j]
    {
      if j < |before| {
        assert parts[j] == before[j];
      } else if j > |before| {
        assert parts[j] == after[j - |before| - 1];
      }
    }
  }

  /** The written piece is the first to match when no piece before it does. */
  lemma WrittenFirst(name: string, before: seq<string>, piece: string, after: seq<string>)
    requires Matches(piece, name)
    requires forall j :: 0 <= j < |before| ==> !Matches(before[j], name)
    ensures FirstMatch(before + [piece] + after, name) == DecodeValue(piece, name)
  {
    var parts := before + [piece] + after;
    assert parts[|before|] == piece;
    forall j | 0 <= j < |before|
      ensures !Matches(parts[j], name)
    {
      assert parts[j] == before[j];
    }
    FirstMatchAt(parts, name, |before|);
  }

  /** A cookie written as `name=encodeURIComponent(v)` reads back as `v`,
      whatever other cookies precede (under other names) or follow it. */
  lemma ReadBack(name: string, v: string, before: seq<string>, after: seq<string>)
    requires ';' !in name && (name == [] || !IsJsSpace(name[0]))
    requires forall j :: 0 <= j < |before| ==> ';' !in before[j] && !Matches(before[j], name)
    requires forall j :: 0 <= j < |after| ==> ';' !in after[j]
    ensures CookieValue(Some(Join(before + [name + "=" + Encode(v)] + after, ";")), name) == Found(v)
  {
    var piece := name + "=" + Encode(v);
    var parts := before + [piece] + after;
    WrittenCookie(name, v);
    PiecesFree(before, piece, after);
    assert parts[|before|] == piece;
    JoinedCookies(parts, |before|);
    WrittenFirst(name, before, piece, after);
  }

  // ---------------------------------------------------------------------------
  // Page state: status indicator and toasts
  // ---------------------------------------------------------------------------

  datatype ToastIcon = SuccessIcon | ErrorIcon

  /** A toast element: its class, the icon drawn in it and its text. */
  datatype Toast = Toast(className: string, icon: ToastIcon, message: string)

  /** The element `showToast(type, message)` builds. */
  function MakeToast(kind: string, message: string): (t: Toast)
    ensures StartsWith(t.className, "toast toast-") && t.className[12..] == kind
    ensures t.icon == SuccessIcon <==> kind == "success"
    ensures t.message == message
  {
    Toast("toast toast-" + kind, if kind == "success" then SuccessIcon else ErrorIcon, message)
  }

  /** The indicator's classes after `updateStatusIndicator`: exactly one of
      the two status classes, and every other class as it was. */
  function StatusClasses(classes: set<string>, maintenance: bool): (r: set<string>)
    ensures "status-maintenance" in r <==> maintenance
    ensures "status-live" in r <==> !maintenance
    ensures forall c :: c != "status-maintenance" && c != "status-live" ==> (c in r <==> c in classes)
  {
    if maintenance then classes - {"status-live"} + {"status-maintenance"}
    else classes - {"status-maintenance"} + {"status-live"}
  }

  function StatusText(maintenance: bool): string {
    if maintenance then "Maintenance" else "Live"
  }

  /** What the script writes on the dashboard. */
  datatype Page = Page(
    checked: bool,           // the maintenance toggle
    loading: bool,           // the maintenance card's `loading` class
    indicator: set<string>,  // the status indicator's classes
    statusText: string,      // the indicator's `.status-text`
    toasts: seq<Toast>)      // the toasts added to the container, in order

  function ShowStatus(p: Page, maintenance: bool): Page {
    p.(indicator := StatusClasses(p.indicator, maintenance), statusText := StatusText(maintenance))
  }

  function Shown(p: Page, kind: string, message: string): Page {
    p.(toasts := p.toasts + [MakeToast(kind, message)])
  }

  // ---------------------------------------------------------------------------
  // The maintenance toggle
  // ---------------------------------------------------------------------------

  /** What the `change` handler posts: the new toggle state, the
      configuration id from the element's data, and the CSRF token (the
      header carries the text "null" when there is no cookie). */
  datatype ToggleRequest = ToggleRequest(maintenanceMode: bool, configId: Option<string>, csrfToken: Option<string>)

  /** The request the handler sends, or None when reading the cookie threw
      (the handler then stops with the card left loading). */
  function RequestFor(isEnabled: bool, configId: Option<string>, csrf: CookieLookup): (req: Option<ToggleRequest>)
    ensures req.None? <==> csrf.UriError?
    ensures req.Some? ==> req.value.maintenanceMode == isEnabled && req.value.configId == configId
    ensures req.Some? ==> req.value.csrfToken == (if csrf.Found? then Some(csrf.value) else None)
  {
    match csrf
    case UriError => None
    case NoCookie => Some(ToggleRequest(isEnabled, configId, None))
    case Found(t) => Some(ToggleRequest(isEnabled, configId, Some(t)))
  }

  /** `JSON.stringify({maintenance_mode, config_id})`, as the server decodes
      it; an undefined `config_id` is not written. */
  function RequestBody(req: ToggleRequest): Json {
    JObj([("maintenance_mode", JBool(req.maintenanceMode))]
         + (if req.configId.Some? then [("config_id", JStr(req.configId.value))] else []))
  }

  /** How the request ended: the decoded JSON answer (its `success` and
      `message` fields), or a rejected promise (a network failure or an
      answer that is not JSON). */
  datatype Reply = Answered(success: bool, message: Option<string>) | NoReply

  /** The answer the page decodes from the endpoint's response. A refused
      `null` flag carries no modelled message, so the page falls back to
      "Failed to update maintenance mode" where the real page would show the
      database's error text. */
  function ReplyOf(r: JournalAdmin.ToggleResponse): Reply {
    Answered(r.Toggled?, JournalAdmin.ToggleMessage(r))
  }

  function SuccessText(isEnabled: bool): string {
    "Maintenance mode " + (if isEnabled then "enabled" else "disabled") + " successfully!"
  }

  /** `data.message || 'Failed to update maintenance mode'`. */
  function FailureText(message: Option<string>): (text: string)
    ensures text != ""
    ensures message.Some? && message.value != "" ==> text == message.value
  {
    if message.Some? && message.value != "" then message.value else "Failed to update maintenance mode"
  }

  /** The page after the request's promise settles. */
  function Settled(p: Page, isEnabled: bool, reply: Reply): (q: Page)
    ensures !q.loading
    ensures |q.toasts| == |p.toasts| + 1 && q.toasts[..|p.toasts|] == p.toasts
    ensures var succeeded := reply.Answered? && reply.success;
      && (q.toasts[|p.toasts|].icon == SuccessIcon <==> succeeded)
      && (succeeded ==> q.checked == p.checked && q == Shown(ShowStatus(p, isEnabled), "success", SuccessText(isEnabled)).(loading := false))
      && (!succeeded ==> q.checked == !isEnabled && q.indicator == p.indicator && q.statusText == p.statusText)
  {
    var p' := p.(loading := false);
    match reply
    case Answered(success, message) =>
      if success then Shown(ShowStatus(p', isEnabled), "success", SuccessText(isEnabled))
      else Shown(p'.(checked := !isEnabled), "error", FailureText(message))
    case NoReply =>
      Shown(p'.(checked := !isEnabled), "error", "An error occurred. Please try again.")
  }

  /** The toggle's request, handled by `toggle_maintenance`, stores the new
      state, and once its answer is back the indicator shows that state and
      the toggle keeps it. */
  lemma ToggleRoundTrip(p: Page, row: Option<SiteConfiguration>, req: ToggleRequest)
    ensures var res := JournalAdmin.ToggleSpec(row, "POST", JournalAdmin.Decoded(RequestBody(req)));
      && res.row == Some(SiteConfiguration(req.maintenanceMode))
      && var q := Settled(p, req.maintenanceMode, ReplyOf(res.response));
         && q.checked == p.checked
         && ("status-maintenance" in q.indicator <==> req.maintenanceMode)
         && q.statusText == StatusText(req.maintenanceMode)
         && q.toasts[|p.toasts|].icon == SuccessIcon
  {
    var members := RequestBody(req).members;
    assert members[0] == ("maintenance_mode", JBool(req.maintenanceMode));
    assert Get(members, "maintenance_mode") == Some(JBool(req.maintenanceMode));
    JournalAdmin.ToggleApplies(row, members, req.maintenanceMode);
  }

  /** The dashboard script's state, with the handlers that change it. */
  class AdminPage {
    var checked: bool
    var loading: bool
    var indicator: set<string>
    var statusText: string
    var toasts: seq<Toast>

    function State(): Page
      reads this
    {
      Page(checked, loading, indicator, statusText, toasts)
    }

    /** The page as the template renders it. */
    constructor (checked: bool, indicator: set<string>, statusText: string)
      ensures State() == Page(checked, false, indicator, statusText, [])
    {
      this.checked := checked;
      this.loading := false;
      this.indicator := indicator;
      this.statusText := statusText;
      this.toasts := [];
    }

    /** `updateStatusIndicator(isMaintenanceMode)`. */
    method UpdateStatusIndicator(maintenance: bool)
      modifies this
      ensures State() == ShowStatus(old(State()), maintenance)
    {
      if maintenance {
        indicator := indicator - {"status-live"};
        indicator := indicator + {"status-maintenance"};
        statusText := "Maintenance";
      } else {
        indicator := indicator - {"status-maintenance"};
        indicator := indicator + {"status-live"};
        statusText := "Live";
      }
    }

    /** `showToast(type, message)`: the toast is appended to the container
        (its removal four seconds later is a timer, not modelled). */
    method ShowToast(kind: string, message: string)
      modifies this
      ensures State() == Shown(old(State()), kind, message)
    {
      var className := "toast toast-" + kind;
      var icon := if kind == "success" then SuccessIcon else ErrorIcon;
      toasts := toasts + [Toast(className, icon, message)];
    }

    /** The synchronous part of the `change` handler: read the new state,
        mark the card as loading, read the CSRF cookie and build the
        request. */
    method Change(configId: Option<string>, cookie: Option<string>) returns (req: Option<ToggleRequest>)
      modifies this
      ensures State() == old(State()).(loading := true)
      ensures req == RequestFor(old(checked), configId, CookieValue(cookie, "csrftoken"))
    {
      var isEnabled := checked;
      loading := true;
      var csrf := GetCookie(cookie, "csrftoken");
      match csrf
      case UriError => req := None;
      case NoCookie => req := Some(ToggleRequest(isEnabled, configId, None));
      case Found(t) => req := Some(ToggleRequest(isEnabled, configId, Some(t)));
    }

    /** The `then` and `catch` callbacks, with the `isEnabled` the handler
        captured. */
    method Settle(isEnabled: bool, reply: Reply)
      modifies this
      ensures State() == Settled(old(State()), isEnabled, reply)
    {
      loading := false;
      match reply
      case Answered(success, message) =>
        if success {
          UpdateStatusIndicator(isEnabled);
          ShowToast("success", "Maintenance mode " + (if isEnabled then "enabled" else "disabled") + " successfully!");
        } else {
          checked := !isEnabled;
          ShowToast("error", if message.Some? && message.value != "" then message.value else "Failed to update maintenance mode");
        }
      case NoReply =>
        checked := !isEnabled;
        ShowToast("error", "An error occurred. Please try again.");
    }
  }

  // ---------------------------------------------------------------------------
  // updateStatCards
  // ---------------------------------------------------------------------------

  /** The fields of the statistics answer, in the order of the cards. */
  const StatKeys: seq<string> := ["total_users", "total_entries", "active_users_today", "google_users"]

  /** The card texts after `updateStatCards(data)`. `data` maps each field
      the answer defines to the text its value shows as (`null` shows as
      the empty text). */
  function CardsAfter(cards: seq<string>, data: map<string, string>): (r: seq<string>)
    requires |cards| == 4
    ensures |r| == 4
    ensures forall k :: 0 <= k < 4 ==> r[k] == (if StatKeys[k] in data then data[StatKeys[k]] else cards[k])
  {
    var c1 := if "total_users" in data then cards[0 := data["total_users"]] else cards;
    var c2 := if "total_entries" in data then c1[1 := data["total_entries"]] else c1;
    var c3 := if "active_users_today" in data then c2[2 := data["active_users_today"]] else c2;
    if "google_users" in data then c3[3 := data["google_users"]] else c3
  }

  /** Two refreshes in a row show what one refresh with the later answer
      laid over the earlier one shows. */
  lemma CardsAfterTwice(cards: seq<string>, d1: map<string, string>, d2: map<string, string>)
    requires |cards| == 4
    ensures CardsAfter(CardsAfter(cards, d1), d2) == CardsAfter(cards, d1 + d2)
  {
    var a := CardsAfter(CardsAfter(cards, d1), d2);
    var b := CardsAfter(cards, d1 + d2);
    forall k | 0 <= k < 4 ensures a[k] == b[k] {
    }
  }

  /** `updateStatCards(data)` on the four `.stat-value` texts. */
  method UpdateStatCards(cards: array<string>, data: map<string, string>)
    requires cards.Length == 4
    modifies cards
    ensures cards[..] == CardsAfter(old(cards[..]), data)
  {
    if "total_users" in data {
      cards[0] := data["total_users"];
    }
    if "total_entries" in data {
      cards[1] := data["total_entries"];
    }
    if "active_users_today" in data {
      cards[2] := data["active_users_today"];
    }
    if "google_users" in data {
      cards[3] := data["google_users"];
    }
  }
}
