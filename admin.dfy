/** The admin site's own logic: the display columns the user, entry and
    social-account pages show (with their fallbacks), the single-row guard on
    the site configuration (see `SiteConfig.ConfigTable.HasAddPermission`)
    and the AJAX endpoint that switches maintenance mode. */
module JournalAdmin {
  import opened Wrappers
  import opened Text
  import opened PyJson
  import opened SiteConfig

  // ---------------------------------------------------------------------------
  // HTML escaping (what `format_html` applies to its arguments)
  // ---------------------------------------------------------------------------

  function EscapeChar(c: char): string {
    if c == '&' then "&amp;"
    else if c == '<' then "&lt;"
    else if c == '>' then "&gt;"
    else if c == '"' then "&quot;"
    else if c == '\'' then "&#x27;"
    else [c]
  }

  /** `django.utils.html.escape`: the five HTML-special characters become
      entities, everything else is kept. */
  function Escape(s: string): (r: string)
    ensures |r| >= |s|
  {
    if s == [] then [] else EscapeChar(s[0]) + Escape(s[1..])
  }

  /** The entity at the start of `s`, if any: the character it stands for
      and its length. */
  function Entity(s: string): (r: Option<(char, nat)>)
    ensures r.Some? ==> 4 <= r.value.1 <= |s|
  {
    if |s| >= 4 && s[0] == '&' && s[2] == 't' && s[3] == ';' && (s[1] == 'l' || s[1] == 'g') then
      Some((if s[1] == 'l' then '<' else '>', 4))
    else if |s| >= 5 && s[0] == '&' && s[1] == 'a' && s[2] == 'm' && s[3] == 'p' && s[4] == ';' then
      Some(('&', 5))
    else if |s| >= 6 && s[0] == '&' && s[1] == 'q' && s[2] == 'u' && s[3] == 'o' && s[4] == 't' && s[5] == ';' then
      Some(('"', 6))
    else if |s| >= 6 && s[0] == '&' && s[1] == '#' && s[2] == 'x' && s[3] == '2' && s[4] == '7' && s[5] == ';' then
      Some(('\'', 6))
    else None
  }

  /** Reads the five entities back (the inverse of Escape). */
  function Unescape(s: string): string
    decreases |s|
  {
    if s == [] then []
    else
      match Entity(s)
      case Some((c, n)) => [c] + Unescape(s[n..])
      case None => [s[0]] + Unescape(s[1..])
  }

  lemma UnescapeChar(c: char, rest: string)
    ensures Unescape(EscapeChar(c) + rest) == [c] + Unescape(rest)
  {
    var head := EscapeChar(c);
    var e := head + rest;
    assert e[|head|..] == rest;
    assert forall k :: 0 <= k < |head| ==> e[k] == head[k];
    if c == '&' {
      assert Entity(e) == Some(('&', 5));
    } else if c == '<' {
      assert Entity(e) == Some(('<', 4));
    } else if c == '>' {
      assert Entity(e) == Some(('>', 4));
    } else if c == '"' {
      assert Entity(e) == Some(('"', 6));
    } else if c == '\'' {
      assert Entity(e) == Some(('\'', 6));
    } else {
      assert Entity(e) == None;
    }
  }

  /** Escaping loses nothing: the text can be read back. */
  lemma {:induction false} UnescapeEscape(s: string)
    ensures Unescape(Escape(s)) == s
  {
    if s != [] {
      UnescapeChar(s[0], Escape(s[1..]));
      UnescapeEscape(s[1..]);
      assert [s[0]] + s[1..] == s;
    }
  }

  /** Neither a markup delimiter nor a quote. */
  predicate Inert(ch: char) {
    ch != '<' && ch != '>' && ch != '"' && ch != '\''
  }

  /** Escaped text holds no markup delimiter and no quote. */
  lemma {:induction false} EscapeIsInert(s: string)
    ensures forall i :: 0 <= i < |Escape(s)| ==> Inert(Escape(s)[i])
  {
    if s != [] {
      EscapeIsInert(s[1..]);
      var head := EscapeChar(s[0]);
      var tail := Escape(s[1..]);
      var r := Escape(s);
      assert r == head + tail;
      assert forall k :: 0 <= k < |head| ==> Inert(head[k]);
      forall i | 0 <= i < |r|
        ensures Inert(r[i])
      {
        if i >= |head| {
          assert r[i] == tail[i - |head|];
        } else {
          assert r[i] == head[i];
        }
      }
    }
  }

  // ---------------------------------------------------------------------------
  // Provider data (`extra_data`)
  // ---------------------------------------------------------------------------

  /** `data = obj.extra_data or {}`, and the `data.get` that follows: a falsy
      value counts as an empty object; a truthy value that is not an object
      has no `get` and raises AttributeError. */
  function ProfileData(extra: Json): (r: Outcome<seq<(string, Json)>>)
    ensures !Truthy(extra) ==> r == Ok([])
    ensures extra.JObj? ==> r == Ok(extra.members)
    ensures r.Raised? <==> Truthy(extra) && !extra.JObj?
  {
    if !Truthy(extra) then Ok([])
    else if extra.JObj? then Ok(extra.members)
    else Raised(NoGetMessage(extra))
  }

  /** `data.get(key, default)`. */
  function GetOrDefault(data: seq<(string, Json)>, key: string, default: Json): (v: Json)
    ensures (key, v) in data || (v == default && forall m :: m in data ==> m.0 != key)
  {
    Get(data, key).GetOr(default)
  }

  /** `data.get(first, data.get(second, '-'))`: the value under the first
      key, else the value under the second, else '-'. */
  function FirstOf(data: seq<(string, Json)>, first: string, second: string): (v: Json)
    ensures Get(data, first).Some? ==> v == Get(data, first).value
    ensures Get(data, first).None? && Get(data, second).Some? ==> v == Get(data, second).value
    ensures Get(data, first).None? && Get(data, second).None? ==> v == JStr("-")
  {
    GetOrDefault(data, first, GetOrDefault(data, second, JStr("-")))
  }

  /** `get_name`: 'name', else 'given_name', else '-'. */
  function GetName(extra: Json): (r: Outcome<Json>)
    ensures r.Ok? <==> ProfileData(extra).Ok?
    ensures r.Ok? ==> r.value == FirstOf(ProfileData(extra).value, "name", "given_name")
  {
    match ProfileData(extra)
    case Ok(data) => Ok(FirstOf(data, "name", "given_name"))
    case Raised(m) => Raised(m)
  }

  /** `get_country`: 'country', else 'location', else '-'. */
  function GetCountry(extra: Json): (r: Outcome<Json>)
    ensures r.Ok? <==> ProfileData(extra).Ok?
    ensures r.Ok? ==> r.value == FirstOf(ProfileData(extra).value, "country", "location")
  {
    match ProfileData(extra)
    case Ok(data) => Ok(FirstOf(data, "country", "location"))
    case Raised(m) => Raised(m)
  }

  /** `get_locale`: 'locale', else '-'. */
  function GetLocale(extra: Json): (r: Outcome<Json>)
    ensures r.Ok? <==> ProfileData(extra).Ok?
    ensures r.Ok? ==> (("locale", r.value) in ProfileData(extra).value
                       || (r.value == JStr("-")
                           && forall m :: m in ProfileData(extra).value ==> m.0 != "locale"))
  {
    match ProfileData(extra)
    case Ok(data) => Ok(GetOrDefault(data, "locale", JStr("-")))
    case Raised(m) => Raised(m)
  }

  /** With no provider data at all every column shows '-'. */
  lemma NoDataShowsDash(extra: Json)
    requires !Truthy(extra)
    ensures GetName(extra) == Ok(JStr("-")) && GetCountry(extra) == Ok(JStr("-"))
    ensures GetLocale(extra) == Ok(JStr("-"))
    ensures GetEmail(extra) == Ok(Shown(JStr("-")))
  {
  }

  /** What the e-mail column shows: the stored value as it is, or, for a
      verified address, the green check mark followed by the escaped text. */
  datatype EmailCell = Shown(value: Json) | Marked(html: string)

  const MarkPrefix: string := "<span style=\"color: green;\">✓ "
  const MarkSuffix: string := "</span>"

  /** `get_email`: the 'email' value (default '-'), marked as verified only
      when 'verified_email' is truthy. */
  function GetEmail(extra: Json): (r: Outcome<EmailCell>)
    ensures r.Ok? <==> ProfileData(extra).Ok?
    ensures r.Ok? ==>
      var data := ProfileData(extra).value;
      var email := GetOrDefault(data, "email", JStr("-"));
      && (r.value.Shown? <==> !Truthy(GetOrDefault(data, "verified_email", JBool(false))))
      && (r.value.Shown? ==> r.value.value == email)
      && (r.value.Marked? ==>
            && |r.value.html| >= |MarkPrefix| + |MarkSuffix|
            && StartsWith(r.value.html, MarkPrefix)
            && Unescape(r.value.html[|MarkPrefix|..|r.value.html| - |MarkSuffix|]) == PyStr(email)
            && (forall i :: |MarkPrefix| <= i < |r.value.html| - |MarkSuffix| ==> Inert(r.value.html[i]))
            && r.value.html[|r.value.html| - |MarkSuffix|..] == MarkSuffix)
  {
    match ProfileData(extra)
    case Raised(m) => Raised(m)
    case Ok(data) =>
      var email := GetOrDefault(data, "email", JStr("-"));
      if !Truthy(GetOrDefault(data, "verified_email", JBool(false))) then Ok(Shown(email))
      else
        var text := PyStr(email);
        var html := MarkPrefix + Escape(text) + MarkSuffix;
        assert html[|MarkPrefix|..|html| - |MarkSuffix|] == Escape(text);
        assert html[..|MarkPrefix|] == MarkPrefix;
        assert html[|html| - |MarkSuffix|..] == MarkSuffix;
        UnescapeEscape(text);
        EscapeIsInert(text);
        assert forall i :: |MarkPrefix| <= i < |html| - |MarkSuffix| ==>
          html[i] == Escape(text)[i - |MarkPrefix|];
        Ok(Marked(html))
  }

  // ---------------------------------------------------------------------------
  // user_email (entry list and social-account list alike)
  // ---------------------------------------------------------------------------

  datatype User = User(email: string)

  /** `obj.user.email if obj.user else '-'`. */
  function UserEmail(user: Option<User>): (s: string)
    ensures user.None? ==> s == "-"
    ensures user.Some? ==> s == user.value.email
  {
    match user
    case None => "-"
    case Some(u) => u.email
  }

  // ---------------------------------------------------------------------------
  // get_social_accounts
  // ---------------------------------------------------------------------------

  const NoAccountsHtml: string := "<span style=\"color: #999;\">Email/Password</span>"

  /** The icon of a provider, with the link icon for unknown ones. */
  function Icon(provider: string): (icon: string)
    ensures |icon| == 1 && icon[0] != '|' && icon[0] != ' '
  {
    if provider == "google" then "\U{1F535}"
    else if provider == "facebook" then "\U{1F537}"
    else if provider == "github" then "⚫"
    else if provider == "twitter" then "\U{1F426}"
    else "\U{1F517}"
  }

  /** `str.title()`, from a position whose previous character is (or is
      not) a letter: a letter after a letter is lowered, any other letter
      is raised, other characters are kept. */
  function TitleFrom(s: string, afterLetter: bool): (t: string)
    ensures |t| == |s|
  {
    if s == [] then []
    else [if afterLetter then ToLower(s[0]) else ToUpper(s[0])] + TitleFrom(s[1..], IsLetter(s[0]))
  }

  function TitleCase(s: string): (t: string)
    ensures |t| == |s|
  {
    TitleFrom(s, false)
  }

  /** Position by position: a character is raised exactly when it starts a
      word (nothing or a non-letter before it) and lowered otherwise. */
  lemma {:induction false} TitleFromAt(s: string, afterLetter: bool, i: nat)
    requires i < |s|
    ensures TitleFrom(s, afterLetter)[i]
            == (if (if i == 0 then afterLetter else IsLetter(s[i - 1])) then ToLower(s[i]) else ToUpper(s[i]))
  {
    if i > 0 {
      TitleFromAt(s[1..], IsLetter(s[0]), i - 1);
      assert s[1..][i - 1] == s[i];
      if i > 1 {
        assert s[1..][i - 2] == s[i - 1];
      }
    }
  }

  /** Title-casing twice is title-casing once. */
  lemma TitleCaseIdempotent(s: string)
    ensures TitleCase(TitleCase(s)) == TitleCase(s)
  {
    var t := TitleCase(s);
    forall i | 0 <= i < |s|
      ensures TitleCase(t)[i] == t[i]
    {
      TitleFromAt(s, false, i);
      TitleFromAt(t, false, i);
      if i > 0 {
        TitleFromAt(s, false, i - 1);
      }
    }
  }

  /** One account: its icon, a space and the provider's title-cased name. */
  function AccountPart(provider: string): string {
    Icon(provider) + " " + TitleCase(provider)
  }

  /** `get_social_accounts` over the user's providers, in account order. */
  function SocialAccountsHtml(providers: seq<string>): string {
    if providers == [] then NoAccountsHtml
    else Join(seq(|providers|, i requires 0 <= i < |providers| => AccountPart(providers[i])), " | ")
  }

  /** The loop of `get_social_accounts`. */
  method SocialAccounts(providers: seq<string>) returns (html: string)
    ensures html == SocialAccountsHtml(providers)
  {
    if providers == [] {
      return NoAccountsHtml;
    }
    var parts: seq<string> := [];
    var i := 0;
    while i < |providers|
      invariant 0 <= i <= |providers|
      invariant |parts| == i
      invariant forall k :: 0 <= k < i ==> parts[k] == AccountPart(providers[k])
    {
      parts := parts + [AccountPart(providers[i])];
      i := i + 1;
    }
    assert parts == seq(|providers|, k requires 0 <= k < |providers| => AccountPart(providers[k]));
    html := Join(parts, " | ");
  }

  /** The pieces between bars, with the spaces around each bar moved into
      the pieces. */
  function Padded(parts: seq<string>, k: nat): string
    requires k < |parts|
  {
    (if k > 0 then " " else "") + parts[k] + (if k < |parts| - 1 then " " else "")
  }

  function PaddedAll(parts: seq<string>): (padded: seq<string>)
    ensures |padded| == |parts|
  {
    seq(|parts|, k requires 0 <= k < |parts| => Padded(parts, k))
  }

  /** Joining with " | " is joining the padded pieces with "|". */
  lemma {:induction false} JoinPadded(parts: seq<string>)
    requires |parts| > 0
    ensures Join(parts, " | ") == Join(PaddedAll(parts), "|")
  {
    if |parts| > 1 {
      var rest := parts[1..];
      JoinPadded(rest);
      var p := PaddedAll(rest);
      var q := [" " + p[0]] + p[1..];
      assert PaddedAll(parts) == [parts[0] + " "] + q by {
        forall k | 0 <= k < |parts|
          ensures PaddedAll(parts)[k] == ([parts[0] + " "] + q)[k]
        {
          if k > 1 {
            assert q[k - 1] == p[k - 1] == Padded(rest, k - 1);
          }
        }
      }
      JoinPrependFirst(p, " ", "|");
      assert Join([parts[0] + " "] + q, "|") == parts[0] + " " + "|" + Join(q, "|") by {
        assert ([parts[0] + " "] + q)[1..] == q;
      }
    }
  }

  /** Putting text in front of the first piece puts it in front of the join. */
  lemma JoinPrependFirst(ps: seq<string>, y: string, sep: string)
    requires |ps| > 0
    ensures Join([y + ps[0]] + ps[1..], sep) == y + Join(ps, sep)
  {
    var qs := [y + ps[0]] + ps[1..];
    if |ps| > 1 {
      assert qs[1..] == ps[1..];
    }
  }

  /** Reading the column back: split at the bars, every piece is one
      account's part (with the spaces that separated it from its
      neighbours), in account order. */
  lemma SocialAccountsSplit(providers: seq<string>)
    requires providers != []
    requires forall i :: 0 <= i < |providers| ==> '|' !in providers[i]
    ensures var parts := seq(|providers|, i requires 0 <= i < |providers| => AccountPart(providers[i]));
      Split(SocialAccountsHtml(providers), '|') == PaddedAll(parts)
  {
    var parts := seq(|providers|, i requires 0 <= i < |providers| => AccountPart(providers[i]));
    JoinPadded(parts);
    var padded := PaddedAll(parts);
    forall k | 0 <= k < |padded|
      ensures '|' !in padded[k]
    {
      TitleCaseKeepsBars(providers[k]);
      assert AccountPart(providers[k]) == Icon(providers[k]) + " " + TitleCase(providers[k]);
    }
    SplitUnique(padded, '|');
  }

  lemma TitleCaseKeepsBars(s: string)
    requires '|' !in s
    ensures '|' !in TitleCase(s)
  {
    var t := TitleCase(s);
    forall i | 0 <= i < |t|
      ensures t[i] != '|'
    {
      TitleFromAt(s, false, i);
    }
  }

  // ---------------------------------------------------------------------------
  // toggle_maintenance
  // ---------------------------------------------------------------------------

  /** The request body: text `json.loads` rejects (with its message), or
      the decoded value. */
  datatype ToggleBody = Malformed(message: string) | Decoded(value: Json)

  /** Why the endpoint answered with 400. */
  datatype ToggleFailure =
    | WrongMethod                // not a POST
    | ToggleError(message: string)  // an exception, by its str(e)
    | NotAFlag(value: Json)      // a value `BooleanField.to_python` refuses before saving
    | NullFlag                   // `null`, which the database refuses on save

  datatype ToggleResponse =
    | Toggled(maintenanceMode: Json, message: string)
    | ToggleFailed(cause: ToggleFailure)

  function ToggleStatus(r: ToggleResponse): (status: nat)
    ensures status == 200 <==> r.Toggled?
  {
    if r.Toggled? then 200 else 400
  }

  /** `str(e)` of the ValidationError `BooleanField.to_python` raises for a
      value it refuses: the list of its one message, which quotes `str(v)`
      (the message of a column declared without `null=True`). */
  function FlagMessage(v: Json): string {
    PyRepr(JList([JStr("“" + PyStr(v) + FlagMessageTail)]))
  }

  const FlagMessageTail: string := "” value must be either True or False."

  /** The `message` of the JSON answer; None for the database's refusal of
      NULL, whose text names the configuration's table, which is not part of
      this model. */
  function ToggleMessage(r: ToggleResponse): Option<string> {
    match r
    case Toggled(_, m) => Some(m)
    case ToggleFailed(WrongMethod) => Some("Invalid request method")
    case ToggleFailed(ToggleError(m)) => Some(m)
    case ToggleFailed(NotAFlag(v)) => Some(FlagMessage(v))
    case ToggleFailed(NullFlag) => None
  }

  /** How the boolean column stores an assigned value
      (`BooleanField.to_python`): booleans, 0 and 1 and the texts
      't', 'True', '1', 'f', 'False', '0'; anything else is refused, `null`
      by the database and the rest by the field. */
  function StoredFlag(v: Json): (flag: Option<bool>)
    ensures v.JBool? ==> flag == Some(v.b)
  {
    match v
    case JBool(b) => Some(b)
    case JNum(n) => if n == 1 then Some(true) else if n == 0 then Some(false) else None
    case JStr(s) =>
      if s == "t" || s == "True" || s == "1" then Some(true)
      else if s == "f" || s == "False" || s == "0" then Some(false)
      else None
    case _ => None
  }

  /** `SiteConfiguration.load()` on the table's row. */
  function Loaded(row: Option<SiteConfiguration>): SiteConfiguration {
    row.GetOr(SiteConfiguration(false))
  }

  datatype ToggleResult = ToggleResult(response: ToggleResponse, row: Option<SiteConfiguration>)

  /** The answer of `toggle_maintenance` and the configuration row after it. */
  function ToggleSpec(row: Option<SiteConfiguration>, verb: string, body: ToggleBody): ToggleResult {
    if verb != "POST" then ToggleResult(ToggleFailed(WrongMethod), row)
    else
      match body
      case Malformed(m) => ToggleResult(ToggleFailed(ToggleError(m)), row)
      case Decoded(v) =>
        if !v.JObj? then ToggleResult(ToggleFailed(ToggleError(NoGetMessage(v))), row)
        else
          var mode := GetOrDefault(v.members, "maintenance_mode", JBool(false));
          match StoredFlag(mode)
          case None =>
            ToggleResult(ToggleFailed(if mode.JNull? then NullFlag else NotAFlag(mode)), Some(Loaded(row)))
          case Some(flag) =>
            ToggleResult(Toggled(mode, "Maintenance mode " + (if Truthy(mode) then "enabled" else "disabled")),
                         Some(SiteConfiguration(flag)))
  }

  /** `toggle_maintenance`: load the configuration, set the flag, save. */
  method ToggleMaintenance(site: ConfigTable, verb: string, body: ToggleBody) returns (r: ToggleResponse)
    modifies site
    ensures r == ToggleSpec(old(site.row), verb, body).response
    ensures site.row == ToggleSpec(old(site.row), verb, body).row
  {
    if verb != "POST" {
      return ToggleFailed(WrongMethod);
    }
    match body
    case Malformed(m) =>
      r := ToggleFailed(ToggleError(m));
    case Decoded(v) =>
      if !v.JObj? {
        return ToggleFailed(ToggleError(NoGetMessage(v)));
      }
      var mode := GetOrDefault(v.members, "maintenance_mode", JBool(false));
      var config := site.Load();
      var flag := StoredFlag(mode);
      if flag.None? {
        return ToggleFailed(if mode.JNull? then NullFlag else NotAFlag(mode));
      }
      site.Save(SiteConfiguration(flag.value));
      r := Toggled(mode, "Maintenance mode " + (if Truthy(mode) then "enabled" else "disabled"));
  }

  /** Posting a boolean stores it and reports it; an object without the key
      switches maintenance off. */
  lemma ToggleApplies(row: Option<SiteConfiguration>, members: seq<(string, Json)>, b: bool)
    requires Get(members, "maintenance_mode") == Some(JBool(b))
             || (b == false && Get(members, "maintenance_mode").None?)
    ensures var res := ToggleSpec(row, "POST", Decoded(JObj(members)));
      && res.row == Some(SiteConfiguration(b))
      && ToggleStatus(res.response) == 200
      && ToggleMessage(res.response) == Some(if b then "Maintenance mode enabled" else "Maintenance mode disabled")
  {
    assert "Maintenance mode " + "enabled" == "Maintenance mode enabled";
    assert "Maintenance mode " + "disabled" == "Maintenance mode disabled";
  }

  /** A request that is not a POST, or whose body cannot be read, changes
      nothing, not even by creating the row. */
  lemma ToggleRejectsBeforeLoading(row: Option<SiteConfiguration>, verb: string, body: ToggleBody)
    requires verb != "POST" || body.Malformed? || (body.Decoded? && !body.value.JObj?)
    ensures ToggleSpec(row, verb, body).row == row
    ensures ToggleStatus(ToggleSpec(row, verb, body).response) == 400
  {
  }

  /** The reported text follows Python truthiness of the posted value, the
      stored flag follows the column's conversion: for the text "0" they
      disagree. */
  lemma ToggleTextZero(row: Option<SiteConfiguration>)
    ensures var res := ToggleSpec(row, "POST", Decoded(JObj([("maintenance_mode", JStr("0"))])));
      res.row == Some(SiteConfiguration(false))
      && ToggleMessage(res.response) == Some("Maintenance mode enabled")
  {
    var members := [("maintenance_mode", JStr("0"))];
    assert Get(members, "maintenance_mode") == Some(JStr("0"));
    assert StoredFlag(JStr("0")) == Some(false);
    assert "Maintenance mode " + "enabled" == "Maintenance mode enabled";
  }

  lemma FlagMessageTailPlain()
    ensures forall i :: 0 <= i < |FlagMessageTail| ==> PlainChar(FlagMessageTail[i])
  {
  }

  /** For a text without quotes, backslashes or control characters, the
      field's message quotes it as it is. */
  lemma FlagMessageOfText(t: string)
    requires forall i :: 0 <= i < |t| ==> PlainChar(t[i])
    ensures FlagMessage(JStr(t)) == "['“" + t + FlagMessageTail + "']"
  {
    var text := "“" + t + FlagMessageTail;
    FlagMessageTailPlain();
    assert forall i :: 0 <= i < |text| ==> PlainChar(text[i]) by {
      forall i | 0 <= i < |text|
        ensures PlainChar(text[i])
      {
        if i == 0 {
        } else if i < |t| + 1 {
          assert text[i] == t[i - 1];
        } else {
          assert text[i] == FlagMessageTail[i - |t| - 1];
        }
      }
    }
    StrReprPlain(text);
    var quoted := "'" + text + "'";
    assert PyRepr(JStr(text)) == quoted;
    ReprSingleton(JStr(text));
  }

  /** A text the column cannot read as a boolean is refused with the
      field's message, after the configuration row has been created. */
  lemma ToggleRefusesText(row: Option<SiteConfiguration>)
    ensures var res := ToggleSpec(row, "POST", Decoded(JObj([("maintenance_mode", JStr("yes"))])));
      && res.row == Some(Loaded(row))
      && ToggleStatus(res.response) == 400
      && ToggleMessage(res.response) == Some("['“yes" + FlagMessageTail + "']")
  {
    var members := [("maintenance_mode", JStr("yes"))];
    assert Get(members, "maintenance_mode") == Some(JStr("yes"));
    FlagMessageOfText("yes");
    assert StoredFlag(JStr("yes")).None?;
    assert ToggleSpec(row, "POST", Decoded(JObj(members))).response == ToggleFailed(NotAFlag(JStr("yes")));
    assert "['“" + "yes" + FlagMessageTail + "']" == "['“yes" + FlagMessageTail + "']";
  }
}
