/** The development server (`server.py`): a static file server whose `GET`
    handler proxies `/api/translate` to the upstream translation service.
    What the handler sends is a sequence of events; the upstream call is the
    parameter `fetch(target, text)` (the decoded JSON answer or the message
    of the exception raised while fetching or decoding it), and percent
    decoding of the query is the parameter `unquote` (`unquote_plus`). */
module TranslateServer {
  import opened Wrappers
  import opened Text
  import opened PyJson
  import JournalViews

  /** What `do_GET` does to the connection. */
  datatype Event =
    | Status(code: int)                  // send_response
    | Header(name: string, value: string) // send_header
    | EndHeaders                         // end_headers
    | Body(json: Json)                   // wfile.write(json.dumps(...))
    | ServeStatic(path: string)          // SimpleHTTPRequestHandler.do_GET

  const ProxyPrefix: string := "/api/translate"

  /** The first position of `c` in `s`. */
  function CharIndex(s: string, c: char): (r: Option<nat>)
    ensures r.Some? ==> r.value < |s| && s[r.value] == c && c !in s[..r.value]
    ensures r.None? ==> c !in s
  {
    if s == [] then None
    else if s[0] == c then Some(0)
    else
      match CharIndex(s[1..], c)
      case None => None
      case Some(i) =>
        assert s[..i + 1] == [s[0]] + s[1..][..i];
        Some(i + 1)
  }

  /** `urlparse(path).query`: the text after the first `?`, the fragment
      (from the first `#`) removed first. */
  function Query(path: string): string {
    var noFragment := match CharIndex(path, '#') case Some(i) => path[..i] case None => path;
    match CharIndex(noFragment, '?')
    case Some(i) => noFragment[i + 1..]
    case None => ""
  }

  /** `parse_qs`'s pairs, in order: each `&`-separated piece holding a `=`
      splits at its first `=`, and a piece whose value is blank (or that
      has no `=`) is dropped. */
  function Pairs(pieces: seq<string>, unquote: string -> string): (r: seq<(string, string)>)
    ensures |r| <= |pieces|
  {
    if pieces == [] then []
    else
      var p := pieces[0];
      var pair := match CharIndex(p, '=')
        case Some(i) => if i + 1 < |p| then [(unquote(p[..i]), unquote(p[i + 1..]))] else []
        case None => [];
      pair + Pairs(pieces[1..], unquote)
  }

  function QueryPairs(path: string, unquote: string -> string): seq<(string, string)> {
    Pairs(Split(Query(path), '&'), unquote)
  }

  /** `params.get(key, [default])[0]`: the first value given for `key`. */
  function FirstValue(pairs: seq<(string, string)>, key: string): (r: Option<string>)
    ensures r.Some? ==> (key, r.value) in pairs
    ensures r.None? <==> forall p :: p in pairs ==> p.0 != key
  {
    if pairs == [] then None
    else if pairs[0].0 == key then Some(pairs[0].1)
    else FirstValue(pairs[1..], key)
  }

  /** What `translated_text` becomes over the given segments, or the
      exception the loop raises first: a truthy segment must have a length
      and, when it is not empty, contributes `segment[0]`, which must be a
      string. */
  function JoinSegments(segments: seq<Json>): Outcome<string> {
    if segments == [] then Ok("")
    else
      match JoinSegments(segments[..|segments| - 1])
      case Raised(m) => Raised(m)
      case Ok(text) =>
        var last := segments[|segments| - 1];
        if !Truthy(last) then Ok(text)
        else
          match Length(last)
          case Raised(m) => Raised(m)
          case Ok(n) =>
            if n <= 0 then Ok(text)
            else
              match First(last)
              case Raised(m) => Raised(m)
              case Ok(head) => Append(text, head)
  }

  /** The translated text of the upstream answer `raw`: the joined segments
      of `raw[0]` when `raw` is a non-empty list, "" otherwise. */
  function TranslatedText(raw: Json): Outcome<string> {
    if Truthy(raw) && raw.JList? then
      match First(raw)
      case Raised(m) => Raised(m)
      case Ok(segs) =>
        match Elements(segs)
        case Raised(m) => Raised(m)
        case Ok(items) => JoinSegments(items)
    else Ok("")
  }

  /** The 500 answer for an exception with text `m`. */
  function Failure(m: string): seq<Event> {
    [Status(500), EndHeaders, Body(JObj([("error", JStr(m))]))]
  }

  /** The 200 answer carrying the translated text `t`. */
  function Success(t: string): seq<Event> {
    [Status(200), Header("Content-Type", "application/json"), Header("Access-Control-Allow-Origin", "*"),
     EndHeaders, Body(JObj([("translatedText", JStr(t))]))]
  }

  /** Everything `do_GET` sends for a request of `path`. */
  function Respond(path: string, unquote: string -> string, fetch: (string, string) -> Outcome<Json>)
    : seq<Event>
  {
    if !StartsWith(path, ProxyPrefix) then [ServeStatic(path)]
    else
      var params := QueryPairs(path, unquote);
      var text := FirstValue(params, "text").GetOr("");
      var target := FirstValue(params, "target").GetOr("es");
      if text == "" then [Status(400), EndHeaders]
      else
        match fetch(target, text)
        case Raised(m) => Failure(m)
        case Ok(raw) =>
          match TranslatedText(raw)
          case Raised(m) => Failure(m)
          case Ok(t) => Success(t)
  }

  // ---------------------------------------------------------------------------
  // Properties
  // ---------------------------------------------------------------------------

  /** Only the proxy prefix is proxied; every other path is served as a
      static file, and a proxied request never is. */
  lemma Routing(path: string, unquote: string -> string, fetch: (string, string) -> Outcome<Json>)
    ensures !StartsWith(path, ProxyPrefix) <==> Respond(path, unquote, fetch) == [ServeStatic(path)]
    ensures StartsWith(path, ProxyPrefix) ==> Respond(path, unquote, fetch)[0].Status?
  {
  }

  /** Without a non-blank `text` parameter the answer is a bare 400 and the
      upstream service is not asked: the answer is the same whatever it
      would say. */
  lemma EmptyTextNoFetch(path: string, unquote: string -> string,
                         f: (string, string) -> Outcome<Json>, g: (string, string) -> Outcome<Json>)
    requires StartsWith(path, ProxyPrefix)
    requires FirstValue(QueryPairs(path, unquote), "text").GetOr("") == ""
    ensures Respond(path, unquote, f) == Respond(path, unquote, g) == [Status(400), EndHeaders]
  {
  }

  /** The upstream service is asked with the first `text` value and the
      first `target` value, Spanish when there is none; an exception becomes
      a 500 carrying its text. */
  lemma FetchArguments(path: string, unquote: string -> string, fetch: (string, string) -> Outcome<Json>)
    requires StartsWith(path, ProxyPrefix)
    requires FirstValue(QueryPairs(path, unquote), "text").Some?
    requires FirstValue(QueryPairs(path, unquote), "text").value != ""
    ensures var params := QueryPairs(path, unquote);
      var text := FirstValue(params, "text").value;
      var target := if FirstValue(params, "target").Some? then FirstValue(params, "target").value else "es";
      && (fetch(target, text).Raised? ==> Respond(path, unquote, fetch) == Failure(fetch(target, text).message))
      && (fetch(target, text).Ok? && TranslatedText(fetch(target, text).value).Ok? ==>
            Respond(path, unquote, fetch) == Success(TranslatedText(fetch(target, text).value).value))
  {
  }

  /** A later value for a key never overrides the first one. */
  lemma {:induction false} FirstValueWins(a: seq<(string, string)>, b: seq<(string, string)>, key: string)
    requires FirstValue(a, key).Some?
    ensures FirstValue(a + b, key) == FirstValue(a, key)
  {
    if a[0].0 != key {
      assert (a + b)[1..] == a[1..] + b;
      FirstValueWins(a[1..], b, key);
    }
  }

  /** A piece with a blank value adds no pair, so a blank `target=` leaves
      the Spanish default in place. */
  lemma {:induction false} BlankValueDropped(name: string, rest: seq<string>, unquote: string -> string)
    requires '=' !in name
    ensures Pairs([name + "="] + rest, unquote) == Pairs(rest, unquote)
  {
    var p := name + "=";
    assert p[..|name|] == name;
    assert CharIndex(p, '=') == Some(|name|);
    assert ([p] + rest)[1..] == rest;
  }

  /** A piece `name=value` with a non-blank value adds the pair of its
      decoded halves, split at the first `=`. */
  lemma PairKept(name: string, value: string, rest: seq<string>, unquote: string -> string)
    requires '=' !in name && value != ""
    ensures Pairs([name + "=" + value] + rest, unquote) == [(unquote(name), unquote(value))] + Pairs(rest, unquote)
  {
    var p := name + "=" + value;
    assert p[..|name|] == name;
    assert p[|name|] == '=';
    assert CharIndex(p, '=') == Some(|name|);
    assert p[|name| + 1..] == value;
    assert ([p] + rest)[1..] == rest;
  }

  /** A request `/api/translate?text=v&...` asks for the decoded `v`: the
      query starts after the `?`, the first piece is kept, and the first
      value wins. */
  lemma TextParameterRead(v: string, more: string, unquote: string -> string)
    requires v != "" && '&' !in v && '#' !in v && '#' !in more
    requires unquote("text") == "text"
    ensures FirstValue(QueryPairs(ProxyPrefix + "?text=" + v + "&" + more, unquote), "text") == Some(unquote(v))
  {
    var path := ProxyPrefix + "?text=" + v + "&" + more;
    var q := "text=" + v + "&" + more;
    assert path == ProxyPrefix + "?" + q;
    assert path[|ProxyPrefix|] == '?';
    assert path[..|ProxyPrefix|] == ProxyPrefix;
    assert '#' !in path by {
      assert path == ProxyPrefix + "?text=" + (v + "&" + more);
    }
    assert CharIndex(path, '#') == None;
    assert CharIndex(path, '?') == Some(|ProxyPrefix|);
    assert path[|ProxyPrefix| + 1..] == q;
    assert Query(path) == q;
    assert '&' !in "text=" + v;
    assert q == ("text=" + v) + "&" + more;
    SplitConcat("text=" + v, '&', more);
    assert "text=" + v == "text" + "=" + v;
    PairKept("text", v, Split(more, '&'), unquote);
  }

  /** Where every truthy segment is a list, a string or an object, the
      server's loop computes what the Django view's loop computes. */
  lemma {:induction false} JoinAgreesWithView(segments: seq<Json>)
    requires forall i :: 0 <= i < |segments| && Truthy(segments[i]) ==>
               segments[i].JList? || segments[i].JStr? || segments[i].JObj?
    ensures JoinSegments(segments) == JournalViews.JoinSegments(segments)
  {
    if segments != [] {
      var n := |segments| - 1;
      JoinAgreesWithView(segments[..n]);
    }
  }

  /** Well-formed segments join to the concatenation of their pieces, in
      order. */
  lemma JoinTextSegments(pieces: seq<string>, rests: seq<seq<Json>>)
    requires |rests| == |pieces|
    ensures JoinSegments(seq(|pieces|, i requires 0 <= i < |pieces| => JournalViews.TextSegment(pieces[i], rests[i])))
            == Ok(JournalViews.Concat(pieces))
  {
    var segs := seq(|pieces|, i requires 0 <= i < |pieces| => JournalViews.TextSegment(pieces[i], rests[i]));
    JoinAgreesWithView(segs);
    JournalViews.JoinTextSegments(pieces, rests);
  }

  /** A truthy number as a segment fails in both loops, with different
      texts: the server asks for its length first (`object of type 'int' has
      no len()`), the view indexes it (`'int' object is not subscriptable`). */
  lemma NumberSegmentMessages()
    ensures JoinSegments([JNum(1)]) == Raised(Length(JNum(1)).message)
    ensures JournalViews.JoinSegments([JNum(1)]) == Raised(First(JNum(1)).message)
    ensures JoinSegments([JNum(1)]) != JournalViews.JoinSegments([JNum(1)])
  {
    var segs := [JNum(1)];
    assert segs[..0] == [];
    assert Length(JNum(1)).message[0] == 'o';
    assert First(JNum(1)).message[0] == '\'';
  }

  /** `SimpleHTTPRequestHandler` with the proxying `do_GET`. */
  class JournalHandler {
    var sent: seq<Event>

    constructor ()
      ensures sent == []
    {
      sent := [];
    }

    /** `do_GET`; the segment loop accumulates `translated_text`. */
    method DoGet(path: string, unquote: string -> string, fetch: (string, string) -> Outcome<Json>)
      modifies this
      ensures sent == old(sent) + Respond(path, unquote, fetch)
    {
      if !StartsWith(path, ProxyPrefix) {
        sent := sent + [ServeStatic(path)];
        return;
      }
      var params := QueryPairs(path, unquote);
      var text := FirstValue(params, "text").GetOr("");
      var targetLang := FirstValue(params, "target").GetOr("es");
      if text == "" {
        sent := sent + [Status(400), EndHeaders];
        return;
      }
      var fetched := fetch(targetLang, text);
      if fetched.Raised? {
        sent := sent + Failure(fetched.message);
        return;
      }
      var raw := fetched.value;
      var translated := "";
      if Truthy(raw) && raw.JList? {
        var segments := Elements(First(raw).value);
        if segments.Raised? {
          sent := sent + Failure(segments.message);
          return;
        }
        var joined := JoinLoop(segments.value);
        if joined.Raised? {
          sent := sent + Failure(joined.message);
          return;
        }
        translated := joined.value;
      }
      sent := sent + Success(translated);
    }
  }

  /** `for segment in raw_json[0]`: accumulates `translated_text`, or stops
      at the first exception. */
  method JoinLoop(items: seq<Json>) returns (r: Outcome<string>)
    ensures r == JoinSegments(items)
  {
    var translated := "";
    var i := 0;
    while i < |items|
      invariant 0 <= i <= |items|
      invariant JoinSegments(items[..i]) == Ok(translated)
    {
      var segment := items[i];
      assert items[..i + 1][..i] == items[..i];
      if Truthy(segment) {
        var len := Length(segment);
        if len.Raised? {
          JoinRaisedPrefix(items, i + 1, len.message);
          return Raised(len.message);
        }
        if len.value > 0 {
          var head := First(segment);
          if head.Raised? {
            JoinRaisedPrefix(items, i + 1, head.message);
            return Raised(head.message);
          }
          var appended := Append(translated, head.value);
          if appended.Raised? {
            JoinRaisedPrefix(items, i + 1, appended.message);
            return Raised(appended.message);
          }
          translated := appended.value;
        }
      }
      i := i + 1;
    }
    assert items[..|items|] == items;
    return Ok(translated);
  }

  /** Once the loop has raised, the rest of the segments do not matter. */
  lemma {:induction false} JoinRaisedPrefix(segments: seq<Json>, i: nat, m: string)
    requires i <= |segments| && JoinSegments(segments[..i]) == Raised(m)
    ensures JoinSegments(segments) == Raised(m)
    decreases |segments| - i
  {
    if i < |segments| {
      assert segments[..i + 1][..i] == segments[..i];
      JoinRaisedPrefix(segments, i + 1, m);
    } else {
      assert segments[..i] == segments;
    }
  }
}
