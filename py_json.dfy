/** Values decoded by Python's `json.loads`, with the few Python operations the
    views apply to them (truth value, iteration, `x[0]`, `len`, `str +=`) and
    the exceptions those operations raise. */
module PyJson {
  import opened Wrappers
  import opened Text

  /** A decoded JSON value. Numbers are integers; object members keep their
      order and have distinct names. */
  datatype Json =
    | JNull
    | JBool(b: bool)
    | JNum(n: int)
    | JStr(s: string)
    | JList(items: seq<Json>)
    | JObj(members: seq<(string, Json)>)

  /** The result of evaluating a Python expression: a value, or the exception
      it raised, given by its `str(e)`. */
  datatype Outcome<T> = Ok(value: T) | Raised(message: string)

  /** Python's truth value (`if v:`). */
  predicate Truthy(v: Json) {
    match v
    case JNull => false
    case JBool(b) => b
    case JNum(n) => n != 0
    case JStr(s) => s != ""
    case JList(items) => items != []
    case JObj(members) => members != []
  }

  /** `type(v).__name__`. */
  function TypeName(v: Json): string {
    match v
    case JNull => "NoneType"
    case JBool(_) => "bool"
    case JNum(_) => "int"
    case JStr(_) => "str"
    case JList(_) => "list"
    case JObj(_) => "dict"
  }

  /** What `for x in v` visits: list items, the characters of a string, the
      member names of an object; anything else raises TypeError. */
  function Elements(v: Json): (r: Outcome<seq<Json>>)
    ensures r.Ok? <==> (v.JList? || v.JStr? || v.JObj?)
  {
    match v
    case JList(items) => Ok(items)
    case JStr(s) => Ok(seq(|s|, i requires 0 <= i < |s| => JStr([s[i]])))
    case JObj(members) => Ok(seq(|members|, i requires 0 <= i < |members| => JStr(members[i].0)))
    case _ => Raised("'" + TypeName(v) + "' object is not iterable")
  }

  /** `v[0]`. An object's member names are strings, so the key 0 is never
      present and `KeyError(0)` is raised, whose text is `0`. */
  function First(v: Json): (r: Outcome<Json>)
    ensures (v.JList? || v.JStr?) && Truthy(v) ==> r.Ok?
  {
    match v
    case JList(items) => if items == [] then Raised("list index out of range") else Ok(items[0])
    case JStr(s) => if s == "" then Raised("string index out of range") else Ok(JStr([s[0]]))
    case JObj(_) => Raised("0")
    case _ => Raised("'" + TypeName(v) + "' object is not subscriptable")
  }

  /** `len(v)`. */
  function Length(v: Json): (r: Outcome<int>)
    ensures r.Ok? <==> (v.JList? || v.JStr? || v.JObj?)
  {
    match v
    case JList(items) => Ok(|items|)
    case JStr(s) => Ok(|s|)
    case JObj(members) => Ok(|members|)
    case _ => Raised("object of type '" + TypeName(v) + "' has no len()")
  }

  /** `text += v` for a `str` on the left. */
  function Append(text: string, v: Json): (r: Outcome<string>)
    ensures r.Ok? <==> v.JStr?
  {
    match v
    case JStr(s) => Ok(text + s)
    case _ => Raised("can only concatenate str (not \"" + TypeName(v) + "\") to str")
  }

  /** `d.get(key)` on a decoded object: the value stored under `key`. */
  function Get(members: seq<(string, Json)>, key: string): (r: Option<Json>)
    ensures r.Some? ==> (key, r.value) in members
    ensures r.None? <==> forall m :: m in members ==> m.0 != key
  {
    if members == [] then None
    else if members[0].0 == key then Some(members[0].1)
    else Get(members[1..], key)
  }

  /** The message of the AttributeError raised by `v.get(...)` on a decoded
      value that is not an object. */
  function NoGetMessage(v: Json): string {
    "'" + TypeName(v) + "' object has no attribute 'get'"
  }

  // ---------------------------------------------------------------------------
  // str() and repr()
  // ---------------------------------------------------------------------------

  /** A lower-case hexadecimal digit. */
  function LowerHexDigit(d: nat): char
    requires d < 16
  {
    "0123456789abcdef"[d]
  }

  /** One character of a string's `repr` inside quotes `q`: the quote and
      the backslash escaped, tab, newline and carriage return by name, the
      other ASCII control characters as `\xhh`; every other character as it
      is (see README for the non-ASCII characters Python escapes). */
  function ReprChar(c: char, q: char): string {
    if c == q || c == '\\' then ['\\', c]
    else if c == '\t' then "\\t"
    else if c == '\n' then "\\n"
    else if c == '\r' then "\\r"
    else if c < ' ' || c == '\U{7F}' then "\\x" + [LowerHexDigit(c as int / 16), LowerHexDigit(c as int % 16)]
    else [c]
  }

  function ReprChars(s: string, q: char): string {
    if s == [] then "" else ReprChar(s[0], q) + ReprChars(s[1..], q)
  }

  /** `repr(s)` of a string: in single quotes, or in double quotes when the
      text holds a single quote and no double quote. */
  function StrRepr(s: string): string {
    var q := if '\'' in s && '"' !in s then '"' else '\'';
    [q] + ReprChars(s, q) + [q]
  }

  /** A character `repr` writes as it is. */
  predicate PlainChar(c: char) {
    ' ' <= c && c != '\U{7F}' && c != '\\' && c != '\'' && c != '"'
  }

  /** A text of plain characters is written between single quotes, unchanged. */
  lemma {:induction false} StrReprPlain(s: string)
    requires forall i :: 0 <= i < |s| ==> PlainChar(s[i])
    ensures StrRepr(s) == "'" + s + "'"
  {
    ReprCharsPlain(s);
  }

  lemma {:induction false} ReprCharsPlain(s: string)
    requires forall i :: 0 <= i < |s| ==> PlainChar(s[i])
    ensures ReprChars(s, '\'') == s
  {
    if s != [] {
      ReprCharsPlain(s[1..]);
      assert [s[0]] + s[1..] == s;
    }
  }

  /** `repr(v)` of a decoded value. */
  function PyRepr(v: Json): string
    decreases v
  {
    match v
    case JNull => "None"
    case JBool(b) => if b then "True" else "False"
    case JNum(n) => IntToString(n)
    case JStr(s) => StrRepr(s)
    case JList(items) =>
      "[" + Join(seq(|items|, i requires 0 <= i < |items| => PyRepr(items[i])), ", ") + "]"
    case JObj(members) =>
      "{" + Join(seq(|members|, i requires 0 <= i < |members| =>
                       StrRepr(members[i].0) + ": " + PyRepr(members[i].1)), ", ") + "}"
  }

  /** A one-item list prints as its item in brackets. */
  lemma ReprSingleton(v: Json)
    ensures PyRepr(JList([v])) == "[" + PyRepr(v) + "]"
  {
    var items := [v];
    assert seq(|items|, i requires 0 <= i < |items| => PyRepr(items[i])) == [PyRepr(v)];
  }

  /** `str(v)`: a string is its own text; anything else is its `repr`. */
  function PyStr(v: Json): (r: string)
    ensures v.JStr? ==> r == v.s
    ensures !v.JStr? ==> r == PyRepr(v)
  {
    if v.JStr? then v.s else PyRepr(v)
  }
}
