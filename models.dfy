/** The journal's one model, `Entry`: a row owned by a user, with the column
    bounds, defaults and text form its Django declaration gives it. */
module JournalModels {
  import opened Wrappers
  import opened Text
  import opened Calendar
  import opened PyJson

  /** The primary key of a user (the target of the `user` foreign key). */
  type UserId = nat

  /** `title = CharField(max_length=255)`. */
  const TitleMaxLength: nat := 255

  /** `duration_str = CharField(max_length=50, default="0s")`. */
  const DurationMaxLength: nat := 50
  const DefaultDuration: string := "0s"

  /** One journal entry. Every entry has an owner (the foreign key is not
      nullable); the address is optional; the duration defaults to "0s". */
  datatype Entry = Entry(
    id: nat,
    user: UserId,
    title: string,
    content: string,
    createdAt: DateTime,
    updatedAt: DateTime,
    ipAddress: Option<string> := None,
    durationStr: string := DefaultDuration)

  /** The first bounded column, in declaration order, whose bound the given
      values exceed; None when both fit. */
  function LengthViolation(title: string, durationStr: string): (column: Option<string>)
    ensures column.None? <==> |title| <= TitleMaxLength && |durationStr| <= DurationMaxLength
    ensures column == Some("title") <==> |title| > TitleMaxLength
    ensures column == Some("duration_str") <==> |title| <= TitleMaxLength && |durationStr| > DurationMaxLength
  {
    if |title| > TitleMaxLength then Some("title")
    else if |durationStr| > DurationMaxLength then Some("duration_str")
    else None
  }

  /** The message of the database's refusal to store NULL in `column`, in
      SQLite's wording. */
  function NotNullMessage(column: string): string {
    "NOT NULL constraint failed: journal_entry." + column
  }

  /** What a text column (`CharField`, `TextField`) stores for a value
      assigned from decoded JSON: `to_python` keeps a string and turns
      anything else into its `str()`; `None` is refused, since no text
      column is nullable. */
  function ColumnText(v: Json, column: string): (r: Outcome<string>)
    ensures r.Raised? <==> v.JNull?
    ensures r.Raised? ==> r.message == NotNullMessage(column)
    ensures v.JStr? ==> r == Ok(v.s)
    ensures r.Ok? ==> r.value == PyStr(v)
  {
    if v.JNull? then Raised(NotNullMessage(column)) else Ok(PyStr(v))
  }

  /** A number, a boolean or a list given for a text column is stored as
      the text Python prints for it. */
  lemma ColumnTextExamples()
    ensures ColumnText(JNum(-5), "title") == Ok("-5")
    ensures ColumnText(JBool(true), "duration_str") == Ok("True")
    ensures ColumnText(JList([JStr("a"), JNum(1)]), "content") == Ok("['a', 1]")
  {
    assert NatToString(5) == "5";
    assert IntToString(-5) == "-5";
    assert PyRepr(JNum(-5)) == "-5";
    StrReprPlain("a");
    assert NatToString(1) == "1";
    assert PyRepr(JStr("a")) == "'a'";
    assert PyRepr(JNum(1)) == "1";
    var items := [JStr("a"), JNum(1)];
    var reprs := seq(|items|, i requires 0 <= i < |items| => PyRepr(items[i]));
    assert reprs == ["'a'", "1"];
    assert Join(reprs, ", ") == "'a', 1";
    assert PyRepr(JList(items)) == "[" + "'a', 1" + "]" == "['a', 1]";
  }

  /** The row respects the declared column lengths. */
  predicate FitsColumns(e: Entry) {
    |e.title| <= TitleMaxLength && |e.durationStr| <= DurationMaxLength
  }

  /** `GenericIPAddressField(null=True, blank=True)` stores a blank address as
      NULL and any other text as it is given (Django would first rewrite a
      valid IPv6 text into its compressed lower-case form, which is not part
      of this model). */
  function StoredIp(ip: Option<string>): (stored: Option<string>)
    ensures stored.Some? ==> stored.value != ""
    ensures ip.Some? && ip.value != "" ==> stored == ip
    ensures ip.None? || ip.value == "" ==> stored.None?
  {
    match ip
    case Some(a) => if a == "" then None else Some(a)
    case None => None
  }

  /** `Entry.__str__`: the title followed by the creation day in parentheses.
      Both the title and the calendar day can be read back from it. */
  function Str(e: Entry): (s: string)
    ensures |s| == |e.title| + 13
    ensures s[..|e.title|] == e.title
    ensures s[|e.title|..|e.title| + 2] == " (" && s[|s| - 1] == ')'
    ensures ParseDate(s[|e.title| + 2..|s| - 1])
            == Some((e.createdAt.year, e.createdAt.month, e.createdAt.day))
  {
    var t, d := e.title, DateString(e.createdAt);
    var s := t + " (" + d + ")";
    assert s[..|t|] == t;
    assert s[|t|..|t| + 2] == " (";
    assert s[|t| + 2..|s| - 1] == d;
    DateStringRoundTrip(e.createdAt);
    s
  }

  /** Two entries with the same text form have the same title and were
      created on the same day. */
  lemma StrInjective(a: Entry, b: Entry)
    requires Str(a) == Str(b)
    ensures a.title == b.title
    ensures (a.createdAt.year, a.createdAt.month, a.createdAt.day)
            == (b.createdAt.year, b.createdAt.month, b.createdAt.day)
  {
    var n := |a.title|;
    assert a.title == Str(a)[..n] == Str(b)[..n] == b.title;
    assert Str(a)[n + 2..|Str(a)| - 1] == Str(b)[n + 2..|Str(b)| - 1];
  }
}
