/** The server-backed editor page script: the timer, saving to
    `/api/entries` (create first, update afterwards), reopening a listed
    entry, the list preview, and resetting the editor. The DOM is reduced to
    the values the script reads and writes; the rendered text of the editor
    (`innerText`, `textContent`) is an input, since the browser computes it. */
module JournalEditor {
  import opened Wrappers
  import opened Text
  import opened PyJson
  import opened DurationFormat
  import EntryStore
  import JournalModels
  import Calendar
  import JournalViews

  const UntitledTitle: string := "Untitled"
  const EmptyAlert: string := "Empty journal? Write something!"

  /** `elements.titleInput.value || 'Untitled'`. */
  function TitleOrDefault(title: string): (t: string)
    ensures t != ""
    ensures title != "" ==> t == title
  {
    if title == "" then UntitledTitle else title
  }

  /** The object `saveEntry` posts. */
  datatype Payload = Payload(id: Option<int>, title: string, content: string, durationStr: string)

  /** The payload as `JSON.stringify` writes it: the four members in order,
      a null `currentEntryId` as `null`. */
  function PayloadJson(p: Payload): Json {
    JObj([("id", if p.id.Some? then JNum(p.id.value) else JNull), ("title", JStr(p.title)),
          ("content", JStr(p.content)), ("durationStr", JStr(p.durationStr))])
  }

  /** The payload as the view decodes it: every member is present, and the
      three texts arrive as strings. */
  function PayloadBody(p: Payload): (b: JournalViews.PostBody)
    ensures b.Fields? && b.title == Some(JStr(p.title)) && b.content == Some(JStr(p.content))
            && b.durationStr == Some(JStr(p.durationStr))
    ensures b.id == Some(if p.id.Some? then JNum(p.id.value) else JNull)
  {
    // The members are read one `Get` step at a time.
    var id := if p.id.Some? then JNum(p.id.value) else JNull;
    var last := [("durationStr", JStr(p.durationStr))];
    var rest := [("content", JStr(p.content))] + last;
    var ms := [("title", JStr(p.title))] + rest;
    assert PayloadJson(p).members == [("id", id)] + ms;
    assert Get(last, "durationStr") == Some(JStr(p.durationStr));
    assert Get(rest, "content") == Some(JStr(p.content)) by { assert rest[1..] == last; }
    assert Get(ms, "title") == Some(JStr(p.title));
    assert Get(ms, "content") == Some(JStr(p.content)) by { assert ms[1..] == rest; }
    assert Get(ms, "durationStr") == Some(JStr(p.durationStr)) by { assert ms[1..] == rest; assert rest[1..] == last; }
    var all := [("id", id)] + ms;
    assert all[1..] == ms;
    assert Get(all, "id") == Some(id);
    assert Get(all, "title") == Some(JStr(p.title));
    assert Get(all, "content") == Some(JStr(p.content));
    assert Get(all, "durationStr") == Some(JStr(p.durationStr));
    JournalViews.DecodedBody(Ok(PayloadJson(p)))
  }

  /** How a save ended: the `id` of a 2xx JSON answer, or a failure (an
      answer that is not 2xx, or a network or JSON error). */
  datatype SaveReply = Saved(id: Option<int>) | SaveFailed

  /** A listed entry, as `GET /api/entries` gives it. */
  datatype Listed = Listed(id: int, title: string, content: string)

  /** What the script keeps and shows. */
  datatype EditorState = EditorState(
    startTime: Option<int>,      // state.startTime, in milliseconds
    isTimerRunning: bool,        // state.isTimerRunning (updateTimer is scheduled exactly then)
    currentEntryId: Option<int>, // state.currentEntryId
    title: string,               // the title input
    content: string,             // the editor's HTML
    timerDisplay: string,        // the timer text
    writing: bool,               // the title screen is hidden and the editor active
    popup: Option<string>,       // the final-time popup, when shown
    alert: Option<string>,       // the last alert shown
    toast: Option<string>)       // the last toast shown

  /** The `input` handler at time `now`: the timer starts only when it is
      not already running. */
  function Input(s: EditorState, now: int): (t: EditorState)
    ensures t.isTimerRunning
    ensures s.isTimerRunning ==> t == s
    ensures !s.isTimerRunning ==> t.startTime == Some(now)
  {
    if s.isTimerRunning then s
    else s.(startTime := Some(now), isTimerRunning := true)
  }

  /** `updateTimer` at time `now`. */
  function Tick(s: EditorState, now: int): EditorState {
    if s.startTime.None? then s
    else s.(timerDisplay := TimerText(now - s.startTime.value))
  }

  /** `startWritingMode` on the title's `keydown` when the key is Enter and
      the title is not blank. */
  function TitleKey(s: EditorState, key: string): EditorState {
    if key == "Enter" && Trim(s.title, IsJsSpace) != "" then s.(writing := true) else s
  }

  /** The milliseconds `saveEntry` measures: 0 without a start time. */
  function Elapsed(s: EditorState, now: int): int {
    if s.startTime.Some? then now - s.startTime.value else 0
  }

  /** The synchronous part of `saveEntry` at time `now`, with `text` the
      editor's rendered text: only the alert when the text is blank,
      otherwise the timer stops and the payload is built. */
  function Save(s: EditorState, text: string, now: int): (r: (EditorState, Option<Payload>))
    ensures r.1.None? <==> forall i :: 0 <= i < |text| ==> IsJsSpace(text[i])
    ensures r.1.None? ==> r.0 == s.(alert := Some(EmptyAlert))
    ensures r.1.Some? ==> r.0 == s.(isTimerRunning := false)
    ensures r.1.Some? ==> r.1.value == Payload(s.currentEntryId, TitleOrDefault(s.title), s.content,
                                               DurationText(Elapsed(s, now)))
  {
    TrimEmpty(text, IsJsSpace);
    if Trim(text, IsJsSpace) == "" then (s.(alert := Some(EmptyAlert)), None)
    else
      (s.(isTimerRunning := false),
       Some(Payload(s.currentEntryId, TitleOrDefault(s.title), s.content, DurationText(Elapsed(s, now)))))
  }

  /** The end of `saveEntry`: on success the server's id becomes the
      current entry and the popup shows the duration; on failure a toast. */
  function Answer(s: EditorState, durationStr: string, reply: SaveReply): EditorState {
    match reply
    case Saved(id) => s.(currentEntryId := id, popup := Some(durationStr))
    case SaveFailed => s.(toast := Some("❌ Error saving."))
  }

  /** A click on a listed entry loads it into the editor. */
  function Open(s: EditorState, e: Listed): EditorState {
    s.(currentEntryId := Some(e.id), title := e.title, content := e.content, writing := true)
  }

  /** `resetEditor`. */
  function Reset(s: EditorState): EditorState {
    s.(writing := false, title := "", content := "", timerDisplay := "00:00:00", popup := None,
       startTime := None, currentEntryId := None, isTimerRunning := false)
  }

  /** The list preview: `(textContent || innerText || "").substring(0, 80)`. */
  function Preview(textContent: string, innerText: string): (p: string)
    ensures |p| <= 80
    ensures textContent != "" ==> |p| == (if |textContent| < 80 then |textContent| else 80) && p == textContent[..|p|]
    ensures textContent == "" ==> |p| == (if |innerText| < 80 then |innerText| else 80) && p == innerText[..|p|]
  {
    var text := if textContent != "" then textContent else innerText;
    if |text| <= 80 then text else text[..80]
  }

  // ---------------------------------------------------------------------------
  // Properties of the session
  // ---------------------------------------------------------------------------

  /** A second input while the timer runs changes nothing: the start time
      is the first input's. */
  lemma InputOnce(s: EditorState, t1: int, t2: int)
    ensures Input(Input(s, t1), t2) == Input(s, t1)
    ensures Input(Input(s, t1), t2).startTime == (if s.isTimerRunning then s.startTime else Some(t1))
  {
  }

  /** A save from a fresh editor (no current entry) posts a null id, which
      the view reads as a request to create an entry. */
  lemma FreshSaveCreates(s: EditorState, text: string, now: int, rows: seq<JournalModels.Entry>, user: JournalModels.UserId)
    requires s.currentEntryId.None?
    requires Save(s, text, now).1.Some?
    ensures JournalViews.PostTarget(rows, user, PayloadBody(Save(s, text, now).1.value).id) == JournalViews.CreateNew
  {
  }

  /** After a save the server answered with the id of the entry it created,
      the next save of the same editor updates that entry instead of creating
      another. */
  lemma NextSaveUpdates(s: EditorState, text1: string, now1: int, text2: string, now2: int,
                        rows: seq<JournalModels.Entry>, nextId: nat, user: JournalModels.UserId,
                        ip: Option<string>, at1: Calendar.DateTime, at2: Calendar.DateTime)
    requires EntryStore.ValidRows(rows, nextId)
    requires Save(s, text1, now1).1.Some? && !forall i :: 0 <= i < |text2| ==> IsJsSpace(text2[i])
    requires var res := JournalViews.PostSpec(rows, nextId, user, PayloadBody(Save(s, text1, now1).1.value), ip, at1);
      res.response.Created?
    ensures var (s1, p1) := Save(s, text1, now1);
      var res := JournalViews.PostSpec(rows, nextId, user, PayloadBody(p1.value), ip, at1);
      var s2 := Answer(s1, p1.value.durationStr, Saved(Some(res.response.id)));
      var (s3, p2) := Save(s2, text2, now2);
      && p2.Some? && p2.value.id == Some(res.response.id)
      && JournalViews.PostTarget(res.rows, user, PayloadBody(p2.value).id).UpdateRow?
  {
    var (s1, p1) := Save(s, text1, now1);
    var res := JournalViews.PostSpec(rows, nextId, user, PayloadBody(p1.value), ip, at1);
    var s2 := Answer(s1, p1.value.durationStr, Saved(Some(res.response.id)));
    var (s3, p2) := Save(s2, text2, now2);
    JournalViews.CreateThenUpdate(rows, nextId, user, PayloadBody(p1.value), PayloadBody(p2.value), ip, at1, at2);
  }

  /** Saving after opening a listed entry posts that entry's id. */
  lemma OpenThenSave(s: EditorState, e: Listed, text: string, now: int)
    requires !forall i :: 0 <= i < |text| ==> IsJsSpace(text[i])
    ensures var p := Save(Open(s, e), text, now).1;
      p.Some? && p.value.id == Some(e.id) && p.value.title == TitleOrDefault(e.title)
      && p.value.content == e.content
  {
  }

  /** After a reset the timer is stopped and shows zero, and the next save
      creates a new entry with a zero-second duration unless the timer is
      started again. */
  lemma ResetStartsOver(s: EditorState, text: string, now: int)
    requires !forall i :: 0 <= i < |text| ==> IsJsSpace(text[i])
    ensures var r := Reset(s);
      && !r.isTimerRunning && r.currentEntryId.None?
      && r.timerDisplay == TimerText(0)
      && Save(r, text, now).1.value.id.None?
      && Save(r, text, now).1.value.durationStr == "0s"
  {
    TimerAtZero();
    DurationUnderASecond(0);
  }

  /** The editor page. */
  class Editor {
    var startTime: Option<int>
    var isTimerRunning: bool
    var currentEntryId: Option<int>
    var title: string
    var content: string
    var timerDisplay: string
    var writing: bool
    var popup: Option<string>
    var alert: Option<string>
    var toast: Option<string>

    function State(): EditorState
      reads this
    {
      EditorState(startTime, isTimerRunning, currentEntryId, title, content,
                  timerDisplay, writing, popup, alert, toast)
    }

    /** The page as loaded: no timer, no current entry. */
    constructor ()
      ensures State() == EditorState(None, false, None, "", "", "00:00:00", false, None, None, None)
    {
      startTime := None;
      isTimerRunning := false;
      currentEntryId := None;
      title := "";
      content := "";
      timerDisplay := "00:00:00";
      writing := false;
      popup := None;
      alert := None;
      toast := None;
    }

    method OnInput(now: int)
      modifies this
      ensures State() == Input(old(State()), now)
    {
      if !isTimerRunning {
        startTime := Some(now);
        isTimerRunning := true;
      }
    }

    method UpdateTimer(now: int)
      modifies this
      ensures State() == Tick(old(State()), now)
    {
      if startTime.None? {
        return;
      }
      var diff := now - startTime.value;
      var h := Calendar.Two((diff / 3600000) % 24);
      var m := Calendar.Two((diff / 60000) % 60);
      var sec := Calendar.Two((diff / 1000) % 60);
      timerDisplay := h + ":" + m + ":" + sec;
    }

    method OnTitleKey(key: string)
      modifies this
      ensures State() == TitleKey(old(State()), key)
    {
      if key == "Enter" && Trim(title, IsJsSpace) != "" {
        writing := true;
      }
    }

    /** `saveEntry` up to the request. */
    method SaveEntry(text: string, now: int) returns (payload: Option<Payload>)
      modifies this
      ensures State() == Save(old(State()), text, now).0
      ensures payload == Save(old(State()), text, now).1
    {
      ghost var s0 := State();
      if Trim(text, IsJsSpace) == "" {
        alert := Some(EmptyAlert);
        assert Save(s0, text, now) == (State(), None);
        return None;
      }
      isTimerRunning := false;
      var diff := if startTime.Some? then now - startTime.value else 0;
      assert diff == Elapsed(s0, now);
      var durationStr := FormatDuration(diff);
      payload := Some(Payload(currentEntryId, TitleOrDefault(title), content, durationStr));
      assert State() == s0.(isTimerRunning := false);
      assert Save(s0, text, now) == (State(), payload);
    }

    /** `saveEntry` after the request settled. */
    method SaveSettled(durationStr: string, reply: SaveReply)
      modifies this
      ensures State() == Answer(old(State()), durationStr, reply)
    {
      match reply
      case Saved(id) =>
        currentEntryId := id;
        popup := Some(durationStr);
      case SaveFailed =>
        toast := Some("❌ Error saving.");
    }

    /** The `onclick` of a listed entry's card. */
    method OpenEntry(e: Listed)
      modifies this
      ensures State() == Open(old(State()), e)
    {
      currentEntryId := Some(e.id);
      title := e.title;
      content := e.content;
      writing := true;
    }

    method ResetEditor()
      modifies this
      ensures State() == Reset(old(State()))
    {
      writing := false;
      title := "";
      content := "";
      timerDisplay := "00:00:00";
      popup := None;
      startTime := None;
      currentEntryId := None;
      isTimerRunning := false;
    }
  }
}
