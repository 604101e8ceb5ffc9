/** The stand-alone editor page script, which keeps its journal in the
    browser's `localStorage` under `simple_journal_entries`: the timer, saving
    (the new entry goes to the front of the stored list), the JSON backup
    export and resetting the editor. The stored item is modelled by the list
    it holds: `None` when the item is missing, otherwise the entries
    `JSON.stringify` wrote, so the stored text is `'[]'` exactly when the
    list is empty. */
module LocalJournal {
  import opened Wrappers
  import opened Text
  import opened Calendar
  import opened DurationFormat
  import JournalEditor

  /** One stored entry: `id` is `Date.now()` at the save, `date` the save's
      moment in UTC. */
  datatype LocalEntry = LocalEntry(id: int, title: string, content: string, date: DateTime,
                                   durationStr: string)

  /** A downloaded backup: the file name and the stored entries it holds. */
  datatype Backup = Backup(fileName: string, entries: seq<LocalEntry>)

  const NothingAlert: string := "Nothing to export yet!"
  const BackupToast: string := "💾 Backup downloaded!"

  /** What the page keeps and shows. */
  datatype PageState = PageState(
    startTime: Option<int>,        // state.startTime, in milliseconds
    isTimerRunning: bool,          // state.isTimerRunning (updateTimer is scheduled exactly then)
    title: string,                 // the title input
    content: string,               // the editor's HTML
    timerDisplay: string,          // the timer text
    writing: bool,                 // the title screen is hidden and the editor active
    popup: Option<string>,         // the final-time popup, when shown
    alert: Option<string>,         // the last alert
    toast: Option<string>,         // the last toast
    stored: Option<seq<LocalEntry>>) // localStorage['simple_journal_entries']

  /** The list `JSON.parse(localStorage.getItem(...) || '[]')` gives. */
  function StoredList(stored: Option<seq<LocalEntry>>): seq<LocalEntry> {
    if stored.Some? then stored.value else []
  }

  /** The `input` handler at time `now`: the timer starts only when it is not
      already running. */
  function Input(s: PageState, now: int): (t: PageState)
    ensures t.isTimerRunning
    ensures s.isTimerRunning ==> t == s
    ensures !s.isTimerRunning ==> t.startTime == Some(now)
  {
    if s.isTimerRunning then s
    else s.(startTime := Some(now), isTimerRunning := true)
  }

  /** `updateTimer` at time `now`. */
  function Tick(s: PageState, now: int): PageState {
    if s.startTime.None? then s
    else s.(timerDisplay := TimerText(now - s.startTime.value))
  }

  /** The milliseconds `saveEntry` measures: 0 without a start time. */
  function Elapsed(s: PageState, now: int): int {
    if s.startTime.Some? then now - s.startTime.value else 0
  }

  /** The entry `saveEntry` builds, with `now` the save's time in
      milliseconds, `at` the same moment in UTC and `clock` the `Date.now()`
      read for the id. In the script `now` and `at` come from one `Date`;
      here they are two parameters, which no property below needs to tie
      (a caller passes `at` as the calendar reading of `now`). */
  function NewEntry(s: PageState, now: int, at: DateTime, clock: int): LocalEntry {
    LocalEntry(clock, JournalEditor.TitleOrDefault(s.title), s.content, at,
               DurationText(Elapsed(s, now)))
  }

  /** The timer stops, `entry` goes to the front of the stored list and the
      popup shows its duration. */
  function Record(s: PageState, entry: LocalEntry): PageState {
    s.(isTimerRunning := false, stored := Some([entry] + StoredList(s.stored)),
       popup := Some(entry.durationStr))
  }

  /** `saveEntry`, with `text` the editor's rendered text. */
  function Save(s: PageState, text: string, now: int, at: DateTime, clock: int): PageState {
    if Trim(text, IsJsSpace) == "" then s.(alert := Some(JournalEditor.EmptyAlert))
    else Record(s, NewEntry(s, now, at, clock))
  }

  /** `toISOString()`: `YYYY-MM-DDTHH:mm:ss.sssZ` in UTC. */
  function IsoString(t: DateTime): (s: string)
    ensures |s| == 24 && s[..10] == DateString(t)
  {
    ZeroPadValue(t.microsecond / 1000, 3);
    var s := DateString(t) + "T" + Two(t.hour) + ":" + Two(t.minute) + ":" + Two(t.second)
             + "." + ZeroPad(t.microsecond / 1000, 3) + "Z";
    assert s[..10] == DateString(t);
    s
  }

  const BackupPrefix: string := "journal_backup_"
  const BackupSuffix: string := ".json"

  /** The download name: the day of the ISO time stamp between a fixed
      prefix and `.json`. */
  function BackupName(at: DateTime): (name: string)
    ensures |name| == 30
  {
    BackupPrefix + IsoString(at)[..10] + BackupSuffix
  }

  /** The export button's handler at moment `at`: an alert when there is
      nothing stored, otherwise the backup of the stored text and a toast. */
  function Export(s: PageState, at: DateTime): (r: (PageState, Option<Backup>)) {
    if s.stored.None? || s.stored.value == [] then (s.(alert := Some(NothingAlert)), None)
    else (s.(toast := Some(BackupToast)), Some(Backup(BackupName(at), s.stored.value)))
  }

  /** `resetEditor`: back to the title screen with the timer stopped and
      cleared; the stored entries stay. */
  function Reset(s: PageState): PageState {
    s.(writing := false, title := "", content := "", timerDisplay := "00:00:00", popup := None,
       startTime := None, isTimerRunning := false)
  }

  // ---------------------------------------------------------------------------
  // Properties
  // ---------------------------------------------------------------------------

  /** A blank editor text saves nothing: only the alert is shown. */
  lemma BlankSaveRefused(s: PageState, text: string, now: int, at: DateTime, clock: int)
    ensures (forall i :: 0 <= i < |text| ==> IsJsSpace(text[i]))
            <==> Save(s, text, now, at, clock) == s.(alert := Some(JournalEditor.EmptyAlert))
  {
    TrimEmpty(text, IsJsSpace);
    var r := Save(s, text, now, at, clock);
    if Trim(text, IsJsSpace) != "" {
      assert r.stored.value[0].id == clock;
      assert r.stored != s.stored by {
        if s.stored.Some? {
          assert |r.stored.value| == |s.stored.value| + 1;
        }
      }
    }
  }

  /** A save puts the new entry in front of the stored ones, which keep their
      order; the entry carries the clock's id, the title or 'Untitled', the
      editor's HTML and a duration that ends in 's'. */
  lemma SavePrepends(s: PageState, text: string, now: int, at: DateTime, clock: int)
    requires !forall i :: 0 <= i < |text| ==> IsJsSpace(text[i])
    ensures var r := Save(s, text, now, at, clock);
      && r.stored.Some?
      && |r.stored.value| == |StoredList(s.stored)| + 1
      && r.stored.value[1..] == StoredList(s.stored)
      && r.stored.value[0].id == clock
      && r.stored.value[0].title == JournalEditor.TitleOrDefault(s.title)
      && r.stored.value[0].content == s.content
      && r.stored.value[0].date == at
      && r.stored.value[0].durationStr == DurationText(Elapsed(s, now))
      && r.popup == Some(r.stored.value[0].durationStr)
      && !r.isTimerRunning
  {
    TrimEmpty(text, IsJsSpace);
  }

  /** Ids strictly decrease along the stored list: the newest entry first. */
  predicate NewestFirst(entries: seq<LocalEntry>) {
    forall i, j :: 0 <= i < j < |entries| ==> entries[j].id < entries[i].id
  }

  lemma PrependNewestFirst(e: LocalEntry, entries: seq<LocalEntry>)
    requires NewestFirst(entries)
    requires forall i :: 0 <= i < |entries| ==> entries[i].id < e.id
    ensures NewestFirst([e] + entries)
  {
    var l := [e] + entries;
    forall i, j | 0 <= i < j < |l|
      ensures l[j].id < l[i].id
    {
      assert l[j] == entries[j - 1];
      if i > 0 {
        assert l[i] == entries[i - 1];
      }
    }
  }

  /** With a clock that moves forward, saving keeps the list newest first. */
  lemma SaveKeepsNewestFirst(s: PageState, text: string, now: int, at: DateTime, clock: int)
    requires NewestFirst(StoredList(s.stored))
    requires forall i :: 0 <= i < |StoredList(s.stored)| ==> StoredList(s.stored)[i].id < clock
    ensures NewestFirst(StoredList(Save(s, text, now, at, clock).stored))
  {
    if Trim(text, IsJsSpace) != "" {
      PrependNewestFirst(NewEntry(s, now, at, clock), StoredList(s.stored));
    }
  }

  /** Export is refused exactly when the stored item is missing or holds no
      entry; otherwise it hands over the stored entries unchanged. */
  lemma ExportGuard(s: PageState, at: DateTime)
    ensures Export(s, at).1.None? <==> StoredList(s.stored) == []
    ensures Export(s, at).1.None? ==> Export(s, at).0 == s.(alert := Some(NothingAlert))
    ensures Export(s, at).1.Some? ==> Export(s, at).1.value.entries == StoredList(s.stored)
  {
  }

  /** After a save there is always something to export, and the backup
      starts with the entry just saved. */
  lemma SaveThenExport(s: PageState, text: string, now: int, at: DateTime, clock: int, later: DateTime)
    requires !forall i :: 0 <= i < |text| ==> IsJsSpace(text[i])
    ensures var b := Export(Save(s, text, now, at, clock), later).1;
      b.Some? && b.value.entries[0].id == clock && b.value.entries[1..] == StoredList(s.stored)
  {
    SavePrepends(s, text, now, at, clock);
  }

  /** The backup's name carries the export day: reading the ten characters
      after the prefix gives back its year, month and day. */
  lemma BackupNameDay(at: DateTime)
    ensures var name := BackupName(at);
      && name[..15] == BackupPrefix && name[25..] == BackupSuffix
      && name[15..25] == DateString(at)
      && ParseDate(name[15..25]) == Some((at.year, at.month, at.day))
  {
    var name := BackupName(at);
    assert name[15..25] == IsoString(at)[..10];
    DateStringRoundTrip(at);
  }

  /** A reset stops the timer and forgets its start, so a save straight
      after it records "0s", and no stored entry is lost. */
  lemma ResetStartsOver(s: PageState, text: string, now: int, at: DateTime, clock: int)
    requires !forall i :: 0 <= i < |text| ==> IsJsSpace(text[i])
    ensures var r := Reset(s);
      && r.startTime.None? && !r.isTimerRunning && r.timerDisplay == TimerText(0)
      && r.stored == s.stored
      && Save(r, text, now, at, clock).stored == Some([NewEntry(r, now, at, clock)] + StoredList(s.stored))
      && NewEntry(r, now, at, clock).durationStr == "0s"
  {
    TimerAtZero();
    DurationUnderASecond(0);
    SavePrepends(Reset(s), text, now, at, clock);
  }

  /** The root page's editor state and its `localStorage` entry list, with the
      handlers that change them. */
  class LocalPage {
    var startTime: Option<int>
    var isTimerRunning: bool
    var title: string
    var content: string
    var timerDisplay: string
    var writing: bool
    var popup: Option<string>
    var alert: Option<string>
    var toast: Option<string>
    var stored: Option<seq<LocalEntry>>

    function State(): PageState
      reads this
    {
      PageState(startTime, isTimerRunning, title, content, timerDisplay, writing, popup, alert,
                toast, stored)
    }

    /** The page as loaded over whatever the browser has stored. */
    constructor (stored: Option<seq<LocalEntry>>)
      ensures State() == PageState(None, false, "", "", "00:00:00", false, None, None, None, stored)
    {
      startTime := None;
      isTimerRunning := false;
      title := "";
      content := "";
      timerDisplay := "00:00:00";
      writing := false;
      popup := None;
      alert := None;
      toast := None;
      this.stored := stored;
    }

    method OnInput(now: int)
      modifies this
      ensures State() == Input(old(State()), now)
    {
      if !isTimerRunning {
        startTime := Some(now);
        isTimerRunning := true;
      }
    }

    method UpdateTimer(now: int)
      modifies this
      ensures State() == Tick(old(State()), now)
    {
      if startTime.None? {
        return;
      }
      var diff := now - startTime.value;
      var h := Two((diff / 3600000) % 24);
      var m := Two((diff / 60000) % 60);
      var sec := Two((diff / 1000) % 60);
      timerDisplay := h + ":" + m + ":" + sec;
    }

    method SaveEntry(text: string, now: int, at: DateTime, clock: int)
      modifies this
      ensures State() == Save(old(State()), text, now, at, clock)
    {
      ghost var s0 := State();
      if Trim(text, IsJsSpace) == "" {
        alert := Some(JournalEditor.EmptyAlert);
        assert State() == s0.(alert := Some(JournalEditor.EmptyAlert));
        return;
      }
      isTimerRunning := false;
      var diff := if startTime.Some? then now - startTime.value else 0;
      assert diff == Elapsed(s0, now);
      var durationStr := FormatDuration(diff);
      var newEntry := LocalEntry(clock, JournalEditor.TitleOrDefault(title), content, at, durationStr);
      assert newEntry == NewEntry(s0, now, at, clock);
      StoreEntry(newEntry);
    }

    /** `entries.unshift(newEntry)`, written back to storage, then `showPopup`. */
    method StoreEntry(entry: LocalEntry)
      modifies this
      ensures State() == old(State()).(stored := Some([entry] + StoredList(old(stored))),
                                       popup := Some(entry.durationStr))
    {
      stored := Some([entry] + StoredList(stored));
      popup := Some(entry.durationStr);
    }

    method ExportEntries(at: DateTime) returns (backup: Option<Backup>)
      modifies this
      ensures State() == Export(old(State()), at).0
      ensures backup == Export(old(State()), at).1
    {
      if stored.None? || stored.value == [] {
        alert := Some(NothingAlert);
        return None;
      }
      var iso := IsoString(at);
      backup := Some(Backup(BackupPrefix + iso[..10] + BackupSuffix, stored.value));
      toast := Some(BackupToast);
    }

    method ResetEditor()
      modifies this
      ensures State() == Reset(old(State()))
    {
      writing := false;
      title := "";
      content := "";
      timerDisplay := "00:00:00";
      popup := None;
      startTime := None;
      isTimerRunning := false;
    }
  }
}
