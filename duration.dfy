/** The two editor scripts' time texts: the `Xh Ym Zs` duration stored with
    an entry, and the `hh:mm:ss` timer display. Times are integer
    milliseconds (`now - startTime`). */
module DurationFormat {
  import opened Wrappers
  import opened Text
  import opened Calendar
  import JournalModels

  /** JavaScript's `%` on integers: the remainder has the sign of the
      dividend. */
  function JsRem(a: int, b: int): (r: int)
    requires b > 0
    ensures a >= 0 ==> r == a % b
    ensures a < 0 ==> -b < r <= 0
  {
    if a >= 0 then a % b else -((-a) % b)
  }

  // Math.floor(x / n) for n > 0 is Dafny's `/` (Euclidean division).

  /** `durationStr` for an elapsed time of `diff` milliseconds: hours when
      there is a whole hour, minutes when there is a whole minute, seconds
      always. */
  function DurationText(diff: int): (s: string)
    ensures |s| >= 2 && s[|s| - 1] == 's'
  {
    var secs := diff / 1000;
    var mins := secs / 60;
    var hrs := mins / 60;
    (if hrs > 0 then IntToString(hrs) + "h " else "")
    + (if mins > 0 then IntToString(JsRem(mins, 60)) + "m " else "")
    + IntToString(JsRem(secs, 60)) + "s"
  }

  /** The `durationStr` computation of `saveEntry`, built by `+=`. */
  method FormatDuration(diff: int) returns (durationStr: string)
    ensures durationStr == DurationText(diff)
  {
    var secs := diff / 1000;
    var mins := secs / 60;
    var hrs := mins / 60;
    ghost var hourPart := if hrs > 0 then IntToString(hrs) + "h " else "";
    ghost var minutePart := if mins > 0 then IntToString(JsRem(mins, 60)) + "m " else "";
    durationStr := "";
    if hrs > 0 {
      durationStr := durationStr + IntToString(hrs) + "h ";
    }
    assert durationStr == hourPart;
    if mins > 0 {
      durationStr := durationStr + IntToString(JsRem(mins, 60)) + "m ";
    }
    assert durationStr == hourPart + minutePart;
    durationStr := durationStr + IntToString(JsRem(secs, 60)) + "s";
    assert durationStr == DurationText(diff);
    if durationStr == "" {
      durationStr := "0s";
    }
  }

  /** Under a second, and in particular with no start time (a difference of
      0), the duration is "0s". */
  lemma DurationUnderASecond(diff: int)
    requires 0 <= diff < 1000
    ensures DurationText(diff) == "0s"
  {
    assert IntToString(0) == "0";
  }

  // ---------------------------------------------------------------------------
  // Reading a duration back
  // ---------------------------------------------------------------------------

  function UnitSeconds(u: char): Option<nat> {
    if u == 'h' then Some(3600) else if u == 'm' then Some(60) else if u == 's' then Some(1) else None
  }

  /** The seconds one `<digits><unit>` part stands for. */
  function PartSeconds(p: string): Option<nat> {
    if |p| >= 2 && AllDigits(p[..|p| - 1]) && UnitSeconds(p[|p| - 1]).Some? then
      Some(ParseNat(p[..|p| - 1]) * UnitSeconds(p[|p| - 1]).value)
    else None
  }

  function TotalSeconds(parts: seq<string>): Option<nat> {
    if parts == [] then Some(0)
    else
      match (PartSeconds(parts[0]), TotalSeconds(parts[1..]))
      case (Some(a), Some(b)) => Some(a + b)
      case _ => None
  }

  /** A reader for stored durations: the total of the space-separated
      parts. */
  function ReadDuration(s: string): Option<nat> {
    TotalSeconds(Split(s, ' '))
  }

  /** One `<digits><unit>` part. */
  function Part(n: nat, u: char): string {
    NatToString(n) + [u]
  }

  lemma PartValue(n: nat, u: char)
    requires UnitSeconds(u).Some?
    ensures ' ' !in Part(n, u)
    ensures PartSeconds(Part(n, u)) == Some(n * UnitSeconds(u).value)
  {
    var p := Part(n, u);
    assert p[..|p| - 1] == NatToString(n);
    ParseNatToString(n);
    assert forall i :: 0 <= i < |p| - 1 ==> IsDigit(p[i]);
  }

  /** The parts of a non-negative duration. */
  function DurationParts(diff: int): seq<string>
    requires diff >= 0
  {
    var secs := diff / 1000;
    var mins := secs / 60;
    var hrs := mins / 60;
    (if hrs > 0 then [Part(hrs, 'h')] else [])
    + (if mins > 0 then [Part(mins % 60, 'm')] else [])
    + [Part(secs % 60, 's')]
  }

  /** A non-negative duration is its parts separated by spaces. */
  lemma DurationTextParts(diff: int)
    requires diff >= 0
    ensures var secs := diff / 1000;
      var mins := secs / 60;
      var hrs := mins / 60;
      DurationText(diff)
      == (if hrs > 0 then Part(hrs, 'h') + " " else "")
         + (if mins > 0 then Part(mins % 60, 'm') + " " else "")
         + Part(secs % 60, 's')
  {
    var secs := diff / 1000;
    var mins := secs / 60;
    var hrs := mins / 60;
    assert IntToString(hrs) == NatToString(hrs);
    assert IntToString(JsRem(mins, 60)) == NatToString(mins % 60);
    assert IntToString(JsRem(secs, 60)) == NatToString(secs % 60);
    assert NatToString(hrs) + "h " == Part(hrs, 'h') + " ";
    assert NatToString(mins % 60) + "m " == Part(mins % 60, 'm') + " ";
    assert NatToString(secs % 60) + "s" == Part(secs % 60, 's');
  }

  lemma JoinThree(a: string, b: string, c: string)
    ensures Join([c], " ") == "" + "" + c
    ensures Join([b, c], " ") == "" + (b + " ") + c
    ensures Join([a, b, c], " ") == (a + " ") + (b + " ") + c
  {
    assert [a, b, c][1..] == [b, c];
    assert [b, c][1..] == [c];
  }

  lemma DurationJoin(diff: int)
    requires diff >= 0
    ensures DurationText(diff) == Join(DurationParts(diff), " ")
  {
    var secs := diff / 1000;
    var mins := secs / 60;
    var hrs := mins / 60;
    DurationTextParts(diff);
    JoinThree(Part(hrs, 'h'), Part(mins % 60, 'm'), Part(secs % 60, 's'));
  }

  lemma Totals(a: string, b: string, c: string, x: nat, y: nat, z: nat)
    requires PartSeconds(a) == Some(x) && PartSeconds(b) == Some(y) && PartSeconds(c) == Some(z)
    ensures TotalSeconds([c]) == Some(z)
    ensures TotalSeconds([b, c]) == Some(y + z)
    ensures TotalSeconds([a, b, c]) == Some(x + y + z)
  {
    assert [c][1..] == [];
    assert TotalSeconds([c]) == Some(z);
    assert [b, c][1..] == [c];
    assert TotalSeconds([b, c]) == Some(y + z);
    assert [a, b, c][1..] == [b, c];
  }

  /** Whole seconds are hours, minutes and seconds. */
  lemma SecondsSplit(secs: nat)
    ensures secs == (secs / 60 / 60) * 3600 + (secs / 60 % 60) * 60 + secs % 60
    ensures secs / 60 / 60 == 0 ==> secs / 60 % 60 == secs / 60
    ensures secs / 60 == 0 ==> secs % 60 == secs
  {
    var mins := secs / 60;
    assert secs == 60 * mins + secs % 60;
    assert mins == 60 * (mins / 60) + mins % 60;
  }

  /** Parts without spaces, joined by spaces, read back to their total. */
  lemma ReadJoined(parts: seq<string>, total: nat)
    requires |parts| > 0 && forall i :: 0 <= i < |parts| ==> ' ' !in parts[i]
    requires TotalSeconds(parts) == Some(total)
    ensures ReadDuration(Join(parts, " ")) == Some(total)
  {
    assert " " == [' '];
    SplitUnique(parts, ' ');
  }

  lemma PartsNoSpace(diff: int)
    requires diff >= 0
    ensures forall i :: 0 <= i < |DurationParts(diff)| ==> ' ' !in DurationParts(diff)[i]
  {
    var secs := diff / 1000;
    var mins := secs / 60;
    PartValue(mins / 60, 'h');
    PartValue(mins % 60, 'm');
    PartValue(secs % 60, 's');
  }

  /** The parts of a duration add up to its whole seconds. */
  lemma PartsTotal(diff: int)
    requires diff >= 0
    ensures TotalSeconds(DurationParts(diff)) == Some(diff / 1000)
  {
    var secs := diff / 1000;
    var mins := secs / 60;
    var hrs := mins / 60;
    var hp := Part(hrs, 'h');
    var mp := Part(mins % 60, 'm');
    var sp := Part(secs % 60, 's');
    PartValue(hrs, 'h');
    PartValue(mins % 60, 'm');
    PartValue(secs % 60, 's');
    SecondsSplit(secs);
    Totals(hp, mp, sp, hrs * 3600, (mins % 60) * 60, secs % 60);
    var parts := DurationParts(diff);
    if hrs > 0 {
      assert parts == [hp, mp, sp];
    } else if mins > 0 {
      assert parts == [mp, sp];
    } else {
      assert parts == [sp];
    }
  }

  /** The stored duration gives back the whole seconds elapsed: no
      information is lost by the h/m/s rule. */
  lemma ReadDurationText(diff: int)
    requires diff >= 0
    ensures ReadDuration(DurationText(diff)) == Some(diff / 1000)
  {
    DurationJoin(diff);
    PartsNoSpace(diff);
    PartsTotal(diff);
    ReadJoined(DurationParts(diff), diff / 1000);
  }

  /** A duration fits the entry's `duration_str` column (50 characters) as
      long as its hours take at most 41 digits. */
  lemma DurationFitsColumn(diff: int)
    requires diff >= 0 && diff / 3600000 < Pow10(41)
    ensures |DurationText(diff)| <= JournalModels.DurationMaxLength
  {
    var secs := diff / 1000;
    var mins := secs / 60;
    var hrs := mins / 60;
    assert hrs == diff / 3600000;
    assert Pow10(2) == 100;
    DurationTextParts(diff);
    NatToStringLength(hrs, 41);
    NatToStringLength(mins % 60, 2);
    NatToStringLength(secs % 60, 2);
  }

  // ---------------------------------------------------------------------------
  // The timer display
  // ---------------------------------------------------------------------------

  /** `updateTimer`'s text for `new Date(diff)`: its UTC hours, minutes and
      seconds, each padded to two digits (Dafny's `%` is Euclidean, which is
      how a date before 1970 has its fields counted). */
  function TimerText(diff: int): (s: string)
    ensures |s| == 8 && s[2] == ':' && s[5] == ':'
    ensures AllDigits(s[..2]) && AllDigits(s[3..5]) && AllDigits(s[6..])
  {
    var s := Two((diff / 3600000) % 24) + ":" + Two((diff / 60000) % 60) + ":" + Two((diff / 1000) % 60);
    assert s[..2] == Two((diff / 3600000) % 24);
    assert s[3..5] == Two((diff / 60000) % 60);
    assert s[6..] == Two((diff / 1000) % 60);
    s
  }

  /** The clock fields of `diff` milliseconds, counted in seconds, are the
      whole seconds modulo a day. */
  lemma ClockFields(diff: int)
    ensures ((diff / 3600000) % 24) * 3600 + ((diff / 60000) % 60) * 60 + (diff / 1000) % 60
            == (diff / 1000) % 86400
  {
    var secs := diff / 1000;
    var mins := secs / 60;
    var hrs := mins / 60;
    assert diff / 60000 == mins;
    assert diff / 3600000 == hrs;
    assert secs == 86400 * (hrs / 24) + ((hrs % 24) * 3600 + (mins % 60) * 60 + secs % 60);
  }

  /** The display shows the elapsed whole seconds modulo a day. */
  lemma TimerReadBack(diff: int)
    ensures var s := TimerText(diff);
      ParseNat(s[..2]) * 3600 + ParseNat(s[3..5]) * 60 + ParseNat(s[6..]) == (diff / 1000) % 86400
  {
    var s := TimerText(diff);
    assert s[..2] == Two((diff / 3600000) % 24);
    assert s[3..5] == Two((diff / 60000) % 60);
    assert s[6..] == Two((diff / 1000) % 60);
    ClockFields(diff);
  }

  /** The display the editor starts from and is reset to. */
  lemma TimerAtZero()
    ensures TimerText(0) == "00:00:00"
  {
    var z := Two(0);
    assert z == "00" by {
      assert NatToString(0) == [DigitChar(0)] == "0";
      assert Zeros(1) == "0";
    }
    assert (0 / 3600000) % 24 == 0 && (0 / 60000) % 60 == 0 && (0 / 1000) % 60 == 0;
    assert TimerText(0) == z + ":" + z + ":" + z;
  }
}
