/** String helpers shared by the Python and the JavaScript parts of the model:
    character classes, trimming, splitting on one character, joining with a
    separator, and decimal numerals. Strings are sequences of Unicode scalar
    values (Dafny's `char`). */
module Text {
  import opened Wrappers

  // ---------------------------------------------------------------------------
  // Character classes (ASCII; see README for the Unicode classes left out)
  // ---------------------------------------------------------------------------

  predicate IsDigit(c: char) { '0' <= c <= '9' }
  predicate IsUpper(c: char) { 'A' <= c <= 'Z' }
  predicate IsLower(c: char) { 'a' <= c <= 'z' }
  predicate IsLetter(c: char) { IsUpper(c) || IsLower(c) }

  /** Python's `str.isalnum`, restricted to ASCII letters and digits. */
  predicate IsAlnum(c: char) { IsLetter(c) || IsDigit(c) }

  function ToUpper(c: char): (u: char)
    ensures IsLetter(c) ==> IsUpper(u)
    ensures !IsLetter(c) ==> u == c
  {
    if IsLower(c) then (c as int - 32) as char else c
  }

  function ToLower(c: char): (l: char)
    ensures IsLetter(c) ==> IsLower(l)
    ensures !IsLetter(c) ==> l == c
  {
    if IsUpper(c) then (c as int + 32) as char else c
  }

  /** The characters Python's `str.strip()` removes (`str.isspace`). */
  predicate IsPySpace(c: char) {
    || c in "\t\n\U{B}\U{C}\r\U{1C}\U{1D}\U{1E}\U{1F} \U{85}\U{A0}\U{1680}\U{2028}\U{2029}\U{202F}\U{205F}\U{3000}"
    || '\U{2000}' <= c <= '\U{200A}'
  }

  /** The characters JavaScript's `String.prototype.trim()` removes
      (WhiteSpace and LineTerminator of ECMA-262). */
  predicate IsJsSpace(c: char) {
    || c in "\t\n\U{B}\U{C}\r \U{A0}\U{1680}\U{2028}\U{2029}\U{202F}\U{205F}\U{3000}\U{FEFF}"
    || '\U{2000}' <= c <= '\U{200A}'
  }

  // ---------------------------------------------------------------------------
  // Trimming
  // ---------------------------------------------------------------------------

  /** The first position at or after `i` whose character is not whitespace
      (or the length, when there is none). */
  function SkipSpace(s: string, ws: char -> bool, i: nat): (j: nat)
    requires i <= |s|
    ensures i <= j <= |s|
    ensures forall k :: i <= k < j ==> ws(s[k])
    ensures j < |s| ==> !ws(s[j])
    decreases |s| - i
  {
    if i < |s| && ws(s[i]) then SkipSpace(s, ws, i + 1) else i
  }

  /** The position just after the last character before `j`, and not before
      `lo`, that is not whitespace (or `lo`, when there is none). */
  function SkipSpaceBack(s: string, ws: char -> bool, lo: nat, j: nat): (k: nat)
    requires lo <= j <= |s|
    ensures lo <= k <= j
    ensures forall m :: k <= m < j ==> ws(s[m])
    ensures k > lo ==> !ws(s[k - 1])
    decreases j - lo
  {
    if j > lo && ws(s[j - 1]) then SkipSpaceBack(s, ws, lo, j - 1) else j
  }

  /** `strip()` / `trim()` with the given whitespace class: the piece of `s`
      between its leading and its trailing whitespace. */
  function Trim(s: string, ws: char -> bool): (r: string)
    ensures forall c :: c in r ==> c in s
    ensures Clean(r, ws)
  {
    var a := SkipSpace(s, ws, 0);
    s[a..SkipSpaceBack(s, ws, a, |s|)]
  }

  /** Neither the first nor the last character is whitespace. */
  predicate Clean(s: string, ws: char -> bool) {
    s == [] || (!ws(s[0]) && !ws(s[|s| - 1]))
  }

  /** A string that neither starts nor ends with whitespace is left alone. */
  lemma TrimClean(s: string, ws: char -> bool)
    requires Clean(s, ws)
    ensures Trim(s, ws) == s
  {
  }

  /** Trimming leaves nothing exactly when every character is whitespace. */
  lemma TrimEmpty(s: string, ws: char -> bool)
    ensures Trim(s, ws) == [] <==> forall i :: 0 <= i < |s| ==> ws(s[i])
  {
    var a := SkipSpace(s, ws, 0);
    if a < |s| {
      assert SkipSpaceBack(s, ws, a, |s|) > a;
    }
  }

  /** Trimming twice is trimming once. */
  lemma TrimIdempotent(s: string, ws: char -> bool)
    ensures Trim(Trim(s, ws), ws) == Trim(s, ws)
  {
    TrimClean(Trim(s, ws), ws);
  }

  // ---------------------------------------------------------------------------
  // Prefixes, splitting and joining
  // ---------------------------------------------------------------------------

  predicate StartsWith(s: string, prefix: string) {
    |prefix| <= |s| && s[..|prefix|] == prefix
  }

  /** `sep.join(parts)` (Python) / `parts.join(sep)` (JavaScript). */
  function Join(parts: seq<string>, sep: string): string
  {
    if |parts| == 0 then ""
    else if |parts| == 1 then parts[0]
    else parts[0] + sep + Join(parts[1..], sep)
  }

  lemma {:induction false} JoinAppend(parts: seq<string>, p: string, sep: string)
    requires |parts| > 0
    ensures Join(parts + [p], sep) == Join(parts, sep) + sep + p
  {
    if |parts| > 1 {
      assert (parts + [p])[1..] == parts[1..] + [p];
      JoinAppend(parts[1..], p, sep);
    }
  }

  /** `s.split(sep)` for a one-character separator, in Python and in
      JavaScript alike: the pieces between separators, empty ones included.
      The two ensures clauses determine the result (see SplitUnique). */
  function Split(s: string, sep: char): (parts: seq<string>)
    ensures |parts| > 0
    ensures forall i :: 0 <= i < |parts| ==> sep !in parts[i]
    ensures Join(parts, [sep]) == s
  {
    if |s| == 0 then [""]
    else
      var rest := Split(s[1..], sep);
      if s[0] == sep then
        assert ([""] + rest)[1..] == rest;
        [""] + rest
      else
        var parts := [[s[0]] + rest[0]] + rest[1..];
        assert parts[1..] == rest[1..];
        assert |rest| > 1 ==> Join(rest, [sep]) == rest[0] + [sep] + Join(rest[1..], [sep]);
        parts
  }

  /** The separator-free prefix followed by a separator is split off first. */
  lemma {:induction false} SplitConcat(a: string, sep: char, t: string)
    requires sep !in a
    ensures Split(a + [sep] + t, sep) == [a] + Split(t, sep)
  {
    if a == [] {
      assert ([sep] + t)[1..] == t;
    } else {
      assert (a + [sep] + t)[1..] == a[1..] + [sep] + t;
      SplitConcat(a[1..], sep, t);
      assert [a[0]] + a[1..] == a;
    }
  }

  /** A string without the separator is one piece. */
  lemma {:induction false} SplitNoSeparator(s: string, sep: char)
    requires sep !in s
    ensures Split(s, sep) == [s]
  {
    if s != [] {
      SplitNoSeparator(s[1..], sep);
      assert [s[0]] + s[1..] == s;
    }
  }

  /** Splitting is the inverse of joining separator-free pieces. */
  lemma {:induction false} SplitUnique(parts: seq<string>, sep: char)
    requires |parts| > 0
    requires forall i :: 0 <= i < |parts| ==> sep !in parts[i]
    ensures Split(Join(parts, [sep]), sep) == parts
  {
    if |parts| == 1 {
      SplitNoSeparator(parts[0], sep);
    } else {
      SplitUnique(parts[1..], sep);
      SplitConcat(parts[0], sep, Join(parts[1..], [sep]));
      assert [parts[0]] + parts[1..] == parts;
    }
  }

  /** The first piece of a split is everything before the first separator. */
  lemma SplitFirst(s: string, sep: char)
    ensures var first := Split(s, sep)[0];
      && sep !in first
      && StartsWith(s, first)
      && (|first| == |s| || s[|first|] == sep)
  {
    var parts := Split(s, sep);
    if |parts| > 1 {
      assert s == parts[0] + [sep] + Join(parts[1..], [sep]);
    }
  }

  // ---------------------------------------------------------------------------
  // Decimal numerals
  // ---------------------------------------------------------------------------

  predicate AllDigits(s: string) {
    forall i :: 0 <= i < |s| ==> IsDigit(s[i])
  }

  function DigitChar(d: nat): (c: char)
    requires d < 10
    ensures IsDigit(c)
  {
    ('0' as int + d) as char
  }

  function DigitValue(c: char): (d: nat)
    requires IsDigit(c)
    ensures d < 10
  {
    c as int - '0' as int
  }

  function Pow10(k: nat): (p: nat)
    ensures p >= 1
  {
    if k == 0 then 1 else 10 * Pow10(k - 1)
  }

  /** Python's `str(n)` / JavaScript's `String(n)` for a natural number. */
  function NatToString(n: nat): (s: string)
    ensures |s| > 0 && AllDigits(s)
  {
    if n < 10 then [DigitChar(n)] else NatToString(n / 10) + [DigitChar(n % 10)]
  }

  /** Python's `str(i)` / JavaScript's `String(i)` for an integer. */
  function IntToString(i: int): (s: string)
    ensures |s| > 0
    ensures i >= 0 ==> AllDigits(s)
    ensures i < 0 ==> s[0] == '-' && AllDigits(s[1..])
  {
    if i < 0 then "-" + NatToString(-i) else NatToString(i)
  }

  /** The value of a string of decimal digits (0 for the empty string). */
  function ParseNat(s: string): nat
    requires AllDigits(s)
  {
    if s == [] then 0 else 10 * ParseNat(s[..|s| - 1]) + DigitValue(s[|s| - 1])
  }

  lemma {:induction false} ParseNatToString(n: nat)
    ensures ParseNat(NatToString(n)) == n
  {
    if n >= 10 {
      var s := NatToString(n);
      assert s[..|s| - 1] == NatToString(n / 10);
      ParseNatToString(n / 10);
    } else {
      assert NatToString(n)[..0] == [];
    }
  }

  lemma {:induction false} NatToStringLength(n: nat, w: nat)
    requires 1 <= w && n < Pow10(w)
    ensures |NatToString(n)| <= w
  {
    if n >= 10 {
      NatToStringLength(n / 10, w - 1);
    }
  }

  function Zeros(k: nat): (z: string)
    ensures |z| == k && AllDigits(z)
  {
    seq(k, _ => '0')
  }

  /** `String(n).padStart(width, '0')`: the numeral of `n`, widened with
      leading zeros to at least `width` digits. */
  function ZeroPad(n: nat, width: nat): (s: string)
    ensures AllDigits(s) && |s| >= width
  {
    var d := NatToString(n);
    if |d| >= width then d else Zeros(width - |d|) + d
  }

  /** The padded numeral still reads as `n`, and it is exactly `width` long
      when `n` has at most `width` digits. */
  lemma ZeroPadValue(n: nat, width: nat)
    ensures ParseNat(ZeroPad(n, width)) == n
    ensures 1 <= width && n < Pow10(width) ==> |ZeroPad(n, width)| == width
  {
    var d := NatToString(n);
    ParseNatToString(n);
    if width >= 1 && n < Pow10(width) {
      NatToStringLength(n, width);
    }
    if |d| < width {
      ParseNatZeros(width - |d|, d);
    }
  }

  lemma {:induction false} ParseNatZeros(k: nat, t: string)
    requires AllDigits(t)
    ensures ParseNat(Zeros(k) + t) == ParseNat(t)
  {
    if t == [] {
      assert Zeros(k) + t == Zeros(k);
      if k > 0 {
        assert Zeros(k)[..k - 1] == Zeros(k - 1);
        ParseNatZeros(k - 1, []);
        assert Zeros(k - 1) + [] == Zeros(k - 1);
      }
    } else {
      var u := Zeros(k) + t;
      assert u[..|u| - 1] == Zeros(k) + t[..|t| - 1];
      ParseNatZeros(k, t[..|t| - 1]);
    }
  }

  // ---------------------------------------------------------------------------
  // Python's int() of a string
  // ---------------------------------------------------------------------------

  /** Decimal digits in which single underscores may separate digits. */
  predicate PyDigits(s: string) {
    && |s| > 0 && IsDigit(s[0]) && IsDigit(s[|s| - 1])
    && (forall i :: 0 <= i < |s| ==> IsDigit(s[i]) || s[i] == '_')
    && (forall i :: 0 < i < |s| ==> !(s[i - 1] == '_' && s[i] == '_'))
  }

  function DropUnderscores(s: string): (r: string)
    ensures |r| <= |s|
    ensures (forall i :: 0 <= i < |s| ==> IsDigit(s[i]) || s[i] == '_') ==> AllDigits(r)
    ensures AllDigits(s) ==> r == s
  {
    if s == [] then []
    else (if s[0] == '_' then [] else [s[0]]) + DropUnderscores(s[1..])
  }

  /** `int(s)` for a `str` (ASCII digits): surrounding whitespace, an
      optional sign, digits with single underscores between them; None when
      `int` raises ValueError. */
  function ParsePyInt(s: string): Option<int> {
    var t := Trim(s, IsPySpace);
    if |t| > 0 && (t[0] == '+' || t[0] == '-') then
      if PyDigits(t[1..]) then
        var n: int := ParseNat(DropUnderscores(t[1..]));
        Some(if t[0] == '-' then -n else n)
      else None
    else if PyDigits(t) then
      Some(ParseNat(DropUnderscores(t)))
    else None
  }

  lemma NotPySpace(c: char)
    requires IsDigit(c) || c == '-'
    ensures !IsPySpace(c)
  {
  }

  /** `int(str(i)) == i`. */
  lemma ParsePyIntOfString(i: int)
    ensures ParsePyInt(IntToString(i)) == Some(i)
  {
    var s := IntToString(i);
    var d := NatToString(if i < 0 then -i else i);
    ParseNatToString(if i < 0 then -i else i);
    NotPySpace(s[0]);
    NotPySpace(s[|s| - 1]);
    TrimClean(s, IsPySpace);
    if i < 0 {
      assert s[1..] == d;
    }
  }
}
