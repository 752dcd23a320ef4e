/** `parse_duration` of FMCopilot/data_analyzer.py: a duration cell of the
    form `hours:minutes` or `hours:minutes:seconds` as a number of seconds,
    0 for everything it cannot read. */
module DurationParser {
  import opened Wrappers
  import opened Text

  /** A cell of the duration column: missing (None or NaN), a string, or an
      integer. */
  datatype Cell = Missing | Str(text: string) | Integer(n: int)

  // ---- Python's int() on a string, base 10 ----

  /** `sys.int_info.default_max_str_digits`: `int()` of a decimal text with
      more digits, and `str()` of an integer with more digits, raise
      ValueError. */
  const MaxStrDigits: nat := 4300

  /** A character `int()` can accept somewhere in its argument. */
  predicate IntChar(c: char) {
    IsDigit(c) || c == '_' || c == '+' || c == '-' || IntSpace(c)
  }

  /** Digits, with single underscores allowed between two digits. */
  predicate Grouped(s: string) {
    && s != [] && IsDigit(s[0])
    && (|s| == 1 || if s[1] == '_' then Grouped(s[2..]) else Grouped(s[1..]))
  }

  /** The digits of a grouped number, underscores dropped. */
  function Ungrouped(s: string): (r: string)
    requires Grouped(s)
    ensures AllDigits(r)
  {
    if |s| == 1 then [s[0]]
    else if s[1] == '_' then [s[0]] + Ungrouped(s[2..])
    else [s[0]] + Ungrouped(s[1..])
  }

  /** A grouped number is made of digits and underscores. */
  lemma {:induction false} GroupedChars(s: string)
    requires Grouped(s)
    ensures forall i :: 0 <= i < |s| ==> IsDigit(s[i]) || s[i] == '_'
  {
    if |s| > 1 {
      var k := if s[1] == '_' then 2 else 1;
      GroupedChars(s[k..]);
      assert forall i :: k <= i < |s| ==> s[i] == s[k..][i - k];
    }
  }

  /** A non-empty digit string is grouped, and dropping underscores leaves
      it as it is. */
  lemma {:induction false} DigitsGrouped(s: string)
    requires s != [] && AllDigits(s)
    ensures Grouped(s) && Ungrouped(s) == s
  {
    if |s| > 1 {
      DigitsGrouped(s[1..]);
      assert [s[0]] + s[1..] == s;
    }
  }

  /** `int(s)` on the stripped text: an optional sign and a grouped decimal
      number. */
  function ReadSigned(t: string): Option<int> {
    var signed := t != [] && (t[0] == '+' || t[0] == '-');
    var body := if signed then t[1..] else t;
    match ReadBody(body)
    case Some(v) =>
      var n: int := v;
      Some(if signed && t[0] == '-' then -n else n)
    case None => None
  }

  /** The unsigned number `int()` reads: a grouped decimal number of at most
      `MaxStrDigits` digits, underscores not counted. */
  function ReadBody(body: string): (r: Option<nat>)
    ensures r.Some? ==> Grouped(body)
  {
    if Grouped(body) && |Ungrouped(body)| <= MaxStrDigits then Some(DigitsValue(Ungrouped(body))) else None
  }

  /** The whitespace `int()` skips around a number: what `str.isspace`
      accepts, except the information separators U+001C to U+001F. CPython
      maps non-ASCII whitespace to a space before it reads, but among ASCII
      characters it skips only the space and '\t' to '\r'. */
  predicate IntSpace(c: char) {
    IsSpace(c) && !('\U{1c}' <= c <= '\U{1f}')
  }

  /** `s` without the leading whitespace `int()` skips. */
  function IntStripLeft(s: string): (r: string)
    ensures |r| <= |s| && r == s[|s| - |r|..]
    ensures r != [] ==> !IntSpace(r[0])
  {
    if s != [] && IntSpace(s[0]) then IntStripLeft(s[1..]) else s
  }

  /** `s` without the trailing whitespace `int()` skips. */
  function IntStripRight(s: string): (r: string)
    ensures |r| <= |s| && r == s[..|r|]
    ensures r != [] ==> !IntSpace(r[|r| - 1])
  {
    if s != [] && IntSpace(s[|s| - 1]) then IntStripRight(s[..|s| - 1]) else s
  }

  /** The text `int()` reads once it has skipped whitespace at both ends: a
      slice of `s` with no such whitespace at either end. */
  function IntStrip(s: string): (r: string)
    ensures var lo := |s| - |IntStripLeft(s)|;
            lo + |r| <= |s| && r == s[lo..lo + |r|]
    ensures r != [] ==> !IntSpace(r[0]) && !IntSpace(r[|r| - 1])
  {
    var l := IntStripLeft(s);
    var r := IntStripRight(l);
    PrefixOfSuffix(s, |s| - |l|, |r|);
    if r != [] then
      assert r[0] == l[0];
      r
    else r
  }

  /** Only skippable whitespace is removed on the left. */
  lemma {:induction false} IntStripLeftRemovesSpace(s: string)
    ensures forall i :: 0 <= i < |s| - |IntStripLeft(s)| ==> IntSpace(s[i])
  {
    if s != [] && IntSpace(s[0]) {
      IntStripLeftRemovesSpace(s[1..]);
      forall i | 1 <= i < |s| - |IntStripLeft(s)|
        ensures IntSpace(s[i])
      {
        assert s[i] == s[1..][i - 1];
      }
    }
  }

  /** Only skippable whitespace is removed on the right. */
  lemma {:induction false} IntStripRightRemovesSpace(s: string)
    ensures forall i :: |IntStripRight(s)| <= i < |s| ==> IntSpace(s[i])
  {
    if s != [] && IntSpace(s[|s| - 1]) {
      IntStripRightRemovesSpace(s[..|s| - 1]);
    }
  }

  /** Everything `int()` skips, on either side of what it reads, is
      whitespace it may skip. */
  lemma IntStripRemovesSpace(s: string)
    ensures var lo := |s| - |IntStripLeft(s)|;
            && (forall i :: 0 <= i < lo ==> IntSpace(s[i]))
            && (forall i :: lo + |IntStrip(s)| <= i < |s| ==> IntSpace(s[i]))
  {
    var l := IntStripLeft(s);
    var lo := |s| - |l|;
    IntStripLeftRemovesSpace(s);
    IntStripRightRemovesSpace(l);
    forall i | lo + |IntStrip(s)| <= i < |s|
      ensures IntSpace(s[i])
    {
      assert s[i] == l[i - lo];
    }
  }

  /** `int(s)`: the whitespace `IntSpace` allows is skipped at both ends, then
      an optional sign and a grouped decimal number within the digit limit;
      None where `int()` raises ValueError. */
  function ParseInt(s: string): (r: Option<int>)
    ensures r.Some? ==> forall i :: 0 <= i < |s| ==> s[i] != ':'
    ensures r.Some? && (forall i :: 0 <= i < |s| ==> s[i] != '-') ==> r.value >= 0
  {
    var r := ReadSigned(IntStrip(s));
    if r.Some? then IntCharsOfStrip(s); r else r
  }

  /** What `ReadSigned` accepts after the skipped whitespace is made of
      whitespace, a sign and a grouped number, and is negative only after a
      '-'. */
  lemma IntCharsOfStrip(s: string)
    requires ReadSigned(IntStrip(s)).Some?
    ensures forall i :: 0 <= i < |s| ==> IntChar(s[i])
    ensures ReadSigned(IntStrip(s)).value < 0 ==> exists i :: 0 <= i < |s| && s[i] == '-'
  {
    var t := IntStrip(s);
    SignedChars(t);
    IntStripRemovesSpace(s);
    var lo := |s| - |IntStripLeft(s)|;
    IntCharsAround(s, lo, t);
    if ReadSigned(t).value < 0 {
      assert s[lo] == t[0];
    }
  }

  /** Whitespace around a sign and a grouped number. */
  lemma IntCharsAround(s: string, lo: nat, t: string)
    requires lo + |t| <= |s| && t == s[lo..lo + |t|]
    requires forall i :: 0 <= i < lo ==> IntSpace(s[i])
    requires forall i :: lo + |t| <= i < |s| ==> IntSpace(s[i])
    requires forall i :: 0 <= i < |t| ==> IsDigit(t[i]) || t[i] == '_' || t[i] == '+' || t[i] == '-'
    ensures forall i :: 0 <= i < |s| ==> IntChar(s[i])
  {
    forall i | 0 <= i < |s| ensures IntChar(s[i]) {
      if i < lo || lo + |t| <= i {
        assert IntSpace(s[i]);
      } else {
        assert s[i] == t[i - lo];
      }
    }
  }

  /** What `ReadSigned` accepts is a sign and a grouped number, and is
      negative only when it starts with '-'. */
  lemma SignedChars(t: string)
    requires ReadSigned(t).Some?
    ensures forall i :: 0 <= i < |t| ==> IsDigit(t[i]) || t[i] == '_' || t[i] == '+' || t[i] == '-'
    ensures ReadSigned(t).value < 0 ==> t != [] && t[0] == '-'
  {
    var signed := t != [] && (t[0] == '+' || t[0] == '-');
    var body := if signed then t[1..] else t;
    GroupedChars(body);
    if signed {
      assert forall i :: 1 <= i < |t| ==> t[i] == body[i - 1];
    }
  }

  /** `str(n)` for an integer: a minus sign for a negative number, then the
      decimal digits without leading zeros. */
  function DecimalString(n: int): (s: string)
    ensures s != []
  {
    if n < 0 then "-" + Padded(-n, DigitCount(-n)) else Padded(n, DigitCount(n))
  }

  /** The number of digits `str(n)` writes, the sign not counted. */
  function DecimalDigits(n: int): nat {
    DigitCount(if n < 0 then -n else n)
  }

  /** The number of decimal digits of `n` (1 for 0). */
  function DigitCount(n: nat): (w: nat)
    ensures w >= 1 && n < Pow10(w)
  {
    if n < 10 then 1 else 1 + DigitCount(n / 10)
  }

  /** A plain digit string reads as its value. */
  lemma ParseDigits(s: string)
    requires s != [] && AllDigits(s)
    ensures ParseInt(s) == if |s| <= MaxStrDigits then Some(DigitsValue(s)) else None
  {
    DigitsUnpadded(s);
    ParseUnpadded(s);
    ReadDigits(s);
  }

  /** A plain digit string has no sign and is its own grouped body. */
  lemma ReadDigits(s: string)
    requires s != [] && AllDigits(s)
    ensures ReadSigned(s) == if |s| <= MaxStrDigits then Some(DigitsValue(s)) else None
  {
    DigitsGrouped(s);
    assert IsDigit(s[0]);
  }

  /** `str(n)` is a '-' for a negative number followed by the digits of its
      magnitude. */
  lemma DecimalShape(n: int)
    ensures var s := DecimalString(n);
            var m := if n < 0 then -n else n;
            && s[|s| - 1] != '-' && !IsSpace(s[0]) && !IsSpace(s[|s| - 1])
            && (n < 0 ==> s[0] == '-' && s[1..] == Padded(m, DigitCount(m)))
            && (n >= 0 ==> s == Padded(m, DigitCount(m)))
            && forall i :: 0 <= i < |s| ==> (s[i] == '-' || IsDigit(s[i]))
  {
    var m := if n < 0 then -n else n;
    var digits := Padded(m, DigitCount(m));
    var s := DecimalString(n);
    if n < 0 {
      assert s == "-" + digits;
      assert forall i :: 1 <= i < |s| ==> s[i] == digits[i - 1];
    }
  }

  /** `int(str(n)) == n` within the digit limit; beyond it `int()` raises. */
  lemma ParseDecimal(n: int)
    ensures ParseInt(DecimalString(n)) == if DecimalDigits(n) <= MaxStrDigits then Some(n) else None
  {
    var s := DecimalString(n);
    DecimalShape(n);
    ParseUnpadded(s);
    ReadDecimal(n);
  }

  /** Text without skippable whitespace at its ends is read as it stands. */
  lemma ParseUnpadded(s: string)
    requires s != [] && !IntSpace(s[0]) && !IntSpace(s[|s| - 1])
    ensures ParseInt(s) == ReadSigned(s)
  {
    assert IntStripLeft(s) == s;
    assert IntStripRight(s) == s;
  }

  /** The sign and digits of `str(n)` read back as `n`. */
  lemma ReadDecimal(n: int)
    ensures ReadSigned(DecimalString(n)) == if DecimalDigits(n) <= MaxStrDigits then Some(n) else None
  {
    var m: nat := if n < 0 then -n else n;
    var digits := Padded(m, DigitCount(m));
    PaddedValue(m, DigitCount(m));
    DigitsGrouped(digits);
    var s := DecimalString(n);
    DecimalShape(n);
    DigitsUnpadded(digits);
    var body := if n < 0 then s[1..] else s;
    assert body == digits && Grouped(body) && Ungrouped(body) == digits && DigitsValue(digits) == m;
  }

  // ---- parse_duration ----

  /** Lines 23-38 on a string: strip, split on ':', read two or three parts
      as integers; 0 for any other number of parts or a part that is not an
      integer. */
  function SecondsOf(text: string): int {
    Total(Split(Strip(text), ':'))
  }

  /** Lines 26-38 on the parts of the split. */
  function Total(parts: seq<string>): int {
    if |parts| == 3 then ClockSeconds(ParseInt(parts[0]), ParseInt(parts[1]), ParseInt(parts[2]))
    else if |parts| == 2 then ClockMinutes(ParseInt(parts[0]), ParseInt(parts[1]))
    else 0
  }

  /** Lines 27-28 and 35: `h*3600 + m*60 + s` once all three parts were read
      as integers; 0 when one was not (the ValueError caught at line 37). */
  function ClockSeconds(hours: Option<int>, minutes: Option<int>, seconds: Option<int>): int {
    if hours.Some? && minutes.Some? && seconds.Some? then
      hours.value * 3600 + minutes.value * 60 + seconds.value
    else 0
  }

  /** Lines 29-31 and 35: `h*3600 + m*60` once both parts were read as
      integers; 0 when one was not. */
  function ClockMinutes(hours: Option<int>, minutes: Option<int>): int {
    if hours.Some? && minutes.Some? then hours.value * 3600 + minutes.value * 60 else 0
  }

  /** `parse_duration`: a missing cell, `'00:00'` and `'0'` are 0 at once;
      anything else is converted with `str` and read by `SecondsOf`. An
      integer is never equal to the strings `'00:00'` or `'0'`. None where
      the ValueError of `str()` on an integer beyond the digit limit escapes:
      line 23 lies outside the `try`. */
  function ParseDuration(c: Cell): Option<int> {
    match c
    case Missing => Some(0)
    case Str(s) => Some(if s == "00:00" || s == "0" then 0 else SecondsOf(s))
    case Integer(n) => if DecimalDigits(n) > MaxStrDigits then None else Some(SecondsOf(DecimalString(n)))
  }

  // ---- Properties ----

  /** The early return of line 21 gives what the general path gives, so on
      strings `parse_duration` is `SecondsOf`. */
  lemma ShortcutAgrees(s: string)
    ensures ParseDuration(Str(s)) == Some(SecondsOf(s))
  {
    if s == "00:00" {
      ZeroTexts();
      assert DigitsValue("00") == 0 by {
        assert "00"[..1] == "0";
      }
      DigitsHoursMinutes("00", "00");
    } else if s == "0" {
      NoColonIsZero("0");
    }
  }

  /** `'00:00'` as its two parts joined by ':'. */
  lemma ZeroTexts()
    ensures "00:00" == "00" + ":" + "00"
  {
  }

  /** A three-part duration is `h*3600 + m*60 + s` when every part is an
      integer, and 0 otherwise. The parts are the pieces as `strip()` leaves
      them: the first without its leading and the last without its trailing
      whitespace; empty pieces are not integers. */
  lemma HoursMinutesSeconds(a: string, b: string, c: string)
    requires forall i :: 0 <= i < |a| ==> a[i] != ':'
    requires forall i :: 0 <= i < |b| ==> b[i] != ':'
    requires forall i :: 0 <= i < |c| ==> c[i] != ':'
    ensures SecondsOf(a + ":" + b + ":" + c) ==
              ClockSeconds(ParseInt(StripLeft(a)), ParseInt(b), ParseInt(StripRight(c)))
  {
    PartsOfThree(a, b, c);
    TotalOfThree(StripLeft(a), b, StripRight(c));
  }

  /** The parts of a three-part text are its pieces, the outer two stripped
      on their outer side. */
  lemma PartsOfThree(a: string, b: string, c: string)
    requires forall i :: 0 <= i < |a| ==> a[i] != ':'
    requires forall i :: 0 <= i < |b| ==> b[i] != ':'
    requires forall i :: 0 <= i < |c| ==> c[i] != ':'
    ensures Split(Strip(a + ":" + b + ":" + c), ':') == [StripLeft(a), b, StripRight(c)]
  {
    StripThree(a, ':', b, c);
    StripEndsKeepOut(a, ':');
    StripEndsKeepOut(c, ':');
    SplitInThree(StripLeft(a), ':', b, StripRight(c));
  }

  /** Text without U+001C to U+001F: there `int()` skips exactly the
      whitespace `strip()` removes. */
  predicate NoSeparators(s: string) {
    forall i :: 0 <= i < |s| ==> !('\U{1c}' <= s[i] <= '\U{1f}')
  }

  /** On text without information separators, whitespace already stripped
      from one side does not change what `int()` reads. */
  lemma ParseIntOfStripped(s: string)
    requires NoSeparators(s)
    ensures ParseInt(StripLeft(s)) == ParseInt(s)
    ensures ParseInt(StripRight(s)) == ParseInt(s)
  {
    var l, r := StripLeft(s), StripRight(s);
    SlicesWithoutSeparators(s);
    IntStripAgrees(s);
    IntStripAgrees(l);
    IntStripAgrees(r);
    StripOfStripLeft(s);
    StripOfStripRight(s);
  }

  /** An information separator after digits is not skipped: `int()`
      rejects the part, though `strip()` would have removed the separator. */
  lemma TrailingSeparatorRejected(d: string, x: char)
    requires d != [] && AllDigits(d) && '\U{1c}' <= x <= '\U{1f}'
    ensures IsSpace(x)
    ensures ParseInt(d + [x]) == None
  {
    var t := d + [x];
    assert t[0] == d[0] && t[|t| - 1] == x;
    assert !Grouped(t) by {
      if Grouped(t) {
        GroupedChars(t);
      }
    }
    ParseUnpadded(t);
  }

  /** Nor is one before digits. */
  lemma LeadingSeparatorRejected(d: string, x: char)
    requires d != [] && AllDigits(d) && '\U{1c}' <= x <= '\U{1f}'
    ensures IsSpace(x)
    ensures ParseInt([x] + d) == None
  {
    var u := [x] + d;
    assert u[0] == x && u[|u| - 1] == d[|d| - 1];
    ParseUnpadded(u);
  }

  /** A part ending in an information separator makes the duration 0, as in
      `'1\x1c:2'`: the separator survives `strip()` and `int()` rejects it. */
  lemma SeparatorPartIsZero(h: string, m: string, x: char)
    requires h != [] && AllDigits(h) && m != [] && AllDigits(m) && '\U{1c}' <= x <= '\U{1f}'
    ensures SecondsOf(h + [x] + ":" + m) == 0
  {
    var a := h + [x];
    TrailingSeparatorRejected(h, x);
    assert a[0] == h[0];
    DigitsUnpadded(h);
    DigitsUnpadded(m);
    forall i | 0 <= i < |a|
      ensures a[i] != ':'
    {
      if i < |h| {
        assert a[i] == h[i];
      }
    }
    UnpaddedHoursMinutes(a, m);
  }

  /** Without information separators, `int()` skips what `strip()` removes. */
  lemma IntStripAgrees(s: string)
    requires NoSeparators(s)
    ensures IntStrip(s) == Strip(s)
  {
    IntStripLeftAgrees(s);
    var l := StripLeft(s);
    SlicesWithoutSeparators(s);
    IntStripRightAgrees(l);
  }

  lemma {:induction false} IntStripLeftAgrees(s: string)
    requires NoSeparators(s)
    ensures IntStripLeft(s) == StripLeft(s)
  {
    if s != [] && IsSpace(s[0]) {
      assert NoSeparators(s[1..]) by {
        assert forall i :: 0 <= i < |s[1..]| ==> s[1..][i] == s[i + 1];
      }
      IntStripLeftAgrees(s[1..]);
    }
  }

  lemma {:induction false} IntStripRightAgrees(s: string)
    requires NoSeparators(s)
    ensures IntStripRight(s) == StripRight(s)
  {
    if s != [] && IsSpace(s[|s| - 1]) {
      IntStripRightAgrees(s[..|s| - 1]);
    }
  }

  /** The one-sided strips of separator-free text are separator-free. */
  lemma SlicesWithoutSeparators(s: string)
    requires NoSeparators(s)
    ensures NoSeparators(StripLeft(s)) && NoSeparators(StripRight(s))
  {
    SuffixWithoutSeparators(s, StripLeft(s));
    PrefixWithoutSeparators(s, StripRight(s));
  }

  lemma SuffixWithoutSeparators(s: string, t: string)
    requires NoSeparators(s) && |t| <= |s| && t == s[|s| - |t|..]
    ensures NoSeparators(t)
  {
    forall i | 0 <= i < |t|
      ensures !('\U{1c}' <= t[i] <= '\U{1f}')
    {
      assert t[i] == s[|s| - |t| + i];
    }
  }

  lemma PrefixWithoutSeparators(s: string, t: string)
    requires NoSeparators(s) && |t| <= |s| && t == s[..|t|]
    ensures NoSeparators(t)
  {
    forall i | 0 <= i < |t|
      ensures !('\U{1c}' <= t[i] <= '\U{1f}')
    {
      assert t[i] == s[i];
    }
  }

  /** Three parts are read as hours, minutes and seconds. */
  lemma TotalOfThree(a: string, b: string, c: string)
    ensures Total([a, b, c]) == ClockSeconds(ParseInt(a), ParseInt(b), ParseInt(c))
  {
  }

  /** A two-part duration is `h*3600 + m*60` when both parts are integers,
      and 0 otherwise. The parts are the pieces as `strip()` leaves them: the
      first without its leading and the second without its trailing
      whitespace; empty pieces are not integers. */
  lemma HoursMinutes(a: string, b: string)
    requires forall i :: 0 <= i < |a| ==> a[i] != ':'
    requires forall i :: 0 <= i < |b| ==> b[i] != ':'
    ensures SecondsOf(a + ":" + b) == ClockMinutes(ParseInt(StripLeft(a)), ParseInt(StripRight(b)))
  {
    PartsOfTwo(a, b);
    TotalOfTwo(StripLeft(a), StripRight(b));
  }

  /** The parts of a two-part text are its pieces, each stripped on its
      outer side. */
  lemma PartsOfTwo(a: string, b: string)
    requires forall i :: 0 <= i < |a| ==> a[i] != ':'
    requires forall i :: 0 <= i < |b| ==> b[i] != ':'
    ensures Split(Strip(a + ":" + b), ':') == [StripLeft(a), StripRight(b)]
  {
    StripTwo(a, ':', b);
    StripEndsKeepOut(a, ':');
    StripEndsKeepOut(b, ':');
    SplitInTwo(StripLeft(a), ':', StripRight(b));
  }

  /** Two parts are read as hours and minutes. */
  lemma TotalOfTwo(a: string, b: string)
    ensures Total([a, b]) == ClockMinutes(ParseInt(a), ParseInt(b))
  {
  }

  /** Whitespace around a duration does not change it. */
  lemma SurroundingSpaceIgnored(w1: string, text: string, w2: string)
    requires forall i :: 0 <= i < |w1| ==> IsSpace(w1[i])
    requires forall i :: 0 <= i < |w2| ==> IsSpace(w2[i])
    ensures SecondsOf(w1 + text + w2) == SecondsOf(text)
  {
    StripIgnoresPadding(w1, text, w2);
  }

  /** Digits-only durations such as `'13504:51'`: total hours, then
      minutes, as seconds; 0 when a part is beyond the digit limit. */
  lemma DigitsHoursMinutes(h: string, m: string)
    requires h != [] && AllDigits(h) && m != [] && AllDigits(m)
    ensures SecondsOf(h + ":" + m) ==
              if |h| <= MaxStrDigits && |m| <= MaxStrDigits then DigitsValue(h) * 3600 + DigitsValue(m) * 60
              else 0
  {
    DigitsUnpadded(h);
    DigitsUnpadded(m);
    UnpaddedHoursMinutes(h, m);
    DigitsClockMinutes(h, m);
  }

  /** Hours and minutes read from digit strings. */
  lemma DigitsClockMinutes(h: string, m: string)
    requires h != [] && AllDigits(h) && m != [] && AllDigits(m)
    ensures ClockMinutes(ParseInt(h), ParseInt(m)) ==
              if |h| <= MaxStrDigits && |m| <= MaxStrDigits then DigitsValue(h) * 3600 + DigitsValue(m) * 60
              else 0
  {
    ParseDigits(h);
    ParseDigits(m);
  }

  /** Digits-only durations such as `'13504:51:00'`: hours, minutes and
      seconds, as seconds; 0 when a part is beyond the digit limit. */
  lemma DigitsHoursMinutesSeconds(h: string, m: string, sec: string)
    requires h != [] && AllDigits(h) && m != [] && AllDigits(m) && sec != [] && AllDigits(sec)
    ensures SecondsOf(h + ":" + m + ":" + sec) ==
              if |h| <= MaxStrDigits && |m| <= MaxStrDigits && |sec| <= MaxStrDigits then
                DigitsValue(h) * 3600 + DigitsValue(m) * 60 + DigitsValue(sec)
              else 0
  {
    DigitsUnpadded(h);
    DigitsUnpadded(m);
    DigitsUnpadded(sec);
    UnpaddedHoursMinutesSeconds(h, m, sec);
    DigitsClockSeconds(h, m, sec);
  }

  /** Hours, minutes and seconds read from digit strings. */
  lemma DigitsClockSeconds(h: string, m: string, sec: string)
    requires h != [] && AllDigits(h) && m != [] && AllDigits(m) && sec != [] && AllDigits(sec)
    ensures ClockSeconds(ParseInt(h), ParseInt(m), ParseInt(sec)) ==
              if |h| <= MaxStrDigits && |m| <= MaxStrDigits && |sec| <= MaxStrDigits then
                DigitsValue(h) * 3600 + DigitsValue(m) * 60 + DigitsValue(sec)
              else 0
  {
    ParseDigits(h);
    ParseDigits(m);
    ParseDigits(sec);
  }

  /** Where the text starts and ends without whitespace, the parts are the
      pieces themselves. */
  lemma UnpaddedHoursMinutes(a: string, b: string)
    requires forall i :: 0 <= i < |a| ==> a[i] != ':'
    requires forall i :: 0 <= i < |b| ==> b[i] != ':'
    requires a != [] && !IsSpace(a[0]) && b != [] && !IsSpace(b[|b| - 1])
    ensures SecondsOf(a + ":" + b) == ClockMinutes(ParseInt(a), ParseInt(b))
  {
    assert StripLeft(a) == a && StripRight(b) == b;
    HoursMinutes(a, b);
  }

  /** The same for three pieces. */
  lemma UnpaddedHoursMinutesSeconds(a: string, b: string, c: string)
    requires forall i :: 0 <= i < |a| ==> a[i] != ':'
    requires forall i :: 0 <= i < |b| ==> b[i] != ':'
    requires forall i :: 0 <= i < |c| ==> c[i] != ':'
    requires a != [] && !IsSpace(a[0]) && c != [] && !IsSpace(c[|c| - 1])
    ensures SecondsOf(a + ":" + b + ":" + c) == ClockSeconds(ParseInt(a), ParseInt(b), ParseInt(c))
  {
    assert StripLeft(a) == a && StripRight(c) == c;
    HoursMinutesSeconds(a, b, c);
  }

  /** A digit string has no ':' and no whitespace at its ends. */
  lemma DigitsUnpadded(s: string)
    requires s != [] && AllDigits(s)
    ensures forall i :: 0 <= i < |s| ==> s[i] != ':'
    ensures !IsSpace(s[0]) && !IsSpace(s[|s| - 1])
  {
    assert IsDigit(s[0]) && IsDigit(s[|s| - 1]);
  }

  /** Writing hours and minutes out in decimal and reading them back gives the
      duration they stand for, unless one of them is beyond the digit limit. */
  lemma FormattedDuration(hours: int, minutes: int)
    ensures ParseDuration(Str(DecimalString(hours) + ":" + DecimalString(minutes))) ==
              Some(if DecimalDigits(hours) <= MaxStrDigits && DecimalDigits(minutes) <= MaxStrDigits then
                     hours * 3600 + minutes * 60
                   else 0)
  {
    FormattedSeconds(hours, minutes);
    ShortcutAgrees(DecimalString(hours) + ":" + DecimalString(minutes));
  }

  /** `SecondsOf` on hours and minutes written in decimal. */
  lemma FormattedSeconds(hours: int, minutes: int)
    ensures SecondsOf(DecimalString(hours) + ":" + DecimalString(minutes)) ==
              if DecimalDigits(hours) <= MaxStrDigits && DecimalDigits(minutes) <= MaxStrDigits then
                hours * 3600 + minutes * 60
              else 0
  {
    var a, b := DecimalString(hours), DecimalString(minutes);
    DecimalShape(hours);
    DecimalShape(minutes);
    UnpaddedHoursMinutes(a, b);
    DecimalClockMinutes(hours, minutes);
  }

  /** Hours and minutes read from their decimal strings. */
  lemma DecimalClockMinutes(hours: int, minutes: int)
    ensures ClockMinutes(ParseInt(DecimalString(hours)), ParseInt(DecimalString(minutes))) ==
              if DecimalDigits(hours) <= MaxStrDigits && DecimalDigits(minutes) <= MaxStrDigits then
                hours * 3600 + minutes * 60
              else 0
  {
    ParseDecimal(hours);
    ParseDecimal(minutes);
  }

  /** Unless the stripped text has one or two ':', the result is 0. */
  lemma WrongShapeIsZero(text: string)
    requires Count(Strip(text), ':') != 1 && Count(Strip(text), ':') != 2
    ensures SecondsOf(text) == 0
  {
    SplitCount(Strip(text), ':');
  }

  /** Without a minus sign the result is never negative. */
  lemma NoMinusIsNonNegative(text: string)
    requires forall i :: 0 <= i < |text| ==> text[i] != '-'
    ensures SecondsOf(text) >= 0
  {
    StripKeepsOut(text, '-');
    SplitKeepsOut(Strip(text), ':', '-');
  }

  /** Text without ':' is read as one part, so it is 0. */
  lemma NoColonIsZero(text: string)
    requires forall i :: 0 <= i < |text| ==> text[i] != ':'
    ensures SecondsOf(text) == 0
  {
    StripKeepsOut(text, ':');
    SplitNoSeparator(Strip(text), ':');
  }

  /** An integer cell is never a duration: its decimal form has no ':'. One
      beyond the digit limit makes `str()` raise. */
  lemma IntegerCellIsZero(n: int)
    ensures ParseDuration(Integer(n)) == if DecimalDigits(n) <= MaxStrDigits then Some(0) else None
  {
    if DecimalDigits(n) <= MaxStrDigits {
      DecimalShape(n);
      NoColonIsZero(DecimalString(n));
    }
  }
}
