/**
  Text forms of date-times: `strftime('%Y-%m-%d %H:%M:%S')` and `strptime` against the
  six layouts DateHour accepts. Every field is read and written as a fixed-width,
  zero-padded run of decimal digits.
*/
module TimeText {
  import opened Results
  import opened Calendar

  predicate IsDigit(c: char) {
    '0' <= c <= '9'
  }

  predicate AllDigits(s: string) {
    forall k :: 0 <= k < |s| ==> IsDigit(s[k])
  }

  function DigitChar(k: int): (c: char)
    requires 0 <= k <= 9
    ensures IsDigit(c)
  {
    ('0' as int + k) as char
  }

  function DigitValue(c: char): (k: int)
    requires IsDigit(c)
    ensures 0 <= k <= 9 && DigitChar(k) == c
  {
    c as int - '0' as int
  }

  function Pow10(w: nat): (r: nat)
    ensures r >= 1
  {
    if w == 0 then 1 else 10 * Pow10(w - 1)
  }

  /** The number a run of decimal digits denotes, most significant digit first. */
  function Num(s: string): nat
    requires AllDigits(s)
  {
    if |s| == 0 then 0 else 10 * Num(s[..|s| - 1]) + DigitValue(s[|s| - 1])
  }

  /** `n` written in exactly `w` decimal digits, zero-padded on the left. */
  function Pad(n: nat, w: nat): (s: string)
    ensures |s| == w && AllDigits(s)
  {
    if w == 0 then [] else Pad(n / 10, w - 1) + [DigitChar(n % 10)]
  }

  lemma {:induction false} NumPad(n: nat, w: nat)
    requires n < Pow10(w)
    ensures Num(Pad(n, w)) == n
  {
    if w > 0 {
      var s := Pad(n, w);
      assert s[..w - 1] == Pad(n / 10, w - 1);
      NumPad(n / 10, w - 1);
    }
  }

  lemma {:induction false} PadNum(s: string)
    requires AllDigits(s)
    ensures Pad(Num(s), |s|) == s
  {
    if |s| > 0 {
      var init := s[..|s| - 1];
      assert Num(s) / 10 == Num(init) && Num(s) % 10 == DigitValue(s[|s| - 1]);
      PadNum(init);
      assert s == init + [s[|s| - 1]];
    }
  }

  /** Separators of the full layout `YYYY-MM-DD HH:MM:SS`, by position. */
  predicate IsSeparatorAt(k: int) {
    k == 4 || k == 7 || k == 10 || k == 13 || k == 16
  }

  function SeparatorAt(k: int): char {
    if k == 10 then ' ' else if k == 4 || k == 7 then '-' else ':'
  }

  /** `s` has the shape of a prefix of `YYYY-MM-DD HH:MM:SS`: digits and separators in place. */
  predicate Lexes(s: string) {
    && |s| <= 19
    && forall k :: 0 <= k < |s| ==> if IsSeparatorAt(k) then s[k] == SeparatorAt(k) else IsDigit(s[k])
  }

  /** The six `strptime` layouts, each a prefix of the full one. */
  datatype Pattern = Seconds | Minutes | Hours | Days | Months | Years {
    function Directive(): string {
      match this
      case Seconds => "%Y-%m-%d %H:%M:%S"
      case Minutes => "%Y-%m-%d %H:%M"
      case Hours => "%Y-%m-%d %H"
      case Days => "%Y-%m-%d"
      case Months => "%Y-%m"
      case Years => "%Y"
    }

    /** Length of the text the layout matches. */
    function Width(): nat {
      match this
      case Seconds => 19
      case Minutes => 16
      case Hours => 13
      case Days => 10
      case Months => 7
      case Years => 4
    }
  }

  /** The two-digit field starting at `at`, or `absent` (strptime's default) if the text stops before it. */
  function Field(s: string, at: nat, absent: int): (v: int)
    requires Lexes(s)
    requires at == 5 || at == 8 || at == 11 || at == 14 || at == 17
    ensures 0 <= absent ==> 0 <= v
  {
    if at + 2 <= |s| then
      assert AllDigits(s[at..at + 2]) by {
        assert !IsSeparatorAt(at) && !IsSeparatorAt(at + 1);
      }
      Num(s[at..at + 2])
    else absent
  }

  /** `datetime.strptime(s, p.Directive())`: None where Python raises ValueError. */
  function Strptime(s: string, p: Pattern): (r: Option<DateTime>)
    ensures r.Some? ==> |s| == p.Width() && Lexes(s) && r.value.Valid()
  {
    if |s| != p.Width() || !Lexes(s) then None
    else
      assert AllDigits(s[..4]) by {
        assert forall k :: 0 <= k < 4 ==> !IsSeparatorAt(k);
      }
      var dt := DateTime(Num(s[..4]), Field(s, 5, 1), Field(s, 8, 1), Field(s, 11, 0), Field(s, 14, 0), Field(s, 17, 0));
      if dt.Valid() then Some(dt) else None
  }

  /** `dt.strftime('%Y-%m-%d %H:%M:%S')` */
  function Render(dt: DateTime): (s: string)
    requires dt.Valid()
    ensures |s| == 19 && Lexes(s)
  {
    Pad(dt.year, 4) + "-" + Pad(dt.month, 2) + "-" + Pad(dt.day, 2) + " "
      + Pad(dt.hour, 2) + ":" + Pad(dt.minute, 2) + ":" + Pad(dt.second, 2)
  }

  /** Rendering and then parsing with the full layout gives the date-time back. */
  lemma StrptimeRender(dt: DateTime)
    requires dt.Valid()
    ensures Strptime(Render(dt), Seconds) == Some(dt)
  {
    var s := Render(dt);
    RenderFields(dt);
    NumPad(dt.year, 4);
    NumPad(dt.month, 2);
    NumPad(dt.day, 2);
    NumPad(dt.hour, 2);
    NumPad(dt.minute, 2);
    NumPad(dt.second, 2);
  }

  /** Where each field of the full layout is written. */
  lemma RenderFields(dt: DateTime)
    requires dt.Valid()
    ensures var s := Render(dt);
      && s[..4] == Pad(dt.year, 4) && s[5..7] == Pad(dt.month, 2) && s[8..10] == Pad(dt.day, 2)
      && s[11..13] == Pad(dt.hour, 2) && s[14..16] == Pad(dt.minute, 2) && s[17..19] == Pad(dt.second, 2)
  {
    var s := Render(dt);
    assert s[..4] == Pad(dt.year, 4);
    assert s[5..7] == Pad(dt.month, 2);
    assert s[8..10] == Pad(dt.day, 2);
    assert s[11..13] == Pad(dt.hour, 2);
    assert s[14..16] == Pad(dt.minute, 2);
    assert s[17..19] == Pad(dt.second, 2);
  }

  /** The fields a layout does not read hold the defaults `strptime` gives them: month and day 1,
      hour, minute and second 0. */
  predicate DefaultsBelow(dt: DateTime, p: Pattern) {
    && (p.Width() <= 16 ==> dt.second == 0)
    && (p.Width() <= 13 ==> dt.minute == 0)
    && (p.Width() <= 10 ==> dt.hour == 0)
    && (p.Width() <= 7 ==> dt.day == 1)
    && (p.Width() <= 4 ==> dt.month == 1)
  }

  /** Every layout accepts its own prefix of a rendered date-time whose unread fields hold the
      defaults, and reads that date-time back. */
  lemma StrptimePrefix(dt: DateTime, p: Pattern)
    requires dt.Valid() && DefaultsBelow(dt, p)
    ensures Strptime(Render(dt)[..p.Width()], p) == Some(dt)
  {
    var s := Render(dt);
    var w := p.Width();
    var t := s[..w];
    RenderFields(dt);
    LexesPrefix(s, w);
    assert Pow10(4) == 10000;
    assert t[..4] == s[..4];
    NumPad(dt.year, 4);
    FieldOfPrefix(s, w, 5, dt.month, 1);
    FieldOfPrefix(s, w, 8, dt.day, 1);
    FieldOfPrefix(s, w, 11, dt.hour, 0);
    FieldOfPrefix(s, w, 14, dt.minute, 0);
    FieldOfPrefix(s, w, 17, dt.second, 0);
  }

  lemma LexesPrefix(s: string, w: nat)
    requires Lexes(s) && w <= |s|
    ensures Lexes(s[..w])
  {
    assert forall k :: 0 <= k < w ==> s[..w][k] == s[k];
  }

  /** A prefix of a full-layout text reads the two-digit field at `at` if it reaches that far,
      and otherwise gives the default. */
  lemma FieldOfPrefix(s: string, w: nat, at: nat, v: nat, absent: int)
    requires Lexes(s) && |s| == 19 && w <= 19 && Lexes(s[..w])
    requires at == 5 || at == 8 || at == 11 || at == 14 || at == 17
    requires s[at..at + 2] == Pad(v, 2) && v < 100
    requires at + 2 > w ==> v == absent
    ensures Field(s[..w], at, absent) == v
  {
    if at + 2 <= w {
      var t := s[..w];
      assert t[at] == s[at] && t[at + 1] == s[at + 1];
      assert t[at..at + 2] == s[at..at + 2];
      assert Pow10(2) == 100;
      NumPad(v, 2);
    }
  }

  /** Parsing with the full layout and then rendering gives the text back. */
  lemma RenderStrptime(s: string, dt: DateTime)
    requires Strptime(s, Seconds) == Some(dt)
    ensures Render(dt) == s
  {
    FullFields(s);
    assert dt.year == Num(s[..4]) && dt.month == Num(s[5..7]) && dt.day == Num(s[8..10]);
    assert dt.hour == Num(s[11..13]) && dt.minute == Num(s[14..16]) && dt.second == Num(s[17..19]);
    PadNum(s[..4]);
    PadNum(s[5..7]);
    PadNum(s[8..10]);
    PadNum(s[11..13]);
    PadNum(s[14..16]);
    PadNum(s[17..19]);
  }

  /** A full-layout text is its six digit fields joined by the layout's separators. */
  lemma FullFields(s: string)
    requires |s| == 19 && Lexes(s)
    ensures AllDigits(s[..4]) && AllDigits(s[5..7]) && AllDigits(s[8..10])
    ensures AllDigits(s[11..13]) && AllDigits(s[14..16]) && AllDigits(s[17..19])
    ensures s == s[..4] + "-" + s[5..7] + "-" + s[8..10] + " " + s[11..13] + ":" + s[14..16] + ":" + s[17..19]
  {
    assert forall k :: 0 <= k < 4 ==> !IsSeparatorAt(k);
    assert s[4] == '-' && s[7] == '-' && s[10] == ' ' && s[13] == ':' && s[16] == ':';
  }

  lemma PadSmall()
    ensures Pad(0, 2) == "00" && Pad(1, 2) == "01"
  {
    assert Pad(0, 1) == "0";
    assert Pad(1, 1) == "1";
  }

  /** A full-layout text whose fields are those of `dt`, written out, is what `dt` renders to. */
  lemma RenderFromPieces(dt: DateTime, t: string)
    requires dt.Valid() && |t| == 19 && Lexes(t)
    requires Pad(dt.year, 4) == t[..4] && Pad(dt.month, 2) == t[5..7] && Pad(dt.day, 2) == t[8..10]
    requires Pad(dt.hour, 2) == t[11..13] && Pad(dt.minute, 2) == t[14..16] && Pad(dt.second, 2) == t[17..19]
    ensures Render(dt) == t
  {
    FullFields(t);
  }
}
