/** The `MM:SS` rendering used by the focus timer (`formatTimeFromSeconds`),
    together with an inverse parser so that the rendering can be shown
    lossless. */
module ClockFormat {
  import opened Types

  predicate IsDigit(c: char) {
    '0' <= c <= '9'
  }

  predicate AllDigits(s: string) {
    forall i :: 0 <= i < |s| ==> IsDigit(s[i])
  }

  function DigitValue(c: char): (d: nat)
    requires IsDigit(c)
    ensures d < 10
  {
    (c as int) - ('0' as int)
  }

  function DigitChar(d: nat): (c: char)
    requires d < 10
    ensures IsDigit(c) && DigitValue(c) == d
  {
    (('0' as int) + d) as char
  }

  lemma DigitCharOfValue(c: char)
    requires IsDigit(c)
    ensures DigitChar(DigitValue(c)) == c
  {
  }

  /** JavaScript's `String(n)` for a non-negative integer below 10^21 (larger
      ones switch to exponent notation there): its decimal digits, most
      significant first, with no leading zero. */
  function Decimal(n: nat): (s: string)
    ensures 1 <= |s| && AllDigits(s)
    ensures |s| == 1 <==> n < 10
    ensures |s| <= 2 <==> n < 100
    ensures |s| > 1 ==> s[0] != '0'
    decreases n
  {
    if n < 10 then [DigitChar(n)] else Decimal(n / 10) + [DigitChar(n % 10)]
  }

  /** The value of a string of decimal digits (the empty string reads as 0). */
  function ParseDecimal(s: string): nat
    requires AllDigits(s)
    decreases |s|
  {
    if s == [] then 0 else ParseDecimal(s[..|s| - 1]) * 10 + DigitValue(s[|s| - 1])
  }

  lemma {:induction false} ParseDecimalOfDecimal(n: nat)
    ensures ParseDecimal(Decimal(n)) == n
    decreases n
  {
    if n >= 10 {
      var s := Decimal(n);
      assert s[..|s| - 1] == Decimal(n / 10);
      ParseDecimalOfDecimal(n / 10);
    }
  }

  /** A leading zero does not change the value of a digit string. */
  lemma {:induction false} ParseDecimalLeadingZero(s: string)
    requires AllDigits(s)
    ensures ParseDecimal("0" + s) == ParseDecimal(s)
    decreases |s|
  {
    if s != [] {
      var t := "0" + s;
      assert t[..|t| - 1] == "0" + s[..|s| - 1];
      ParseDecimalLeadingZero(s[..|s| - 1]);
    }
  }

  /** `s.padStart(2, '0')`: strings shorter than two characters get leading
      zeros up to length two; longer ones are returned unchanged. */
  function PadStart2(s: string): (r: string)
    ensures |r| == if |s| >= 2 then |s| else 2
    ensures r[|r| - |s|..] == s
    ensures forall i :: 0 <= i < |r| - |s| ==> r[i] == '0'
  {
    if |s| >= 2 then s else if |s| == 1 then "0" + s else "00"
  }

  /** Zero-padding a decimal rendering keeps it a digit string of the same value. */
  lemma PaddedDecimal(n: nat)
    ensures AllDigits(PadStart2(Decimal(n)))
    ensures ParseDecimal(PadStart2(Decimal(n))) == n
    ensures n < 100 ==> |PadStart2(Decimal(n))| == 2
  {
    ParseDecimalOfDecimal(n);
    if n < 10 {
      assert PadStart2(Decimal(n)) == "0" + Decimal(n);
      ParseDecimalLeadingZero(Decimal(n));
    }
  }

  /** `formatTimeFromSeconds`: whole minutes, a colon, then the seconds within
      the minute, each padded to at least two digits. */
  function FormatTime(totalSeconds: nat): (r: string)
    ensures |r| >= 5 && r[|r| - 3] == ':'
    ensures AllDigits(r[..|r| - 3]) && AllDigits(r[|r| - 2..])
    ensures totalSeconds < 6000 <==> |r| == 5
  {
    var m, s := totalSeconds / 60, totalSeconds % 60;
    MinutesBelowHundred(totalSeconds);
    var mm := PadStart2(Decimal(m));
    var ss := PadStart2(Decimal(s));
    PaddedDecimal(m);
    PaddedDecimal(s);
    assert |ss| == 2;
    assert |mm| == 2 <==> m < 100;
    var r := mm + ":" + ss;
    assert r[..|r| - 3] == mm && r[|r| - 2..] == ss;
    r
  }

  lemma MinutesBelowHundred(totalSeconds: nat)
    ensures totalSeconds / 60 < 100 <==> totalSeconds < 6000
    ensures totalSeconds % 60 < 60
  {
  }

  /** Reads a clock string back: at least two minute digits, a colon, then
      exactly two second digits worth less than 60. Anything else is `None`. */
  function ParseClock(t: string): Option<nat>
  {
    if |t| >= 5 && t[|t| - 3] == ':' && AllDigits(t[..|t| - 3]) && AllDigits(t[|t| - 2..])
       && ParseDecimal(t[|t| - 2..]) < 60
    then Some(ParseDecimal(t[..|t| - 3]) * 60 + ParseDecimal(t[|t| - 2..]))
    else None
  }

  /** The clock rendering loses nothing: parsing it gives back the seconds. */
  lemma FormatTimeRoundTrip(totalSeconds: nat)
    ensures ParseClock(FormatTime(totalSeconds)) == Some(totalSeconds)
  {
    var m, s := totalSeconds / 60, totalSeconds % 60;
    var mm, ss := PadStart2(Decimal(m)), PadStart2(Decimal(s));
    assert FormatTime(totalSeconds) == mm + ":" + ss by {
      FormatTimeParts(totalSeconds);
    }
    assert ParseClock(mm + ":" + ss) == Some(m * 60 + s) by {
      PaddedDecimal(m);
      PaddedDecimal(s);
      ParseClockOfFields(mm, ss);
    }
  }


  /** Parsing a minute field, a colon and a two-digit seconds field. */
  lemma ParseClockOfFields(mm: string, ss: string)
    requires |mm| >= 2 && AllDigits(mm) && |ss| == 2 && AllDigits(ss) && ParseDecimal(ss) < 60
    ensures ParseClock(mm + ":" + ss) == Some(ParseDecimal(mm) * 60 + ParseDecimal(ss))
  {
    var r := mm + ":" + ss;
    assert |r| == |mm| + 3 && r[|r| - 3] == ':';
    assert r[..|r| - 3] == mm;
    assert r[|r| - 2..] == ss;
  }



  /** Below 100 minutes the rendering is exactly `MM:SS`: five characters,
      the colon at index 2, and a seconds field below 60. */
  lemma FormatTimeShape(totalSeconds: nat)
    requires totalSeconds < 6000
    ensures |FormatTime(totalSeconds)| == 5 && FormatTime(totalSeconds)[2] == ':'
    ensures AllDigits(FormatTime(totalSeconds)[..2]) && AllDigits(FormatTime(totalSeconds)[3..])
    ensures ParseDecimal(FormatTime(totalSeconds)[..2]) * 60
              + ParseDecimal(FormatTime(totalSeconds)[3..]) == totalSeconds
    ensures ParseDecimal(FormatTime(totalSeconds)[3..]) < 60
  {
    FormatTimeRoundTrip(totalSeconds);
  }

  lemma DivModSixty(m: nat, s: nat)
    requires s < 60
    ensures (m * 60 + s) / 60 == m && (m * 60 + s) % 60 == s
    ensures m < 100 ==> m * 60 + s < 6000
  {
  }

  /** A two-digit string is the padded decimal rendering of its own value. */
  lemma {:induction false} PaddedDecimalOfTwoDigits(t: string)
    requires |t| == 2 && AllDigits(t)
    ensures ParseDecimal(t) < 100
    ensures PadStart2(Decimal(ParseDecimal(t))) == t
  {
    var a, b := DigitValue(t[0]), DigitValue(t[1]);
    assert t[..|t| - 1] == t[..1];
    assert t[..1][..0] == [] && t[..1][0] == t[0];
    assert ParseDecimal(t[..1]) == a;
    assert ParseDecimal(t) == a * 10 + b;
    DigitCharOfValue(t[0]);
    DigitCharOfValue(t[1]);
    if a == 0 {
      assert Decimal(b) == [t[1]];
    } else {
      var n := a * 10 + b;
      assert n / 10 == a && n % 10 == b;
      assert Decimal(n) == Decimal(a) + [DigitChar(b)];
    }
  }

  /** Conversely, every five-character string the parser accepts is the
      rendering of the value it parses to, so `FormatTime` is a bijection
      between [0, 6000) and the accepted `MM:SS` strings. */
  lemma ParseClockThenFormat(t: string)
    requires |t| == 5 && ParseClock(t).Some?
    ensures ParseClock(t).value < 6000
    ensures FormatTime(ParseClock(t).value) == t
  {
    var mm, ss := t[..2], t[3..];
    assert t[..|t| - 3] == mm && t[|t| - 2..] == ss;
    assert t == mm + ":" + ss;
    FormatOfClockFields(mm, ss);
  }

  /** Two-digit minute and second fields are rendered back as themselves. */
  lemma FormatOfClockFields(mm: string, ss: string)
    requires |mm| == 2 && |ss| == 2 && AllDigits(mm) && AllDigits(ss) && ParseDecimal(ss) < 60
    ensures ParseDecimal(mm) * 60 + ParseDecimal(ss) < 6000
    ensures FormatTime(ParseDecimal(mm) * 60 + ParseDecimal(ss)) == mm + ":" + ss
  {
    PaddedDecimalOfTwoDigits(mm);
    PaddedDecimalOfTwoDigits(ss);
    FormatOfParts(ParseDecimal(mm), ParseDecimal(ss));
  }

  /** The rendering of `m` minutes and `s` seconds, `s` below 60. */
  lemma FormatOfParts(m: nat, s: nat)
    requires m < 100 && s < 60
    ensures m * 60 + s < 6000
    ensures FormatTime(m * 60 + s) == PadStart2(Decimal(m)) + ":" + PadStart2(Decimal(s))
  {
    DivModSixty(m, s);
    FormatTimeParts(m * 60 + s);
  }

  /** Unfolds the rendering into its minute and second fields. */
  lemma FormatTimeParts(totalSeconds: nat)
    ensures FormatTime(totalSeconds)
              == PadStart2(Decimal(totalSeconds / 60)) + ":" + PadStart2(Decimal(totalSeconds % 60))
  {
  }
}
