/**
 The "minutes:seconds" rendering that the library table model applies to the
 duration column. The source computes with C++ `int`, whose `/` and `%`
 truncate toward zero, and pads the seconds with `QString::arg(seconds, 2, 10,
 QChar('0'))`. Both are written out here; `ParseDuration` is the independent
 reading of a rendered duration that the rendering is proved against.
 */
module DurationFormat {
  import opened LibraryTypes
  import opened Decimal

  const SecondsPerMinute: int := 60

  /** C++ integer division: the quotient truncated toward zero. */
  function TruncDiv(a: int, b: int): int
    requires b > 0
  {
    if a >= 0 then a / b else -((-a) / b)
  }

  /**
   C++ integer remainder: what is left after truncating division. It has the
   sign of the dividend and is smaller than the divisor in magnitude.
   */
  function TruncRem(a: int, b: int): (r: int)
    requires b > 0
    ensures a == b * TruncDiv(a, b) + r
    ensures -b < r < b
    ensures a >= 0 ==> r >= 0
    ensures a <= 0 ==> r <= 0
  {
    a - b * TruncDiv(a, b)
  }

  /** On non-negative numbers C++ and Dafny division and remainder agree. */
  lemma TruncMatchesEuclidean(a: int, b: int)
    requires a >= 0 && b > 0
    ensures TruncDiv(a, b) == a / b
    ensures TruncRem(a, b) == a % b
  {
  }

  /**
   `QString::arg(n, width, 10, QChar('0'))`: the base-10 rendering of `n`,
   right-aligned in `width` characters by zeros placed after the sign. A
   rendering wider than `width` is not cut.
   */
  function ArgZeroPadded(n: int, width: nat): string {
    var digits := NatToString(if n < 0 then -n else n);
    var sign := if n < 0 then "-" else "";
    var room := width - |sign| - |digits|;
    sign + Zeros(if room > 0 then room else 0) + digits
  }

  /**
   The display text for a duration of `totalSeconds` seconds. For a
   non-negative duration it is the whole minutes, a colon and the remaining
   seconds zero-padded to two digits.
   */
  function FormatDuration(totalSeconds: int): (s: string)
    ensures totalSeconds >= 0 ==>
      s == NatToString(totalSeconds / 60) + ":" + ArgZeroPadded(totalSeconds % 60, 2)
  {
    var mins := TruncDiv(totalSeconds, SecondsPerMinute);
    var seconds := TruncRem(totalSeconds, SecondsPerMinute);
    IntToString(mins) + ":" + ArgZeroPadded(seconds, 2)
  }

  /**
   Reads a display text "M:SS" back into seconds: M canonical digits, a colon,
   and exactly two digits worth less than 60. Anything else reads as None.
   */
  function ParseDuration(s: string): Option<nat> {
    if |s| < 4 || s[|s| - 3] != ':' then None
    else
      var mins := s[..|s| - 3];
      var secs := s[|s| - 2..];
      if Canonical(mins) && AllDigits(secs) && ParseDigits(secs) < 60
      then Some(ParseDigits(mins) * 60 + ParseDigits(secs))
      else None
  }

  /** The seconds field of a non-negative duration: two digits, zero-padded, worth 0..59. */
  lemma {:induction false} SecondsField(seconds: int)
    requires 0 <= seconds < 60
    ensures |ArgZeroPadded(seconds, 2)| == 2
    ensures AllDigits(ArgZeroPadded(seconds, 2))
    ensures ParseDigits(ArgZeroPadded(seconds, 2)) == seconds
    ensures seconds < 10 <==> ArgZeroPadded(seconds, 2)[0] == '0'
  {
    var p := ArgZeroPadded(seconds, 2);
    ParseNatToString(seconds);
    if seconds < 10 {
      DigitRoundTrip(seconds, '0');
      assert p == "0" + NatToString(seconds);
      assert p[..1] == "0";
    } else {
      var d := NatToString(seconds);
      assert d == NatToString(seconds / 10) + [DigitChar(seconds % 10)];
      assert p == d;
      assert p[0] == DigitChar(seconds / 10);
    }
  }

  /**
   For a non-negative duration `d` the text is the minutes `d / 60`, a colon,
   and the seconds `d % 60` as two zero-padded digits; minutes and seconds
   recombine to `d`.
   */
  lemma {:induction false} DurationShape(d: int)
    requires d >= 0
    ensures var s := FormatDuration(d);
      && |s| >= 4
      && s == NatToString(d / 60) + ":" + ArgZeroPadded(d % 60, 2)
      && s[..|s| - 3] == NatToString(d / 60)
      && s[|s| - 3] == ':'
      && |s[|s| - 2..]| == 2 && AllDigits(s[|s| - 2..])
      && ParseDigits(s[|s| - 2..]) == d % 60 < 60
      && (d / 60) * 60 + d % 60 == d
  {
    TruncMatchesEuclidean(d, 60);
    SecondsField(d % 60);
    var s := FormatDuration(d);
    var m := NatToString(d / 60);
    var p := ArgZeroPadded(d % 60, 2);
    assert s == m + ":" + p;
    assert s[..|s| - 3] == m;
    assert s[|s| - 2..] == p;
  }

  /** A non-negative duration reads back from its display text. */
  lemma FormatParseRoundTrip(d: int)
    requires d >= 0
    ensures ParseDuration(FormatDuration(d)) == Some(d)
  {
    DurationShape(d);
    ParseNatToString(d / 60);
  }

  /** Every text that reads as a duration is exactly the display text of that duration. */
  lemma ParseFormatRoundTrip(s: string)
    requires ParseDuration(s).Some?
    ensures FormatDuration(ParseDuration(s).value) == s
  {
    var d := ParseDuration(s).value;
    var mins := s[..|s| - 3];
    var secs := s[|s| - 2..];
    var m := ParseDigits(mins);
    var sec := ParseDigits(secs);
    assert d / 60 == m && d % 60 == sec;
    DurationShape(d);
    NatToStringParse(mins);
    var t := FormatDuration(d);
    assert t[..|t| - 3] == mins;
    assert |t| == |s|;
    var p := ArgZeroPadded(sec, 2);
    assert t[|t| - 2..] == p;
    assert p == secs by {
      SecondsField(sec);
      assert AllDigits(secs) && |secs| == 2;
      TwoDigitsDetermined(p, secs);
    }
    assert t == t[..|t| - 3] + [':'] + t[|t| - 2..];
    assert s == s[..|s| - 3] + [':'] + s[|s| - 2..];
  }

  /** Two two-digit strings with the same value are the same string. */
  lemma TwoDigitsDetermined(a: string, b: string)
    requires |a| == 2 && |b| == 2 && AllDigits(a) && AllDigits(b)
    requires ParseDigits(a) == ParseDigits(b)
    ensures a == b
  {
    assert ParseDigits(a) == 10 * DigitValue(a[0]) + DigitValue(a[1]) by {
      assert ParseDigits(a[..1][..0]) == 0;
      assert ParseDigits(a[..1]) == DigitValue(a[0]);
    }
    assert ParseDigits(b) == 10 * DigitValue(b[0]) + DigitValue(b[1]) by {
      assert ParseDigits(b[..1][..0]) == 0;
      assert ParseDigits(b[..1]) == DigitValue(b[0]);
    }
    DigitRoundTrip(0, a[0]);
    DigitRoundTrip(0, a[1]);
    DigitRoundTrip(0, b[0]);
    DigitRoundTrip(0, b[1]);
  }

  /**
   Negative durations render the way the C++ arithmetic makes them: each
   non-zero field carries the sign, and a negative seconds field is not
   zero-padded because the sign already fills the second position.
   */
  lemma NegativeDurationRendering()
    ensures FormatDuration(-5) == "0:-5"
    ensures FormatDuration(-65) == "-1:-5"
    ensures FormatDuration(-600) == "-10:00"
    ensures ParseDuration(FormatDuration(-65)) == None
  {
    assert NatToString(5) == "5";
    assert NatToString(1) == "1";
    assert NatToString(0) == "0";
    assert NatToString(10) == "10" by { assert NatToString(1) == "1"; }
    assert Zeros(2) == "00";
  }

  /**
   No negative duration renders as a well-formed "M:SS" text: either the
   seconds field carries a minus sign, or the seconds are zero and the
   minutes are negative.
   */
  lemma NegativeDurationNeverReadsBack(d: int)
    requires d < 0
    ensures ParseDuration(FormatDuration(d)) == None
  {
    var q := TruncDiv(d, 60);
    var r := TruncRem(d, 60);
    var m := IntToString(q);
    var p := ArgZeroPadded(r, 2);
    var s := FormatDuration(d);
    assert s == m + ":" + p;
    if r < 0 {
      var digits := NatToString(-r);
      assert p == "-" + digits;
      if -r < 10 {
        // "...:-D": the second-to-last character is the sign, not a digit.
        assert |p| == 2;
        assert s[|s| - 2] == '-';
        assert !AllDigits(s[|s| - 2..]) by {
          assert s[|s| - 2..][0] == '-';
        }
      } else {
        // "...:-DD": the colon is not three characters from the end.
        assert |p| == 3;
        assert s[|s| - 3] == '-';
      }
    } else {
      // Zero seconds: a negative whole number of minutes, rendered with its sign.
      assert r == 0 && q < 0;
      assert p == "00";
      assert m[0] == '-';
      assert s[..|s| - 3] == m;
      assert !Canonical(s[..|s| - 3]) by {
        assert !IsDigit(m[0]);
      }
    }
  }
}
