/**
 * Decimal rendering of natural numbers and the two display formatters of
 * the cooking plan (`fmtMMSS` for the elapsed clock and the timers,
 * `fmtDuration` for step durations), plus the numbered labels ("t4", "p3")
 * the timer bank and the people list build their ids from.
 */
module Text {
  import opened Common

  predicate IsDigit(c: char) {
    '0' <= c <= '9'
  }

  predicate AllDigits(s: string) {
    forall i :: 0 <= i < |s| ==> IsDigit(s[i])
  }

  function DigitChar(d: nat): (c: char)
    requires d < 10
    ensures IsDigit(c)
  {
    (48 + d) as char
  }

  function DigitValue(c: char): (d: nat)
    requires IsDigit(c)
    ensures d < 10 && DigitChar(d) == c
  {
    c as int - 48
  }

  /** `n.toString()` for a natural number: its decimal digits, no leading zero. */
  function Dec(n: nat): (s: string)
    decreases n
  {
    if n < 10 then [DigitChar(n)] else Dec(n / 10) + [DigitChar(n % 10)]
  }

  /** The value of a string of decimal digits (leading zeros allowed). */
  function ParseDec(s: string): nat
    requires AllDigits(s)
    decreases |s|
  {
    if s == [] then 0 else ParseDec(s[..|s| - 1]) * 10 + DigitValue(s[|s| - 1])
  }

  /** Dec produces a non-empty digit string without a leading zero. */
  lemma {:induction false} DecIsCanonical(n: nat)
    ensures |Dec(n)| >= 1 && AllDigits(Dec(n))
    ensures |Dec(n)| > 1 ==> Dec(n)[0] != '0'
    ensures n < 10 <==> |Dec(n)| == 1
    decreases n
  {
    if n >= 10 {
      DecIsCanonical(n / 10);
      assert Dec(n)[0] == Dec(n / 10)[0];
    }
  }

  /** Reading back what Dec wrote gives the number again. */
  lemma {:induction false} ParseDecOfDec(n: nat)
    ensures AllDigits(Dec(n)) && ParseDec(Dec(n)) == n
    decreases n
  {
    DecIsCanonical(n);
    if n >= 10 {
      ParseDecOfDec(n / 10);
      var s := Dec(n);
      assert s[..|s| - 1] == Dec(n / 10);
    }
  }

  /** Distinct numbers are rendered as distinct strings. */
  lemma DecInjective(a: nat, b: nat)
    ensures Dec(a) == Dec(b) ==> a == b
  {
    ParseDecOfDec(a);
    ParseDecOfDec(b);
  }

  /** A digit string never contains a non-digit such as ':', 'h' or ' '. */
  lemma DigitsExclude(s: string, c: char)
    requires AllDigits(s) && !IsDigit(c)
    ensures c !in s
  {
  }

  /** `padStart(2, "0")`. */
  function PadTwo(s: string): (r: string)
    ensures |s| >= 2 ==> r == s
    ensures |s| < 2 ==> |r| == 2 && r[2 - |s|..] == s && forall i :: 0 <= i < 2 - |s| ==> r[i] == '0'
  {
    if |s| >= 2 then s else seq(2 - |s|, _ => '0') + s
  }

  /** `fmtMMSS`: whole seconds (clamped at zero) as minutes, ':' and two-digit seconds. */
  function FmtMMSS(totalSeconds: real): (r: string)
    ensures |r| >= 4 && r[|r| - 3] == ':' && AllDigits(r[|r| - 2..])
  {
    var sec := ShownSeconds(totalSeconds);
    DecIsCanonical(sec / 60);
    TwoDigitSeconds(sec % 60);
    var ss := PadTwo(Dec(sec % 60));
    var r := Dec(sec / 60) + ":" + ss;
    assert r[|r| - 2..] == ss;
    r
  }

  /** The number of whole seconds `fmtMMSS` displays. */
  function ShownSeconds(totalSeconds: real): nat {
    Max(0, totalSeconds.Floor)
  }

  lemma {:induction false} TwoDigitSeconds(ss: nat)
    requires ss < 60
    ensures |PadTwo(Dec(ss))| == 2 && AllDigits(PadTwo(Dec(ss)))
    ensures ParseDec(PadTwo(Dec(ss))) == ss
  {
    ParseDecOfDec(ss);
    DecIsCanonical(ss);
    var p := PadTwo(Dec(ss));
    if ss < 10 {
      assert p == ['0', DigitChar(ss)];
      assert p[..1] == ['0'];
      assert ParseDec(p[..1]) == 0 by {
        assert p[..1][..0] == [];
      }
    } else {
      assert p == Dec(ss);
    }
  }

  lemma FmtMMSSParts(totalSeconds: real)
    ensures var sec := ShownSeconds(totalSeconds);
      FmtMMSS(totalSeconds) == Dec(sec / 60) + ":" + PadTwo(Dec(sec % 60))
  {
  }

  /**
   * The clock text reads back as the displayed number of seconds: a minutes
   * field, one ':', and exactly two digits of seconds below 60.
   */
  lemma FmtMMSSReadsBack(totalSeconds: real)
    ensures var r := FmtMMSS(totalSeconds);
      exists k :: 0 <= k < |r| && r[k] == ':' && ':' !in r[..k] && ':' !in r[k + 1..]
        && AllDigits(r[..k]) && AllDigits(r[k + 1..]) && |r[k + 1..]| == 2
        && ParseDec(r[k + 1..]) < 60
        && ParseDec(r[..k]) * 60 + ParseDec(r[k + 1..]) == ShownSeconds(totalSeconds)
  {
    var sec := ShownSeconds(totalSeconds);
    var mm := Dec(sec / 60);
    var ss := PadTwo(Dec(sec % 60));
    FmtMMSSParts(totalSeconds);
    ParseDecOfDec(sec / 60);
    TwoDigitSeconds(sec % 60);
    ColonSplit(mm, ss);
  }

  /** Two digit strings joined by ':' split back at the only ':'. */
  lemma ColonSplit(mm: string, ss: string)
    requires AllDigits(mm) && AllDigits(ss)
    ensures var r := mm + ":" + ss; var k := |mm|;
      k < |r| && r[k] == ':' && r[..k] == mm && r[k + 1..] == ss && ':' !in mm && ':' !in ss
  {
    DigitsExclude(mm, ':');
    DigitsExclude(ss, ':');
    var r := mm + ":" + ss;
    assert r[..|mm|] == mm;
    assert r[|mm| + 1..] == ss;
  }

  /** `Math.round` as JavaScript defines it: halves round towards +infinity. */
  function Round(x: real): int {
    (x + 0.5).Floor
  }

  /** The whole number of minutes `fmtDuration` displays. */
  function ShownMinutes(mins: real): nat {
    Max(0, Round(mins))
  }

  /** `fmtDuration`: "45 min", "1h" or "1h 5m". */
  function FmtDuration(mins: real): (r: string)
    ensures |r| >= 2 && IsDigit(r[0])
  {
    var m := ShownMinutes(mins);
    DecIsCanonical(m);
    DecIsCanonical(m / 60);
    if m < 60 then Dec(m) + " min"
    else
      var h := m / 60;
      var rem := m % 60;
      if rem == 0 then Dec(h) + "h" else Dec(h) + "h " + Dec(rem) + "m"
  }

  /** The length of the run of digits that starts `s`. */
  function DigitRun(s: string): (n: nat)
    ensures n <= |s|
  {
    if s == [] || !IsDigit(s[0]) then 0 else 1 + DigitRun(s[1..])
  }

  lemma {:induction false} DigitRunOfConcat(u: string, x: string)
    requires AllDigits(u)
    requires |x| > 0 && !IsDigit(x[0])
    ensures DigitRun(u + x) == |u|
    decreases |u|
  {
    if u != [] {
      assert (u + x)[1..] == u[1..] + x;
      DigitRunOfConcat(u[1..], x);
    }
  }

  /** When `u + x == v + y` and `u`, `v` are digit strings followed by a non-digit, the parts agree. */
  lemma SplitAtNonDigit(u: string, x: string, v: string, y: string)
    requires AllDigits(u) && AllDigits(v)
    requires |x| > 0 && |y| > 0 && !IsDigit(x[0]) && !IsDigit(y[0])
    requires u + x == v + y
    ensures u == v && x == y
  {
    DigitRunOfConcat(u, x);
    DigitRunOfConcat(v, y);
    assert u == (u + x)[..|u|];
    assert v == (v + y)[..|v|];
    assert x == (u + x)[|u|..];
    assert y == (v + y)[|v|..];
  }

  /** A number's digits followed by a text that starts with a non-digit: the digit run is the number. */
  lemma DecThen(n: nat, x: string)
    requires |x| > 0 && !IsDigit(x[0])
    ensures var r := Dec(n) + x; var k := DigitRun(r);
      0 < k == |Dec(n)| && AllDigits(r[..k]) && ParseDec(r[..k]) == n && r[k..] == x
  {
    DecIsCanonical(n);
    ParseDecOfDec(n);
    DigitRunOfConcat(Dec(n), x);
    var r := Dec(n) + x;
    assert r[..|Dec(n)|] == Dec(n);
  }

  /** The text "<h>h <m>m": after the hours and "h ", the minutes' digits and a final 'm'. */
  lemma HoursMinutesShape(h: nat, rem: nat)
    ensures var r := Dec(h) + "h " + Dec(rem) + "m"; var k := DigitRun(r);
      0 < k && k + 3 < |r| && AllDigits(r[..k]) && ParseDec(r[..k]) == h
      && r[k..k + 2] == "h " && r[|r| - 1] == 'm'
      && AllDigits(r[k + 2..|r| - 1]) && ParseDec(r[k + 2..|r| - 1]) == rem
  {
    var d, e := Dec(h), Dec(rem);
    var tail := e + "m";
    var r := d + "h " + e + "m";
    assert r == d + ("h " + tail) by {
      Regroup(d, "h ", e, "m");
    }
    DecThen(h, "h " + tail);
    MiddleOfTail(r, |d|, tail);
    assert tail[..|tail| - 1] == e;
    DecIsCanonical(rem);
    ParseDecOfDec(rem);
  }

  /** When `r[k..]` is "h " followed by `tail`, the slice of `r` after "h " without its last character is `tail` without its last. */
  lemma MiddleOfTail(r: string, k: nat, tail: string)
    requires k <= |r| && |tail| > 0 && r[k..] == "h " + tail
    ensures k + 2 + |tail| == |r| && r[k..k + 2] == "h "
    ensures r[k + 2..|r| - 1] == tail[..|tail| - 1]
  {
    assert r[k..k + 2] == r[k..][..2];
    forall i | 0 <= i < |tail| - 1
      ensures r[k + 2..|r| - 1][i] == tail[i]
    {
      assert r[k + 2 + i] == r[k..][2 + i];
    }
  }

  /**
   * The duration text is a run of digits followed by " min" (the rounded
   * minutes, under an hour), by "h" (whole hours), or by "h ", the digits of
   * the remaining minutes and 'm'.
   */
  lemma DurationShape(mins: real)
    ensures var r := FmtDuration(mins); var m := ShownMinutes(mins); var k := DigitRun(r);
      0 < k && AllDigits(r[..k]) &&
      if m < 60 then r[k..] == " min" && ParseDec(r[..k]) == m
      else (
        if m % 60 == 0 then r[k..] == "h" && ParseDec(r[..k]) == m / 60
        else (k + 3 < |r| && r[k..k + 2] == "h " && r[|r| - 1] == 'm'
              && ParseDec(r[..k]) == m / 60
              && AllDigits(r[k + 2..|r| - 1]) && ParseDec(r[k + 2..|r| - 1]) == m % 60))
  {
    var m := ShownMinutes(mins);
    if m < 60 {
      DecThen(m, " min");
    } else if m % 60 == 0 {
      DecThen(m / 60, "h");
    } else {
      HoursMinutesShape(m / 60, m % 60);
      DecThen(m / 60, "h " + Dec(m % 60) + "m");
      Regroup(Dec(m / 60), "h ", Dec(m % 60), "m");
    }
  }

  lemma ShortDurationInjective(a: real, b: real)
    requires ShownMinutes(a) < 60 && ShownMinutes(b) < 60
    requires FmtDuration(a) == FmtDuration(b)
    ensures ShownMinutes(a) == ShownMinutes(b)
  {
    var m, n := ShownMinutes(a), ShownMinutes(b);
    DecIsCanonical(m);
    DecIsCanonical(n);
    SplitAtNonDigit(Dec(m), " min", Dec(n), " min");
    DecInjective(m, n);
  }

  lemma WholeHoursInjective(a: real, b: real)
    requires ShownMinutes(a) >= 60 && ShownMinutes(b) >= 60
    requires ShownMinutes(a) % 60 == 0 && ShownMinutes(b) % 60 == 0
    requires FmtDuration(a) == FmtDuration(b)
    ensures ShownMinutes(a) == ShownMinutes(b)
  {
    var m, n := ShownMinutes(a), ShownMinutes(b);
    DecIsCanonical(m / 60);
    DecIsCanonical(n / 60);
    SplitAtNonDigit(Dec(m / 60), "h", Dec(n / 60), "h");
    DecInjective(m / 60, n / 60);
  }

  lemma HoursAndMinutesInjective(a: real, b: real)
    requires ShownMinutes(a) >= 60 && ShownMinutes(b) >= 60
    requires ShownMinutes(a) % 60 != 0 && ShownMinutes(b) % 60 != 0
    requires FmtDuration(a) == FmtDuration(b)
    ensures ShownMinutes(a) == ShownMinutes(b)
  {
    var m, n := ShownMinutes(a), ShownMinutes(b);
    HoursMinutesTextInjective(m / 60, m % 60, n / 60, n % 60);
  }

  /** The text "<h>h <m>m" determines both numbers. */
  lemma HoursMinutesTextInjective(h: nat, r: nat, h': nat, r': nat)
    requires Dec(h) + "h " + Dec(r) + "m" == Dec(h') + "h " + Dec(r') + "m"
    ensures h == h' && r == r'
  {
    var tail, tail' := Dec(r) + "m", Dec(r') + "m";
    Regroup(Dec(h), "h ", Dec(r), "m");
    Regroup(Dec(h'), "h ", Dec(r'), "m");
    DecThenNonDigit(h, "h " + tail, h', "h " + tail');
    DropPrefix("h ", tail);
    DropPrefix("h ", tail');
    DecThenNonDigit(r, "m", r', "m");
  }

  lemma Regroup(a: string, b: string, c: string, d: string)
    ensures a + b + c + d == a + (b + (c + d))
  {
  }

  lemma DropPrefix(p: string, t: string)
    ensures (p + t)[|p|..] == t
  {
  }

  /** A number's digits followed by a non-digit: the text determines the number and the rest. */
  lemma DecThenNonDigit(n: nat, x: string, n': nat, x': string)
    requires |x| > 0 && |x'| > 0 && !IsDigit(x[0]) && !IsDigit(x'[0])
    requires Dec(n) + x == Dec(n') + x'
    ensures n == n' && x == x'
  {
    DecIsCanonical(n);
    DecIsCanonical(n');
    SplitAtNonDigit(Dec(n), x, Dec(n'), x');
    DecInjective(n, n');
  }

  /** Two durations that display the same text round to the same number of minutes. */
  lemma FmtDurationInjective(a: real, b: real)
    ensures FmtDuration(a) == FmtDuration(b) ==> ShownMinutes(a) == ShownMinutes(b)
  {
    var m, n := ShownMinutes(a), ShownMinutes(b);
    if FmtDuration(a) == FmtDuration(b) {
      DurationShape(a);
      DurationShape(b);
      if m < 60 {
        ShortDurationInjective(a, b);
      } else if m % 60 == 0 {
        WholeHoursInjective(a, b);
      } else {
        HoursAndMinutesInjective(a, b);
      }
    }
  }

  /** The numeric part of a label `prefix` + digits, or 0 when the label has another shape. */
  function LabelNumber(prefix: char, id: string): nat {
    if |id| >= 2 && id[0] == prefix && AllDigits(id[1..]) then ParseDec(id[1..]) else 0
  }

  /** The largest label number among `labels`. */
  function MaxLabelNumber(prefix: char, labels: seq<string>): (m: nat)
    ensures forall i :: 0 <= i < |labels| ==> LabelNumber(prefix, labels[i]) <= m
  {
    if labels == [] then 0
    else
      var rest := MaxLabelNumber(prefix, labels[1..]);
      assert forall i :: 1 <= i < |labels| ==> labels[i] == labels[1..][i - 1];
      Max(LabelNumber(prefix, labels[0]), rest)
  }

  /** The label `prefix` followed by the decimal digits of `n`. */
  function Label(prefix: char, n: nat): string {
    [prefix] + Dec(n)
  }

  /** A label above every numbered label in use, so it differs from all of them. */
  function FreshLabel(prefix: char, labels: seq<string>): (l: string)
    ensures l !in labels
  {
    var n := MaxLabelNumber(prefix, labels) + 1;
    var l := Label(prefix, n);
    ParseDecOfDec(n);
    DecIsCanonical(n);
    assert l[1..] == Dec(n);
    assert LabelNumber(prefix, l) == n;
    l
  }
}
