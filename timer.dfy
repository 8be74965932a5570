/**
 The countdown text the typing test writes into its timer element:
 the whole minutes, a colon, then the seconds padded to two digits.
 */
module Timer {
  import opened JsText

  datatype Option<T> = None | Some(value: T)

  /** `${Math.floor(t / 60)}:${String(t % 60).padStart(2, '0')}`. */
  function TimerText(t: int): (text: string)
    ensures t >= 0 ==> |text| >= 4 && text[|text| - 3] == ':' && AllDigits(text[..|text| - 3])
    ensures t < 0 ==> |text| >= 2 && text[0] == '-'
  {
    IntToString(FloorDiv(t, 60)) + ":" + PadStart(IntToString(JsRemainder(t, 60)), 2, '0')
  }

  /** Reads an `m:ss` text back: digits for the minutes, a colon, and two
      digits for fewer than sixty seconds. */
  function ParseTimer(s: string): (r: Option<nat>)
    ensures r.Some? ==> |s| >= 4 && s[|s| - 3] == ':'
  {
    if |s| < 4 || s[|s| - 3] != ':' then None else ParseFields(s[..|s| - 3], s[|s| - 2..])
  }

  /** The time a minutes field and a seconds field denote, if they are well formed. */
  function ParseFields(minutes: string, seconds: string): Option<nat>
  {
    if AllDigits(minutes) && AllDigits(seconds) && DigitsValue(seconds) < 60
    then Some(DigitsValue(minutes) * 60 + DigitsValue(seconds))
    else None
  }

  /** A leading zero does not change the value of a digit string. */
  lemma {:induction false} DigitsValueLeadingZero(x: string)
    requires forall i :: 0 <= i < |x| ==> IsDigit(x[i])
    ensures DigitsValue(['0'] + x) == DigitsValue(x)
    decreases |x|
  {
    if |x| > 0 {
      var y := ['0'] + x;
      assert y[..|y| - 1] == ['0'] + x[..|x| - 1];
      DigitsValueLeadingZero(x[..|x| - 1]);
    }
  }

  /** For a non-negative time the seconds field is exactly two digits. */
  lemma SecondsField(t: nat)
    ensures var p := PadStart(NatToString(t % 60), 2, '0');
            |p| == 2 && AllDigits(p) && DigitsValue(p) == t % 60
  {
    var n := NatToString(t % 60);
    var p := PadStart(n, 2, '0');
    DigitsValueOfNatToString(t % 60);
    if |n| == 1 {
      assert p == ['0'] + n;
      DigitsValueLeadingZero(n);
    } else {
      assert p == n;
    }
  }

  /** What `ParseTimer` reads from a minutes field, a colon and a seconds field. */
  lemma ParseTimerParts(m: string, p: string, t: nat)
    requires |m| >= 1 && AllDigits(m)
    requires |p| == 2 && AllDigits(p) && DigitsValue(p) < 60
    requires DigitsValue(m) * 60 + DigitsValue(p) == t
    ensures ParseTimer(m + ":" + p) == Some(t)
  {
    var s := m + ":" + p;
    assert s[..|s| - 3] == m;
    assert s[|s| - 2..] == p;
    assert ParseFields(m, p) == Some(t);
  }

  /** For a non-negative time the text is the minutes, a colon and the
      zero-padded seconds. */
  lemma TimerTextOfNat(t: nat)
    ensures TimerText(t) == NatToString(t / 60) + ":" + PadStart(NatToString(t % 60), 2, '0')
  {
    assert FloorDiv(t, 60) == t / 60;
    assert JsRemainder(t, 60) == t % 60;
  }

  /** Reading the text back gives the time it was written from, so no two
      non-negative times share a text. */
  lemma ParseTimerText(t: nat)
    ensures ParseTimer(TimerText(t)) == Some(t)
  {
    var m := NatToString(t / 60);
    var p := PadStart(NatToString(t % 60), 2, '0');
    TimerTextOfNat(t);
    SecondsField(t);
    DigitsValueOfNatToString(t / 60);
    ParseTimerParts(m, p, t);
  }

  lemma TimerTextInjective(a: nat, b: nat)
    requires TimerText(a) == TimerText(b)
    ensures a == b
  {
    ParseTimerText(a);
    ParseTimerText(b);
  }

  /** The default sixty-second test shows "1:00". */
  lemma TimerTextOfOneMinute()
    ensures TimerText(60) == "1:00"
  {
    assert NatToString(1) == "1";
    assert NatToString(0) == "0";
  }

  /** A tick past zero shows the JavaScript rendering of the negative
      quotient and remainder. */
  lemma TimerTextBelowZero()
    ensures TimerText(-1) == "-1:-1"
  {
    assert NatToString(1) == "1";
  }
}
