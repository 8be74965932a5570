/**
 The end-of-test statistics: the number of typed characters that differ from
 the reference at the same position, the accuracy, and the words per minute.
 */
module Scoring {

  /** `CHARS_IN_WORD`: a "word" for the words-per-minute figure is five characters. */
  const CharsInWord := 5

  /** Typed character `i` counts as an error when the reference has no
      character there (`charactersToCheckAgainst[i]` is `undefined`) or a
      different one. */
  predicate IsError(typed: seq<char>, reference: seq<char>, i: int)
    requires 0 <= i < |typed|
  {
    i >= |reference| || typed[i] != reference[i]
  }

  ghost function ErrorPositions(typed: seq<char>, reference: seq<char>): set<int>
  {
    set i | 0 <= i < |typed| && IsError(typed, reference, i)
  }

  /** `charactersBeingEntered.filter((c, i) => c !== charactersToCheckAgainst[i]).length`. */
  function ErrorCount(typed: seq<char>, reference: seq<char>): (n: nat)
    ensures n <= |typed|
    ensures n == 0 <==> forall i :: 0 <= i < |typed| ==> !IsError(typed, reference, i)
    decreases |typed|
  {
    if |typed| == 0 then 0
    else
      var prefix := typed[..|typed| - 1];
      assert forall i :: 0 <= i < |prefix| ==> IsError(prefix, reference, i) == IsError(typed, reference, i);
      ErrorCount(prefix, reference) + if IsError(typed, reference, |typed| - 1) then 1 else 0
  }

  /** The error count is the number of positions where typed and reference differ. */
  lemma {:induction false} ErrorCountIsErrorPositions(typed: seq<char>, reference: seq<char>)
    ensures ErrorCount(typed, reference) == |ErrorPositions(typed, reference)|
    decreases |typed|
  {
    if |typed| > 0 {
      var n := |typed| - 1;
      var prefix := typed[..n];
      ErrorCountIsErrorPositions(prefix, reference);
      var before := ErrorPositions(prefix, reference);
      assert forall i :: 0 <= i < n ==> IsError(prefix, reference, i) == IsError(typed, reference, i);
      if IsError(typed, reference, n) {
        assert ErrorPositions(typed, reference) == before + {n};
      } else {
        assert ErrorPositions(typed, reference) == before;
      }
    }
  }

  /** Typing one more character adds one error exactly when it is wrong. */
  lemma ErrorCountAppend(typed: seq<char>, reference: seq<char>, c: char)
    ensures ErrorCount(typed + [c], reference) ==
            ErrorCount(typed, reference) + if IsError(typed + [c], reference, |typed|) then 1 else 0
  {
    assert (typed + [c])[..|typed|] == typed;
  }

  /** What the results panel shows: the error count, the accuracy as a
      fraction of one, and the words per minute, taken as exact rationals. */
  datatype Stats = Stats(errors: nat, accuracy: real, wpm: real)

  /** The accuracy fraction of `n` characters with `e` errors. */
  lemma AccuracyFraction(n: nat, e: nat)
    requires 0 < n && e <= n
    ensures var a := (n - e) as real / n as real;
            0.0 <= a <= 1.0 && a * n as real == (n - e) as real && (a == 1.0 <==> e == 0)
  {
    var a := (n - e) as real / n as real;
    assert a * n as real == (n - e) as real;
    if a == 1.0 {
      assert (n - e) as real == n as real;
    }
  }

  /** The speed factor of a `duration`-second test. */
  lemma RateFactor(chars: nat, duration: int, accuracy: real)
    requires duration > 0 && 0.0 <= accuracy
    ensures 1.0 / (duration as real / 60.0) == 60.0 / duration as real
    ensures chars as real / CharsInWord as real * (1.0 / (duration as real / 60.0)) * accuracy >= 0.0
  {
    var d := duration as real;
    assert (1.0 / (d / 60.0)) * d == 60.0;
    var x := chars as real / CharsInWord as real * (1.0 / (d / 60.0));
    assert x >= 0.0;
  }

  /** `calculateStats` for a test of `duration` seconds. */
  function CalculateStats(typed: seq<char>, reference: seq<char>, duration: int): (st: Stats)
    requires duration > 0
    ensures |typed| == 0 ==> st == Stats(0, 0.0, 0.0)
    ensures st.errors == ErrorCount(typed, reference)
    ensures 0.0 <= st.accuracy <= 1.0
    ensures |typed| > 0 ==> st.accuracy * |typed| as real == (|typed| - st.errors) as real
    ensures st.accuracy == 1.0 <==> |typed| > 0 && st.errors == 0
    ensures st.wpm >= 0.0
  {
    var chars := |typed|;
    if chars == 0 then Stats(0, 0.0, 0.0)
    else
      var errors := ErrorCount(typed, reference);
      var accuracy := (chars - errors) as real / chars as real;
      var wpm := chars as real / CharsInWord as real * (1.0 / (duration as real / 60.0)) * accuracy;
      AccuracyFraction(chars, errors);
      RateFactor(chars, duration, accuracy);
      Stats(errors, accuracy, wpm)
  }

  /** With no errors the accuracy is one and the speed is the typed
      characters in five-character words per minute. */
  lemma {:induction false} AllCorrectStats(typed: seq<char>, reference: seq<char>, duration: int)
    requires duration > 0 && |typed| > 0
    requires |typed| <= |reference| && typed == reference[..|typed|]
    ensures CalculateStats(typed, reference, duration).accuracy == 1.0
    ensures CalculateStats(typed, reference, duration).wpm ==
            (|typed| as real / CharsInWord as real) * (60.0 / duration as real)
  {
    assert forall i :: 0 <= i < |typed| ==> typed[i] == reference[i];
    assert ErrorCount(typed, reference) == 0;
    RateFactor(|typed|, duration, 1.0);
  }

  /** Three hundred correct characters in a sixty-second test are sixty words per minute. */
  lemma SixtyWordsPerMinute(typed: seq<char>, reference: seq<char>)
    requires |typed| == 300 && |typed| <= |reference| && typed == reference[..300]
    ensures CalculateStats(typed, reference, 60) == Stats(0, 1.0, 60.0)
  {
    AllCorrectStats(typed, reference, 60);
  }
}
