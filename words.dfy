/**
 The per-letter classification of the React `Words` component: the words are
 joined by single spaces and split into letters, and each letter is marked as
 the current one, as correctly typed or as wrongly typed, from the letters
 typed so far.
 */
module Words {
  import Scoring

  /** `words.join(sep)`: every letter of every word, and one separator
      between each two neighbouring words. */
  function Join(words: seq<string>, sep: char): (joined: string)
    ensures |joined| == if |words| == 0 then 0 else TotalLength(words) + |words| - 1
  {
    if |words| == 0 then []
    else if |words| == 1 then words[0]
    else words[0] + [sep] + Join(words[1..], sep)
  }

  /** The sum of the word lengths. */
  function TotalLength(words: seq<string>): nat
  {
    if |words| == 0 then 0 else |words[0]| + TotalLength(words[1..])
  }

  /** The pieces between the separators, from the front: the reference
      inverse of `Join` that `SplitJoin` relates it to. */
  function Split(s: string, sep: char): (pieces: seq<string>)
    ensures |pieces| >= 1
  {
    if |s| == 0 then [[]]
    else
      var rest := Split(s[1..], sep);
      if s[0] == sep then [[]] + rest else [[s[0]] + rest[0]] + rest[1..]
  }

  predicate NoSeparator(w: string, sep: char)
  {
    forall i :: 0 <= i < |w| ==> w[i] != sep
  }

  /** A piece without separators in front of `t` extends the first piece of `t`. */
  lemma {:induction false} SplitPrefix(w: string, t: string, sep: char)
    requires NoSeparator(w, sep)
    ensures Split(w + t, sep) == [w + Split(t, sep)[0]] + Split(t, sep)[1..]
    decreases |w|
  {
    if |w| > 0 {
      SplitPrefix(w[1..], t, sep);
      var pieces := Split(t, sep);
      assert (w + t)[0] == w[0] != sep;
      assert (w + t)[1..] == w[1..] + t;
      var rest := Split(w[1..] + t, sep);
      assert rest[0] == w[1..] + pieces[0] && rest[1..] == pieces[1..];
      assert [w[0]] + (w[1..] + pieces[0]) == w + pieces[0];
    } else {
      var pieces := Split(t, sep);
      assert w + t == t && w + pieces[0] == pieces[0];
      assert pieces == [pieces[0]] + pieces[1..];
    }
  }

  /** Splitting the joined words gives the words back, when none of them
      contains the separator: at least one word is needed, since an empty
      text splits into one empty piece. */
  lemma {:induction false} SplitJoin(words: seq<string>, sep: char)
    requires |words| >= 1
    requires forall k :: 0 <= k < |words| ==> NoSeparator(words[k], sep)
    ensures Split(Join(words, sep), sep) == words
  {
    if |words| == 1 {
      SplitPrefix(words[0], [], sep);
      assert words[0] + [] == words[0];
    } else {
      var tail := Join(words[1..], sep);
      SplitJoin(words[1..], sep);
      assert Join(words, sep) == words[0] + ([sep] + tail);
      SplitPrefix(words[0], [sep] + tail, sep);
      assert ([sep] + tail)[1..] == tail;
      assert words[0] + [] == words[0];
      assert words == [words[0]] + words[1..];
    }
  }

  /** `words.join(' ').split('')`: every character of the joined text is a
      letter of its own. */
  function Letters(words: seq<string>): (letters: seq<char>)
    ensures |letters| == if |words| == 0 then 0 else TotalLength(words) + |words| - 1
  {
    Join(words, ' ')
  }

  /** The CSS module classes a letter can carry. */
  datatype LetterClass = Current | Correct | Wrong

  /** The class list of letter `i`: `current` when the next typed letter goes
      there, then `correct` or `wrong` once a letter has been typed there. */
  function Classes(letters: seq<char>, input: seq<char>, i: nat): (classes: seq<LetterClass>)
    requires i < |letters|
    ensures (Current in classes) <==> i == |input|
    ensures (Correct in classes) <==> i < |input| && input[i] == letters[i]
    ensures (Wrong in classes) <==> i < |input| && input[i] != letters[i]
    ensures |classes| <= 1
    ensures classes == [] <==> i > |input|
  {
    var currentLetter := |input| == i;
    var isScored := |input| >= i + 1;
    var correctness := if i < |input| && input[i] == letters[i] then Correct else Wrong;
    (if currentLetter then [Current] else []) + (if isScored then [correctness] else [])
  }

  /** One `<span>`: the letter it shows and its class list. */
  datatype Span = Span(letter: char, classes: seq<LetterClass>)

  /** The span of letter `i`; `Spans` asks only for indices of `letters`,
      and any other index gives a blank span so that no precondition is needed. */
  function SpanAt(letters: seq<char>, input: seq<char>, i: int): Span
  {
    if 0 <= i < |letters| then Span(letters[i], Classes(letters, input, i)) else Span(' ', [])
  }

  function Spans(letters: seq<char>, input: seq<char>): (spans: seq<Span>)
    ensures |spans| == |letters|
    ensures forall i :: 0 <= i < |letters| ==> spans[i].letter == letters[i]
  {
    seq(|letters|, i => SpanAt(letters, input, i))
  }

  /** What `Words` renders for the given words and typed letters. */
  function Render(words: seq<string>, inputLetters: seq<char>): (spans: seq<Span>)
    ensures |spans| == |Letters(words)|
  {
    Spans(Letters(words), inputLetters)
  }

  /** Letter `i` of the rendered text is current exactly when it is the next
      one to type, is scored exactly when a letter was typed there, then as
      correct when the typed letter is the same and as wrong otherwise, and
      never both current and scored. */
  lemma LetterMarks(words: seq<string>, inputLetters: seq<char>, i: nat)
    requires i < |Letters(words)|
    ensures var span := Render(words, inputLetters)[i];
            && span.letter == Letters(words)[i]
            && (Current in span.classes <==> i == |inputLetters|)
            && (Correct in span.classes <==> i < |inputLetters| && inputLetters[i] == Letters(words)[i])
            && (Wrong in span.classes <==> i < |inputLetters| && inputLetters[i] != Letters(words)[i])
            && |span.classes| <= 1
  {
    assert Render(words, inputLetters)[i] == SpanAt(Letters(words), inputLetters, i);
  }

  /** The number of spans carrying class `c`. */
  function CountClass(spans: seq<Span>, c: LetterClass): (n: nat)
    ensures n <= |spans|
  {
    CountBelow(spans, c, |spans|)
  }

  /** The number of spans below index `k` carrying class `c`. */
  function CountBelow(spans: seq<Span>, c: LetterClass, k: nat): (n: nat)
    requires k <= |spans|
    ensures n <= k
  {
    if k == 0 then 0
    else CountBelow(spans, c, k - 1) + if c in spans[k - 1].classes then 1 else 0
  }

  function Min(a: int, b: int): int
  {
    if a <= b then a else b
  }

  lemma {:induction false} CurrentCountBelow(letters: seq<char>, input: seq<char>, k: nat)
    requires k <= |letters|
    ensures CountBelow(Spans(letters, input), Current, k) == if |input| < k then 1 else 0
  {
    if k > 0 {
      CurrentCountBelow(letters, input, k - 1);
      assert Spans(letters, input)[k - 1].classes == Classes(letters, input, k - 1);
    }
  }

  /** Exactly one letter is current while letters remain to be typed, and
      none once the input is as long as the letters. */
  lemma ExactlyOneCurrent(words: seq<string>, inputLetters: seq<char>)
    ensures CountClass(Render(words, inputLetters), Current) ==
            if |inputLetters| < |Letters(words)| then 1 else 0
  {
    var letters := Letters(words);
    CurrentCountBelow(letters, inputLetters, |letters|);
  }

  lemma {:induction false} ScoredCountBelow(letters: seq<char>, input: seq<char>, k: nat)
    requires k <= |letters|
    ensures CountBelow(Spans(letters, input), Correct, k) +
            CountBelow(Spans(letters, input), Wrong, k) == Min(k, |input|)
  {
    if k > 0 {
      ScoredCountBelow(letters, input, k - 1);
      var classes := Spans(letters, input)[k - 1].classes;
      assert classes == Classes(letters, input, k - 1);
      if k <= |input| {
        assert (Correct in classes) != (Wrong in classes);
      } else {
        assert Correct !in classes && Wrong !in classes;
      }
    }
  }

  /** Every typed letter that has a letter under it is scored, once: as
      correct or as wrong. */
  lemma ScoredCount(words: seq<string>, inputLetters: seq<char>)
    ensures CountClass(Render(words, inputLetters), Correct) +
            CountClass(Render(words, inputLetters), Wrong) == Min(|Letters(words)|, |inputLetters|)
  {
    var letters := Letters(words);
    ScoredCountBelow(letters, inputLetters, |letters|);
  }

  /** One more typed letter adds one wrong mark exactly when it differs from the letter shown. */
  lemma WrongStep(letters: seq<char>, input: seq<char>, k: nat)
    requires 0 < k <= |letters| && k <= |input|
    ensures CountBelow(Spans(letters, input), Wrong, k) ==
            CountBelow(Spans(letters, input), Wrong, k - 1) + if input[k - 1] != letters[k - 1] then 1 else 0
  {
    assert Spans(letters, input)[k - 1].classes == Classes(letters, input, k - 1);
  }

  /** One more typed character within the letters adds one error exactly when it differs. */
  lemma ErrorStep(input: seq<char>, letters: seq<char>, k: nat)
    requires 0 < k <= |input| && k <= |letters|
    ensures Scoring.ErrorCount(input[..k], letters) ==
            Scoring.ErrorCount(input[..k - 1], letters) + if input[k - 1] != letters[k - 1] then 1 else 0
  {
    var before := input[..k - 1];
    var c := input[k - 1];
    assert input[..k] == before + [c];
    Scoring.ErrorCountAppend(before, letters, c);
  }

  lemma {:induction false} WrongCountBelow(letters: seq<char>, input: seq<char>, k: nat)
    requires k <= |letters| && k <= |input|
    ensures CountBelow(Spans(letters, input), Wrong, k) == Scoring.ErrorCount(input[..k], letters)
  {
    if k > 0 {
      WrongCountBelow(letters, input, k - 1);
      WrongStep(letters, input, k);
      ErrorStep(input, letters, k);
    } else {
      assert input[..k] == [];
    }
  }

  /** Letters past the typed ones carry no wrong mark. */
  lemma {:induction false} NoWrongBeyondInput(letters: seq<char>, input: seq<char>, k: nat)
    requires |input| <= k <= |letters|
    ensures CountBelow(Spans(letters, input), Wrong, k) == CountBelow(Spans(letters, input), Wrong, |input|)
    decreases k
  {
    var spans := Spans(letters, input);
    if k > |input| {
      NoWrongBeyondInput(letters, input, k - 1);
      assert Wrong !in spans[k - 1].classes;
    }
  }

  /** The letters marked wrong are as many as the errors the results of the
      vanilla page count for the same input, as long as the input is no
      longer than the letters. */
  lemma WrongCountIsErrorCount(words: seq<string>, inputLetters: seq<char>)
    requires |inputLetters| <= |Letters(words)|
    ensures CountClass(Render(words, inputLetters), Wrong) == Scoring.ErrorCount(inputLetters, Letters(words))
  {
    var letters := Letters(words);
    WrongCountBelow(letters, inputLetters, |inputLetters|);
    NoWrongBeyondInput(letters, inputLetters, |letters|);
    assert inputLetters[..|inputLetters|] == inputLetters;
  }
}
