/**
 The typing-test session of the vanilla page: the reference characters, the
 characters typed so far, one style record per character on display, the two
 line limits that page the display, the start flag, the countdown and its
 two timers. Each event handler of the page is a method of `TypingTest`.
 */
module Session {
  import opened JsText
  import Timer
  import Scoring

  /** The text colour a typed character is given. */
  datatype Colour = DefaultColour | CorrectColour | WrongColour

  /** The inline style of one character's element: its colour, the pink
      background of a wrong character, the underline that marks the cursor,
      and `display: none` once its line has scrolled away. */
  datatype Style = Style(colour: Colour, wrongBackground: bool, cursor: bool, hidden: bool)

  /** An element without a `style` attribute. */
  const Unstyled := Style(DefaultColour, false, false, false)
  /** An element whose style was removed and then given the cursor underline. */
  const CursorOnly := Style(DefaultColour, false, true, false)

  /** Characters per display line, and the initial first- and third-line limits. */
  const LineWidth := 55
  const FirstLineLimit := 55
  const ThirdLineLimit := 165
  /** The duration selected when the page loads, in seconds. */
  const DefaultDuration := 60

  /** An `input` event: the text field's value after the edit and the kind of edit. */
  datatype InputEvent = InputEvent(value: string, inputType: string)
  const DeleteContentBackward := "deleteContentBackward"

  /** The typed characters after an input event: a cleared field empties
      them, a backward delete pops one (nothing when there is none), any other
      edit appends the last character of the field. */
  function AfterInput(typed: seq<char>, e: InputEvent): (r: seq<char>)
    ensures e.value == [] ==> r == []
    ensures e.value != [] && e.inputType == DeleteContentBackward ==>
              |r| == (if |typed| == 0 then 0 else |typed| - 1) && r == typed[..|r|]
    ensures e.value != [] && e.inputType != DeleteContentBackward ==>
              |r| == |typed| + 1 && r[..|typed|] == typed && r[|typed|] == e.value[|e.value| - 1]
  {
    if e.value == [] then []
    else if e.inputType == DeleteContentBackward then (if |typed| == 0 then [] else typed[..|typed| - 1])
    else typed + [e.value[|e.value| - 1]]
  }

  /** Deleting the last character and typing it again gives back the same characters. */
  lemma DeleteThenRetype(typed: seq<char>, afterDelete: string, afterRetype: string)
    requires |typed| > 0 && afterDelete != [] && afterRetype != []
    requires afterRetype[|afterRetype| - 1] == typed[|typed| - 1]
    ensures AfterInput(AfterInput(typed, InputEvent(afterDelete, DeleteContentBackward)),
                       InputEvent(afterRetype, "insertText")) == typed
  {
    var popped := AfterInput(typed, InputEvent(afterDelete, DeleteContentBackward));
    assert popped + [typed[|typed| - 1]] == typed;
  }

  /** The colour character `i` must carry once `typed` has been entered. */
  function ExpectedColour(typed: seq<char>, reference: seq<char>, i: int): Colour
  {
    if 0 <= i < |typed| && i < |reference| then
      (if typed[i] == reference[i] then CorrectColour else WrongColour)
    else DefaultColour
  }

  /** The cursor underline is on index `k` and nowhere else. */
  predicate CursorAt(s: seq<Style>, k: int)
  {
    forall i :: 0 <= i < |s| ==> (s[i].cursor <==> i == k)
  }

  /** Every character shows its correctness: the typed ones are blue when they
      match the reference and maroon on pink otherwise, the rest are plain. */
  predicate MarksMatch(s: seq<Style>, typed: seq<char>, reference: seq<char>)
  {
    forall i :: 0 <= i < |s| ==>
      s[i].colour == ExpectedColour(typed, reference, i) &&
      s[i].wrongBackground == (ExpectedColour(typed, reference, i) == WrongColour)
  }

  /** Only characters on lines that have already scrolled out of view are hidden. */
  predicate HiddenOnlyScrolled(s: seq<Style>, reference: seq<char>, firstLineCharLimit: int)
  {
    forall i :: 0 <= i < |s| && s[i].hidden ==> i <= LastIndexOf(reference, ' ', firstLineCharLimit - LineWidth)
  }

  /** The line limits start at 55 and 165 and only ever move together by whole lines. */
  predicate LimitsInStep(firstLineCharLimit: int, thirdLineCharLimit: int)
  {
    firstLineCharLimit >= FirstLineLimit && firstLineCharLimit % LineWidth == 0 &&
    thirdLineCharLimit == firstLineCharLimit + (ThirdLineLimit - FirstLineLimit)
  }

  /** The first character unstyled except for the cursor, every other one unstyled. */
  predicate AllCleared(s: seq<Style>)
  {
    |s| >= 1 && forall j :: 0 <= j < |s| ==> s[j] == if j == 0 then CursorOnly else Unstyled
  }

  /** `after` is `before` with character `i` coloured for a correct or wrong
      keystroke and the cursor moved from `i` to `i + 1`. */
  predicate Highlighted(before: seq<Style>, after: seq<Style>, i: int, correct: bool)
  {
    && 0 <= i && i + 1 < |before| == |after|
    && after[i] == before[i].(colour := if correct then CorrectColour else WrongColour,
                              wrongBackground := before[i].wrongBackground || !correct,
                              cursor := false)
    && after[i + 1] == before[i + 1].(cursor := true)
    && forall j :: 0 <= j < |before| && j != i && j != i + 1 ==> after[j] == before[j]
  }

  /** `after` is `before` with every style of character `i` removed, the
      cursor put on it and taken off `i + 1`. */
  predicate LastCleared(before: seq<Style>, after: seq<Style>, i: int)
  {
    && 0 <= i && i + 1 < |before| == |after|
    && after[i] == CursorOnly
    && after[i + 1] == before[i + 1].(cursor := false)
    && forall j :: 0 <= j < |before| && j != i && j != i + 1 ==> after[j] == before[j]
  }

  /** `after` is `before` with the characters below `n` hidden. */
  predicate HiddenBefore(before: seq<Style>, after: seq<Style>, n: int)
  {
    |after| == |before| &&
    forall j :: 0 <= j < |before| ==> after[j] == if j < n then before[j].(hidden := true) else before[j]
  }

  /** What the character elements show when `typed` has been entered and the
      first line ends at `firstLineCharLimit`: the cursor on the next character,
      every mark in line with the typed characters, and only scrolled lines hidden. */
  predicate Shown(s: seq<Style>, typed: seq<char>, reference: seq<char>, firstLineCharLimit: int)
  {
    && |s| == |reference|
    && |typed| < |reference|
    && CursorAt(s, |typed|)
    && MarksMatch(s, typed, reference)
    && HiddenOnlyScrolled(s, reference, firstLineCharLimit)
  }

  /** Cleared styles show that nothing has been typed, whatever line is first. */
  lemma ClearedIsShown(s: seq<Style>, reference: seq<char>, firstLineCharLimit: int)
    requires AllCleared(s) && |s| == |reference|
    ensures Shown(s, [], reference, firstLineCharLimit)
  {
  }

  /** Typing a character and highlighting it keeps what is shown in line with
      the typed characters, and hides nothing. */
  lemma HighlightKeepsShown(before: seq<Style>, after: seq<Style>, typed: seq<char>, c: char,
                            reference: seq<char>, firstLineCharLimit: int)
    requires Shown(before, typed, reference, firstLineCharLimit) && |typed| + 1 < |reference|
    requires Highlighted(before, after, |typed|, c == reference[|typed|])
    ensures Shown(after, typed + [c], reference, firstLineCharLimit)
  {
    var typed' := typed + [c];
    forall j | 0 <= j < |after|
      ensures after[j].colour == ExpectedColour(typed', reference, j)
      ensures after[j].wrongBackground == (ExpectedColour(typed', reference, j) == WrongColour)
    {
      if j < |typed| {
        assert typed'[j] == typed[j];
      }
    }
  }

  /** Deleting a character and clearing its highlight keeps what is shown in
      line with the typed characters; the cleared character is shown again. */
  lemma ClearLastKeepsShown(before: seq<Style>, after: seq<Style>, typed: seq<char>,
                            reference: seq<char>, firstLineCharLimit: int)
    requires Shown(before, typed, reference, firstLineCharLimit) && |reference| >= 2
    requires LastCleared(before, after, if |typed| == 0 then 0 else |typed| - 1)
    ensures Shown(after, if |typed| == 0 then [] else typed[..|typed| - 1], reference, firstLineCharLimit)
  {
    var typed' := if |typed| == 0 then [] else typed[..|typed| - 1];
    forall j | 0 <= j < |after|
      ensures after[j].colour == ExpectedColour(typed', reference, j)
      ensures after[j].wrongBackground == (ExpectedColour(typed', reference, j) == WrongColour)
    {
      if j < |typed'| {
        assert typed'[j] == typed[j];
      }
    }
  }

  /** Paging keeps the cursor and the marks, and everything it hides lies on
      a line that the advanced limit has scrolled past. */
  lemma PagingKeepsShown(before: seq<Style>, after: seq<Style>, typed: seq<char>, reference: seq<char>,
                         firstLineCharLimit: int, paged: bool)
    requires Shown(before, typed, reference, firstLineCharLimit) && firstLineCharLimit >= FirstLineLimit
    requires HiddenBefore(before, after, if paged then LastIndexOf(reference, ' ', firstLineCharLimit) + 1 else 0)
    ensures Shown(after, typed, reference, firstLineCharLimit + if paged then LineWidth else 0)
  {
    LastIndexOfMonotone(reference, ' ', firstLineCharLimit - LineWidth, firstLineCharLimit);
  }

  /** The page's globals other than its character elements. */
  datatype Globals = Globals(
    reference: seq<char>, typed: seq<char>,
    firstLineCharLimit: int, thirdLineCharLimit: int,
    testActive: bool, selectedDuration: int, timeRemaining: int,
    clockRunning: bool, deadlineArmed: bool, inputDisabled: bool)

  class TypingTest {
    /** `charactersToCheckAgainst` */
    var reference: seq<char>
    /** `charactersBeingEntered` */
    var typed: seq<char>
    /** The inline style of each character element of the text display. */
    var styles: array<Style>
    var firstLineCharLimit: int
    var thirdLineCharLimit: int
    var testActive: bool
    var selectedDuration: int
    var timeRemaining: int
    /** The one-second `clock` interval is scheduled. */
    var clockRunning: bool
    /** The `duration` timeout that shows the results is scheduled. */
    var deadlineArmed: bool
    /** The text field is disabled. */
    var inputDisabled: bool

    ghost function State(): Globals
      reads this
    {
      Globals(reference, typed, firstLineCharLimit, thirdLineCharLimit, testActive,
              selectedDuration, timeRemaining, clockRunning, deadlineArmed, inputDisabled)
    }

    ghost predicate Valid()
      reads this, styles
    {
      && styles.Length == |reference|
      && Shown(styles[..], typed, reference, firstLineCharLimit)
      && GlobalsValid()
    }

    /** The part of `Valid` about the globals other than the characters: the
        limits move together, a duration is positive, and the timers are only
        scheduled by starting a test, so a second start never schedules a
        second clock. */
    ghost predicate GlobalsValid()
      reads this
    {
      && LimitsInStep(firstLineCharLimit, thirdLineCharLimit)
      && selectedDuration > 0
      && (!testActive ==> !clockRunning && !deadlineArmed)
    }

    /** The text of the timer element. Every handler that changes
        `timeRemaining` rewrites it from `timeRemaining`, so it is kept here as
        a view of that field. */
    function TimerDisplay(): (text: string)
      reads this
      ensures timeRemaining >= 0 ==> Timer.ParseTimer(text) == Timer.Some(timeRemaining)
    {
      if timeRemaining >= 0 then
        Timer.ParseTimerText(timeRemaining);
        Timer.TimerText(timeRemaining)
      else Timer.TimerText(timeRemaining)
    }

    /** The page as loaded: the words laid out one element per character, the
        first one underlined, sixty seconds selected and nothing typed. */
    constructor (initialReference: seq<char>)
      requires |initialReference| >= 1
      ensures Valid() && fresh(styles)
      ensures State() == Globals(initialReference, [], FirstLineLimit, ThirdLineLimit, false,
                                 DefaultDuration, DefaultDuration, false, false, false)
      ensures AllCleared(styles[..])
    {
      reference := initialReference;
      typed := [];
      styles := new Style[|initialReference|](i => if i == 0 then CursorOnly else Unstyled);
      firstLineCharLimit := FirstLineLimit;
      thirdLineCharLimit := ThirdLineLimit;
      testActive := false;
      selectedDuration := DefaultDuration;
      timeRemaining := DefaultDuration;
      clockRunning := false;
      deadlineArmed := false;
      inputDisabled := false;
    }

    /** `setDuration`: select another duration, which also resets the countdown. */
    method SetDuration(duration: int)
      requires Valid() && duration > 0
      modifies this
      ensures Valid() && styles == old(styles)
      ensures State() == old(State()).(selectedDuration := duration, timeRemaining := duration)
    {
      selectedDuration := duration;
      timeRemaining := selectedDuration;
    }

    /** `startTest`: the first input event starts the test and both timers;
        later ones change nothing. */
    method StartTest()
      requires Valid()
      modifies this
      ensures Valid() && styles == old(styles)
      ensures old(testActive) ==> State() == old(State())
      ensures !old(testActive) ==>
                State() == old(State()).(testActive := true, clockRunning := true, deadlineArmed := true)
    {
      if !testActive {
        testActive := true;
        clockRunning := true;
        deadlineArmed := true;
      }
    }

    /** `updateTimer`: one tick of the clock takes one second off the countdown. */
    method UpdateTimer()
      requires Valid() && clockRunning
      modifies this
      ensures Valid() && styles == old(styles)
      ensures State() == old(State()).(timeRemaining := old(timeRemaining) - 1)
    {
      timeRemaining := timeRemaining - 1;
    }

    /** `showResults`: the deadline disables the field, stops the clock and
        computes the statistics. */
    method ShowResults() returns (stats: Scoring.Stats)
      requires Valid() && deadlineArmed
      modifies this
      ensures Valid() && styles == old(styles)
      ensures State() == old(State()).(inputDisabled := true, clockRunning := false, deadlineArmed := false)
      ensures stats == Scoring.CalculateStats(typed, reference, selectedDuration)
    {
      inputDisabled := true;
      clockRunning := false;
      deadlineArmed := false;
      stats := Scoring.CalculateStats(typed, reference, selectedDuration);
    }

    /** `resetTest`, with the fresh words it lays out: the countdown goes back
        to the selected duration, both timers are cancelled, the line limits go
        back to 55 and 165 and nothing is typed. */
    method ResetTest(newReference: seq<char>)
      requires Valid() && |newReference| >= 1
      modifies this
      ensures Valid() && fresh(styles)
      ensures State() == Globals(newReference, [], FirstLineLimit, ThirdLineLimit, false,
                                 old(selectedDuration), old(selectedDuration), false, false, false)
      ensures AllCleared(styles[..])
    {
      var cleared := new Style[|newReference|](i => if i == 0 then CursorOnly else Unstyled);
      ClearedIsShown(cleared[..], newReference, FirstLineLimit);
      timeRemaining := selectedDuration;
      testActive := false;
      inputDisabled := false;
      firstLineCharLimit := FirstLineLimit;
      thirdLineCharLimit := ThirdLineLimit;
      reference := newReference;
      styles := cleared;
      typed := [];
      deadlineArmed := false;
      clockRunning := false;
    }

    /** What `updateTextDisplay` needs of an input event: the element after
        the cursor exists for `nextSibling`, and a space lies at or before the
        third-line limit so that `nth-child` finds an element. */
    predicate CanHandle(e: InputEvent)
      reads this
    {
      e.value == [] ||
      (LastIndexOf(reference, ' ', thirdLineCharLimit) >= 0 &&
       (if e.inputType == DeleteContentBackward then |typed| > 0 || |reference| >= 2
        else |typed| + 1 < |reference|))
    }

    /** The `input` listeners in the order they are registered: `startTest`, then `updateTextDisplay`. */
    method OnInput(e: InputEvent)
      requires Valid() && !inputDisabled && CanHandle(e)
      modifies this, styles
      ensures Valid() && styles == old(styles) && reference == old(reference)
      ensures testActive && typed == AfterInput(old(typed), e)
      ensures clockRunning == (old(clockRunning) || !old(testActive))
      ensures deadlineArmed == (old(deadlineArmed) || !old(testActive))
      ensures timeRemaining == old(timeRemaining) && selectedDuration == old(selectedDuration)
      ensures inputDisabled == old(inputDisabled)
      ensures e.value == [] ==>
                && firstLineCharLimit == old(firstLineCharLimit)
                && thirdLineCharLimit == old(thirdLineCharLimit)
                && AllCleared(styles[..])
      ensures e.value != [] ==>
                var paged := |typed| == LastIndexOf(reference, ' ', old(thirdLineCharLimit));
                && firstLineCharLimit == old(firstLineCharLimit) + (if paged then LineWidth else 0)
                && thirdLineCharLimit == old(thirdLineCharLimit) + (if paged then LineWidth else 0)
      ensures e.value != [] ==>
                var lastSpaceOnFirstLine := LastIndexOf(reference, ' ', old(firstLineCharLimit));
                var paged := |typed| == LastIndexOf(reference, ' ', old(thirdLineCharLimit));
                var uncovered := if e.inputType == DeleteContentBackward then |typed| else -1;
                forall i :: 0 <= i < styles.Length ==>
                  styles[i].hidden == ((paged && i <= lastSpaceOnFirstLine) ||
                                       (old(styles[i].hidden) && i != uncovered))
    {
      StartTest();
      UpdateTextDisplay(e);
    }

    /** `updateTextDisplay`: apply one input event to the typed characters and
        to the styles, then page the display if the cursor reached the last
        space of the third line. */
    method UpdateTextDisplay(e: InputEvent)
      requires Valid() && CanHandle(e)
      modifies this`typed, this`firstLineCharLimit, this`thirdLineCharLimit, styles
      ensures Valid() && typed == AfterInput(old(typed), e)
      ensures e.value == [] ==>
                && firstLineCharLimit == old(firstLineCharLimit)
                && thirdLineCharLimit == old(thirdLineCharLimit)
                && AllCleared(styles[..])
      ensures e.value != [] ==>
                var paged := |typed| == LastIndexOf(reference, ' ', old(thirdLineCharLimit));
                && firstLineCharLimit == old(firstLineCharLimit) + (if paged then LineWidth else 0)
                && thirdLineCharLimit == old(thirdLineCharLimit) + (if paged then LineWidth else 0)
      ensures e.value != [] ==>
                var lastSpaceOnFirstLine := LastIndexOf(reference, ' ', old(firstLineCharLimit));
                var paged := |typed| == LastIndexOf(reference, ' ', old(thirdLineCharLimit));
                var uncovered := if e.inputType == DeleteContentBackward then |typed| else -1;
                forall i :: 0 <= i < styles.Length ==>
                  styles[i].hidden == ((paged && i <= lastSpaceOnFirstLine) ||
                                       (old(styles[i].hidden) && i != uncovered))
    {
      // to catch a select-all delete or any other complete clear
      if e.value == [] {
        typed := [];
        ClearAllHighlighting();
        return;
      }

      if e.inputType == DeleteContentBackward {
        ghost var typedBefore := typed;
        if |typed| > 0 {
          typed := typed[..|typed| - 1];
        }
        ClearLastHighlight(typedBefore);
      } else {
        typed := typed + [e.value[|e.value| - 1]];
        HighlightText();
      }
      CheckProgressToScroll();
    }

    /** `clearAllHighlighting`: every character loses its style, `display: none`
        included, and the first one gets the cursor. */
    method ClearAllHighlighting()
      requires styles.Length >= 1
      modifies styles
      ensures AllCleared(styles[..])
    {
      for i := 0 to styles.Length
        invariant forall j :: 0 <= j < i ==> styles[j] == Unstyled
      {
        styles[i] := Unstyled;
      }
      styles[0] := styles[0].(cursor := true);
    }

    /** `clearLastHighlight`: after a backward delete the character at the new
        end loses its style and takes the cursor from the one after it. */
    method ClearLastHighlight(ghost typedBefore: seq<char>)
      requires styles.Length == |reference| && |reference| >= 2
      requires Shown(styles[..], typedBefore, reference, firstLineCharLimit)
      requires GlobalsValid()
      requires typed == if |typedBefore| == 0 then [] else typedBefore[..|typedBefore| - 1]
      modifies styles
      ensures Valid()
      ensures LastCleared(old(styles[..]), styles[..], |typed|)
      ensures forall j :: 0 <= j < styles.Length ==> styles[j].hidden == (old(styles[j].hidden) && j != |typed|)
    {
      var i := |typed|;
      styles[i] := Unstyled;
      styles[i] := styles[i].(cursor := true);
      styles[i + 1] := styles[i + 1].(cursor := false);
      ClearLastKeepsShown(old(styles[..]), styles[..], typedBefore, reference, firstLineCharLimit);
    }

    /** `highlightText`: the character just typed turns blue when it matches
        the reference and maroon on pink otherwise, and the cursor moves on. */
    method HighlightText()
      requires styles.Length == |reference| && 1 <= |typed| < |reference|
      requires Shown(styles[..], typed[..|typed| - 1], reference, firstLineCharLimit)
      requires GlobalsValid()
      modifies styles
      ensures Valid()
      ensures Highlighted(old(styles[..]), styles[..], |typed| - 1,
                          typed[|typed| - 1] == reference[|typed| - 1])
      ensures forall j :: 0 <= j < styles.Length ==> styles[j].hidden == old(styles[j].hidden)
    {
      var i := |typed| - 1;
      if typed[i] == reference[i] {
        styles[i] := styles[i].(colour := CorrectColour);
      } else {
        styles[i] := styles[i].(colour := WrongColour, wrongBackground := true);
      }
      // move the cursor
      styles[i] := styles[i].(cursor := false);
      styles[i + 1] := styles[i + 1].(cursor := true);
      assert typed == typed[..i] + [typed[i]];
      HighlightKeepsShown(old(styles[..]), styles[..], typed[..i], typed[i], reference, firstLineCharLimit);
    }

    /** `checkProgressToScroll`: when the cursor sits on the last space of the
        third line, every character up to the last space of the first line is
        hidden and both limits move on by one line; otherwise nothing changes. */
    method CheckProgressToScroll()
      requires Valid() && LastIndexOf(reference, ' ', thirdLineCharLimit) >= 0
      modifies this`firstLineCharLimit, this`thirdLineCharLimit, styles
      ensures Valid()
      ensures var paged := |typed| == LastIndexOf(reference, ' ', old(thirdLineCharLimit));
              && firstLineCharLimit == old(firstLineCharLimit) + (if paged then LineWidth else 0)
              && thirdLineCharLimit == old(thirdLineCharLimit) + (if paged then LineWidth else 0)
              && HiddenBefore(old(styles[..]), styles[..],
                              if paged then LastIndexOf(reference, ' ', old(firstLineCharLimit)) + 1 else 0)
      ensures var paged := |typed| == LastIndexOf(reference, ' ', old(thirdLineCharLimit));
              var lastSpaceOnFirstLine := LastIndexOf(reference, ' ', old(firstLineCharLimit));
              forall j :: 0 <= j < styles.Length ==>
                styles[j].hidden == ((paged && j <= lastSpaceOnFirstLine) || old(styles[j].hidden))
    {
      var finalSpaceOnFirstLine := LastIndexOf(reference, ' ', firstLineCharLimit) + 1;
      var finalSpaceOnThirdLine := LastIndexOf(reference, ' ', thirdLineCharLimit) + 1;
      ghost var paged := |typed| == finalSpaceOnThirdLine - 1;
      assert styles[finalSpaceOnThirdLine - 1].cursor == paged;
      // `nth-child` counts from one
      if styles[finalSpaceOnThirdLine - 1].cursor {
        HideBefore(finalSpaceOnFirstLine);
        firstLineCharLimit := firstLineCharLimit + LineWidth;
        thirdLineCharLimit := thirdLineCharLimit + LineWidth;
      }
      PagingKeepsShown(old(styles[..]), styles[..], typed, reference, old(firstLineCharLimit), paged);
    }

    /** The loop of `checkProgressToScroll` that sets `display: none` on the
        first `n` characters. */
    method HideBefore(n: int)
      requires 0 <= n <= styles.Length
      modifies styles
      ensures HiddenBefore(old(styles[..]), styles[..], n)
    {
      var i := 0;
      while i < n
        invariant 0 <= i <= n
        invariant forall j :: 0 <= j < i ==> styles[j] == old(styles[j]).(hidden := true)
        invariant forall j :: i <= j < styles.Length ==> styles[j] == old(styles[j])
      {
        styles[i] := styles[i].(hidden := true);
        i := i + 1;
      }
    }

    /** In a consistent state exactly one character carries the cursor
        underline: the one the next typed character is compared with. */
    lemma CursorIsUnique()
      requires Valid()
      ensures (set i | 0 <= i < styles.Length && styles[i].cursor) == {|typed|}
    {
      assert forall i :: 0 <= i < styles.Length ==> styles[..][i] == styles[i];
      assert styles[..][|typed|].cursor;
    }

    /** In a consistent state the characters shown on pink are exactly the
        typing errors, so their number is the error count of the results. */
    lemma WrongMarksAreErrors()
      requires Valid()
      ensures (set i | 0 <= i < styles.Length && styles[i].wrongBackground) == Scoring.ErrorPositions(typed, reference)
      ensures |set i | 0 <= i < styles.Length && styles[i].wrongBackground| == Scoring.ErrorCount(typed, reference)
    {
      assert forall i :: 0 <= i < styles.Length ==> styles[..][i] == styles[i];
      Scoring.ErrorCountIsErrorPositions(typed, reference);
    }
  }

  /** Deleting the last typed character and typing it again leaves every
      character with the colour, background and cursor it had before. */
  method DeleteAndRetype(t: TypingTest, afterDelete: string, afterRetype: string)
    requires t.Valid() && |t.typed| > 0
    requires afterDelete != [] && afterRetype != [] && afterRetype[|afterRetype| - 1] == t.typed[|t.typed| - 1]
    requires LastIndexOf(t.reference, ' ', t.thirdLineCharLimit) >= 0
    modifies t, t.styles
    ensures t.Valid() && t.styles == old(t.styles) && t.typed == old(t.typed)
    ensures forall i :: 0 <= i < t.styles.Length ==>
              t.styles[i].colour == old(t.styles[i].colour) &&
              t.styles[i].wrongBackground == old(t.styles[i].wrongBackground) &&
              t.styles[i].cursor == old(t.styles[i].cursor)
  {
    DeleteThenRetype(t.typed, afterDelete, afterRetype);
    ghost var first := t.thirdLineCharLimit;
    t.UpdateTextDisplay(InputEvent(afterDelete, DeleteContentBackward));
    LastIndexOfMonotone(t.reference, ' ', first, t.thirdLineCharLimit);
    t.UpdateTextDisplay(InputEvent(afterRetype, "insertText"));
  }
}
