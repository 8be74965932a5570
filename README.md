# Typing speed test: a Dafny model

This project models the core of a typing-speed website.

The vanilla page (`js/script.js`) shows a text made of words. It keeps one
element per character of that text, plus a buffer of the characters typed so
far. On every `input` event it does three things:

- It starts the test and its timers on the first keystroke.
- It appends, pops or clears the typed buffer.
- It re-styles the affected characters:
  - blue for a correct character;
  - maroon on pink for a wrong one;
  - an underline marks the cursor;
  - `display: none` hides a line that has scrolled away.

When the cursor reaches the last space of the third line, every character up to
the last space of the first line is hidden. The two line limits then move on by
55 characters. A one-second clock counts down and shows the time as `m:ss`.
When the deadline fires, the page disables the field and works out three
figures: the errors, the accuracy and the words per minute. Reset lays out a
fresh text and restores the starting state, except that the selected duration is kept.

The React component `Words` (`src/components/words/Words.tsx`) joins its words
with spaces, splits the result into letters, and gives each letter its CSS
classes:

- `current` on the next letter to type;
- `correct` or `wrong` on each letter already typed.

The model has five modules:

- `JsText`: the JavaScript built-ins the page relies on, stated on sequences.
  These are `lastIndexOf`, including a negative or out-of-range start, plus
  `String(n)`, `padStart`, `Math.floor(a / b)` and the remainder `%`, which
  truncates toward zero.
- `Timer`: the `m:ss` countdown text, and a reader that turns it back into the
  time.
- `Scoring`: `calculateStats`, with accuracy and speed as exact rationals.
- `Session`: the page's globals as the class `TypingTest`, with one method per
  event handler.
  - Each character element is an entry of an `array<Style>`.
  - The class invariant `Valid()` says what the display shows: the cursor
    sits on the next character only; every colour and pink background agrees
    with the typed characters; only characters of lines already scrolled past
    are hidden; the line limits stay 110 apart on multiples of 55; and no
    timer is scheduled while no test is active.
- `Words`: the letters and the per-letter classes of the React component.

## Model

| member | source | states |
|---|---|---|
| `JsText.SearchStart` | js/script.js:148-149 | the index at which `lastIndexOf` begins its backward search, which lies in the array or is -1, and is `fromIndex` itself when that lies in the array |
| `JsText.LastIndexOf` | js/script.js:148-149 | the result is -1 or an index holding the character, at or before the start, and no later index up to the start holds it (also for a negative start, which counts from the end) |
| `JsText.LastIndexOfFound` | js/script.js:148-149 | `lastIndexOf` finds something exactly when the character occurs at or before the start |
| `JsText.LastIndexOfMonotone` | js/script.js:156-157 | a later start never finds an earlier space, so the last space of a line moves forward as the limits grow |
| `JsText.IntToString` | js/script.js:73 | `String(n)` of a negative number is a minus sign followed by the digits of its magnitude, and of a non-negative one is its digits |
| `JsText.NatToString` | js/script.js:73 | `String(n)` is a non-empty run of decimal digits without a leading zero, one digit exactly below ten and at most two below a hundred |
| `JsText.DigitsValueOfNatToString` | js/script.js:73 | reading the digits of `String(n)` gives `n` back |
| `JsText.PadStart` | js/script.js:73 | `padStart` reaches the target length, ends in the original text and fills the front with the pad character |
| `JsText.FloorDiv` | js/script.js:73 | `Math.floor(a / b)` is the largest `q` with `q * b <= a` |
| `JsText.JsRemainder` | js/script.js:73 | `a % b` takes the sign of `a`, is smaller than `b` in magnitude, and its magnitude is that of `a` reduced modulo `b` |
| `Timer.TimerText` | js/script.js:73 | the countdown text of a non-negative time is digits, a colon and two more characters; a negative time's text starts with a minus sign |
| `Timer.ParseTimerText` | js/script.js:93 | the `m:ss` text of any non-negative time reads back as that time (the minutes, a colon, two second digits below sixty) |
| `Timer.TimerTextInjective` | js/script.js:192 | two non-negative times never share a timer text |
| `Timer.TimerTextOfOneMinute` | js/script.js:20-21 | the default sixty seconds show as `1:00` |
| `Timer.TimerTextBelowZero` | js/script.js:91-93 | a tick past zero shows `-1:-1`, JavaScript's floor and truncated remainder of -1 |
| `Scoring.ErrorCount` | js/script.js:179 | the error count is at most the number of typed characters, and is zero exactly when no typed character differs from the reference or lies past its end |
| `Scoring.ErrorCountIsErrorPositions` | js/script.js:179 | the error count is the number of positions whose typed character differs from the reference or has none under it |
| `Scoring.ErrorCountAppend` | js/script.js:179 | typing one more character raises the error count by one exactly when that character is an error |
| `Scoring.CalculateStats` | js/script.js:170-182 | nothing typed gives 0 errors, 0 accuracy and 0 wpm; otherwise the error count is the filter's; accuracy times the typed length is the correct count, lies in [0, 1], and is 1 exactly when there is no error; the speed is never negative |
| `Scoring.AllCorrectStats` | js/script.js:180-182 | typing a prefix of the reference gives accuracy 1 and `(chars / CHARS_IN_WORD) * (60 / duration)` words per minute |
| `Scoring.SixtyWordsPerMinute` | js/script.js:182 | 300 correct characters in a sixty-second test are 60 words per minute with no error |
| `Session.AfterInput` | js/script.js:98-111 | an empty field empties the buffer; a backward delete pops one character, or none from an empty buffer, and keeps the rest; any other edit appends the field's last character |
| `Session.DeleteThenRetype` | js/script.js:104-110 | popping the last character and typing it again gives back the same buffer |
| `Session.ClearedIsShown` | js/script.js:116-120 | a display with every style removed and the cursor on the first character is consistent with an empty buffer |
| `Session.HighlightKeepsShown` | js/script.js:130-143 | colouring the newly typed character and moving the cursor on keeps the display consistent with the longer buffer |
| `Session.ClearLastKeepsShown` | js/script.js:122-127 | clearing the popped character and moving the cursor back keeps the display consistent with the shorter buffer |
| `Session.PagingKeepsShown` | js/script.js:151-157 | hiding everything up to the last space of the first line keeps the cursor and the marks, and hides only lines that the advanced first-line limit has scrolled past |
| `Session.TypingTest.TimerDisplay` | js/script.js:93 | the timer element's text, which for a non-negative countdown reads back as the countdown |
| `Session.TypingTest.constructor` | js/script.js:60-68 | the loaded page has one unstyled element per reference character with the cursor on the first, nothing typed, limits 55 and 165, sixty seconds selected and no timer running |
| `Session.TypingTest.SetDuration` | js/script.js:70-73 | the selected duration and the countdown both take the new value and nothing else changes |
| `Session.TypingTest.StartTest` | js/script.js:81-89 | the first input event marks the test active and starts the clock and the deadline; a later one changes nothing |
| `Session.TypingTest.UpdateTimer` | js/script.js:91-93 | a tick takes exactly one second off the countdown and changes nothing else |
| `Session.TypingTest.ShowResults` | js/script.js:161-168 | the deadline disables the field and stops the clock, and the figures are `CalculateStats` of the typed characters against the reference for the selected duration |
| `Session.TypingTest.ResetTest` | js/script.js:190-209 | the countdown goes back to the selected duration; the test is inactive, the field enabled, both timers cancelled, the limits 55 and 165, the buffer empty; the new text is laid out unstyled with the cursor on its first character |
| `Session.TypingTest.OnInput` | js/script.js:27-28 | an input event starts the test and its timers, then updates the buffer as `AfterInput` says and advances the limits exactly when `UpdateTextDisplay` does; every letter is unhidden after a full clear, and otherwise a letter is hidden exactly when a page turn hides it or it was hidden and not uncovered by a delete; the display stays consistent, and the countdown, the selected duration and the disabled flag are unchanged |
| `Session.TypingTest.UpdateTextDisplay` | js/script.js:96-114 | keeps the display consistent and updates the buffer as `AfterInput` says. A full clear keeps the limits and clears every style. Otherwise both limits advance by 55 exactly when the cursor reaches the last space of the third line. A character is hidden afterwards exactly when paging hid it, or when it was hidden before and the delete did not clear it |
| `Session.TypingTest.ClearAllHighlighting` | js/script.js:116-120 | every element loses its style, `display: none` included, and the first one gets the cursor |
| `Session.TypingTest.ClearLastHighlight` | js/script.js:122-127 | the element at the new end of the buffer loses its whole style and takes the cursor; the next one loses the cursor; nothing else changes; the display stays consistent |
| `Session.TypingTest.HighlightText` | js/script.js:130-144 | the newly typed character turns blue when it matches the reference, and maroon with a pink background otherwise; the cursor moves to the next element; nothing else changes; the display stays consistent |
| `Session.TypingTest.CheckProgressToScroll` | js/script.js:146-159 | when the cursor is on the last space of the third line, everything up to the last space of the first line is hidden and both limits advance by 55; otherwise nothing changes; the display stays consistent |
| `Session.TypingTest.HideBefore` | js/script.js:152-155 | the first `n` elements get `display: none` and keep the rest of their style, and the others are unchanged |
| `Session.TypingTest.CursorIsUnique` | js/script.js:141-143 | in a consistent state exactly one element is underlined: the one at the length of the buffer |
| `Session.TypingTest.WrongMarksAreErrors` | js/script.js:134-140 | in a consistent state the elements on pink are exactly the error positions of the results, so their number is the error count |
| `Session.DeleteAndRetype` | js/script.js:122-143 | a backward delete followed by retyping the same character restores the buffer and every element's colour, background and cursor |
| `Words.Join` | src/components/words/Words.tsx:16 | `words.join(' ')` of `n >= 1` words has the sum of the word lengths plus `n - 1` characters, and no words join to the empty text |
| `Words.Letters` | src/components/words/Words.tsx:16 | `words.join(' ').split('')` has that many letters, and none for no words |
| `Words.SplitJoin` | src/components/words/Words.tsx:16 | the joined text is determined by the words: cutting it at the separator (the inverse `Split`, which the component itself does not call) gives back the words, when there is at least one word and none contains the separator |
| `Words.Classes` | src/components/words/Words.tsx:33-39 | a letter is current exactly when its index is the input length; it is correct or wrong exactly when a letter was typed there, according to whether the two match; it never has two classes; it has none exactly past the current letter |
| `Words.Spans` | src/components/words/Words.tsx:32-46 | `letters.map` gives one span per letter, each showing its letter |
| `Words.Render` | src/components/words/Words.tsx:14-16 | the component renders exactly as many spans as the joined words have letters |
| `Words.LetterMarks` | src/components/words/Words.tsx:32-46 | each rendered span shows its letter and carries the classes `Classes` describes |
| `Words.ExactlyOneCurrent` | src/components/words/Words.tsx:33-38 | exactly one letter is current while letters remain to be typed, and none once the input is as long as the letters |
| `Words.ScoredCount` | src/components/words/Words.tsx:34-39 | the correct and wrong letters together are as many as the typed letters that have a letter under them |
| `Words.WrongCountIsErrorCount` | src/components/words/Words.tsx:35 | with no more input than letters, the letters marked wrong are as many as the errors the vanilla page's results count |

## Left out

- Browser APIs: the DOM, CSS strings, `querySelector`, `classList`, focus and
  the text field's value are left out. The `nth-child` and `nextSibling`
  look-ups become array indices.
- Timers: `setInterval` and `setTimeout` are asynchronous. The clock and the
  deadline are two flags, and their callbacks `UpdateTimer` and `ShowResults`
  are methods that require the matching flag.
- Timer element: its text is the derived `TypingTest.TimerDisplay`, the `m:ss`
  text of the countdown. Every handler that changes the countdown rewrites the
  text, but the text in the page before the first such write is not part of
  this model.
- Statistics display: the rounding (`Math.round`), the percent formatting and
  `padEnd(4, '.0')` are floating-point and string decoration. The model keeps
  the exact rationals.
- Word lists: `generateWordList`, `shuffleWords` and `words.js` (which is not
  part of this model) choose and shuffle the words. The constructor and
  `ResetTest` take the resulting characters as a parameter.
- UI-only handlers: `changeTheme`, `showContent`, the button highlighting of
  `setDuration`, the hidden toggles of `startTest`, `showResults` and
  `resetTest`, and `router.tsx` are left out.
- `Words` layout: the font size, line height, JSX tree and keys are left out,
  and so are the commented-out word-block renewal and the `testType` prop.
- Undefined collaborators are preconditions:
  - `CanHandle` asks for a space at or before the third-line limit, because
    otherwise `nth-child(0)` finds no element.
  - It asks for an element after the cursor, so that `nextSibling` exists.
  - The constructor and `ResetTest` need a non-empty text, so that
    `firstChild` exists.
  - Durations must be positive.
- Session.TypingTest.SetDuration: in the page the button value is a string,
  and arithmetic coerces it to a number. The model takes that number as a
  positive integer.
- Words.Letters, Session.AfterInput: only text made of Basic Multilingual
  Plane characters is modelled. On such text `split('')`
  (src/components/words/Words.tsx:16, js/script.js:52) and
  `input.value.slice(-1)` (js/script.js:109) yield whole characters, one
  Dafny `char` each. A character outside that plane is two UTF-16 code units
  in JavaScript, and those surrogate halves are not Dafny `char` values.
