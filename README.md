# GorillaType trial core in Dafny

GorillaType is a terminal typing trial. It loads a text and fits it to a
`count` argument. It waits for the space key, then for the user to type the
text one character at a time, and reports the typing speed at the end. This
project models the two pieces of logic in `src/main.rs` and proves facts
about them:

- **Normalizer** (`normalizer.dfy`): the block of `main0` that fits the
  text to `count`. The method `Normalize` appends to and reassigns a local
  `text` the way the source does with `push_str`. It is proved equal to
  `Normalized`, which describes the outcome case by case, including the
  two panics. `Cycle(source, n)` gives the first `n` characters of
  `source, " ", source, " ", ...`, and is the exact form of a successful
  padding.
- **Trial** (`trial.dfy`): the loop of `play`. `Step` is one pass through
  the loop body that reads a key press. `Run` drives the loop over a
  finite sequence of presses. `Play` is the loop as the source writes it:
  a mutable `state` and a cursor bumped in place. It is proved equal to
  `Run`. A run ends in `Finished` (the source reached `State::Result` and
  broke out of the loop), `Panicked` (an `unwrap` on a missing character)
  or `Waiting` (the presses ran out while the source blocks in
  `event::read`).

Keys are `Char(c)` or `Other`, since only `KeyCode::Char` codes are
compared. A timestamp is a `nat` that comes with each press. One sequence
element is one character, which matches the source on ASCII text.

The model follows the code as written. In particular:
- the padding branch puts no space in front of the text; only the
  truncation branch does (src/main.rs:144-147);
- an empty text with a non-zero count divides by zero and panics
  (src/main.rs:143);
- a text of one character panics after its first correct key, because
  `nth(1).unwrap()` runs before any length check (src/main.rs:99);
- `calculate_wpm` has no guard against zero elapsed time
  (src/main.rs:51-53; not modelled, see below).

## Model

| member | source | states |
|---|---|---|
| Normalizer.Normalize | src/main.rs:139-149 | The result equals `Normalized`. It succeeds exactly when count is 0, count is at most the text length, or the padding condition holds. When padding succeeds, the result is the text, `text_repeat` copies of `" " + text`, then `" "` and the first `count - (len + text_repeat * (len + 1)) - 1` characters of the text, where `len` is the original length. |
| Normalizer.Repeat | src/main.rs:144 | `s.repeat(n)` has length `n * |s|`. |
| Normalizer.Cycle | src/main.rs:141-145 | The cycle prefix of the text has exactly the requested length. |
| Normalizer.CycleShape | src/main.rs:141-145 | A cycle of at least the text's length has exactly `n` characters, starts with the text, and is a prefix of `text + " "` repeated. |
| Normalizer.CyclePrefixOfRepeat | src/main.rs:144-145 | The cycle of length `n` is the first `n` characters of `(text + " ").repeat(q)` whenever that string is long enough. |
| Normalizer.CycleOfPeriods | src/main.rs:144-145 | `m` whole periods plus `k` characters of the cycle are `m` copies of `text + " "` followed by the first `k` characters of `text + " "`. |
| Normalizer.RepeatRotate | src/main.rs:144 | The text followed by `n` copies of `" " + text` equals `n` copies of `text + " "` followed by the text. |
| Normalizer.PadArithmetic | src/main.rs:143-145 | The subtraction on line 145 stays non-negative exactly when `(count-len) % len >= (count-len)/len + 1`. The slice taken then lies inside the text. |
| Normalizer.PaddedForm | src/main.rs:143-145 | Under the padding condition, the source's construction (text, copies of `" " + text`, `" "`, tail slice) is exactly `Cycle(text, count)`. |
| Normalizer.Normalized | src/main.rs:140-149 | A definition with no `ensures`: the block as written, case by case, panics included. `Normalize` is proved equal to it. `NormalizedUnpadded`, `NormalizedPadding` and `PaddedForm` characterise its results. |
| Normalizer.NormalizedUnpadded | src/main.rs:140-149 | If count is 0 or equals the length, the text is unchanged. If the text is longer, the result is `" " + text[..count]`, of length `count + 1`. |
| Normalizer.NormalizedPadding | src/main.rs:141-145 | If `0 < len < count`, padding succeeds exactly under the padding condition. Then the result has length `count`, starts with the text, and is a prefix of `text + " "` repeated. |
| Normalizer.PaddingDefinedBelowDouble | src/main.rs:143-145 | If `len < count < 2 * len`, padding never panics. |
| Normalizer.CatToSevenPanics | src/main.rs:143-145 | `"cat"` with count 7 reaches the underflow on line 145. |
| Normalizer.NormalizedIntended | src/main.rs:23 | A definition with no `ensures`: the padding the help text describes, with no underflow case. `IntendedPadding` characterises it and relates it to `Normalized`. |
| Normalizer.IntendedPadding | src/main.rs:23 | Intended padding always succeeds on non-empty text. The result is exactly `count` long, starts with the text, follows the cycle, and equals the code's result whenever the code does not panic. |
| Trial.Step | src/main.rs:69-114 | One pass through the loop. The state changes exactly when the key is the awaited character (a space, then `text[0]`, then `text[pos]`). From `PressEnterToStart` the only change is to `PreGame`. From `PreGame` the only change is to `Game { start_time: now, pos: 1 }`. `Inv` is preserved. In `Game`, `start_time` is kept and `pos` grows by at most one. `Game` becomes `Result` exactly when the key matches the last character, with `end_time` equal to the press's timestamp. |
| Trial.Run | src/main.rs:55-135 | A definition with no `ensures`: the loop of `play` over a finite sequence of presses, stopping in `Result`, at a missing character, or when the presses run out. `Play` is proved equal to it. `RunKeepsInv`, `FinishesIff`, `PanicsIff` and `FinishTimes` characterise its outcomes. |
| Trial.Play | src/main.rs:55-135 | The imperative loop of `play` ends as the recursive `Run` does from `PressEnterToStart`. |
| Trial.IgnoredPressesChangeNothing | src/main.rs:85-108 | Any number of presses that do not match the awaited character leave the state unchanged, and the loop keeps waiting. |
| Trial.RunKeepsInv | src/main.rs:95-114 | In every state the loop stops or waits in, `1 <= pos` holds and `pos` stays below the text length; the one exception is the one-character text. A panic happens only in a state whose iteration cannot read its character. |
| Trial.PanicsOnlyOnShortText | src/main.rs:85-99 | Starting from `PressEnterToStart`, the loop panics only if the text has fewer than two characters. |
| Trial.PreGamePanicsOnSingleChar | src/main.rs:85-99 | From `PreGame` on a one-character text, the loop panics exactly when that character has been typed. |
| Trial.PanicsIff | src/main.rs:55-135 | From the start, the loop panics exactly when three things hold. The text has fewer than two characters. A space was pressed. The text occurs in order among the characters typed after the first space. |
| Trial.ShortTextNeverFinishes | src/main.rs:85-99 | On a text of fewer than two characters, `Result` is never reached. |
| Trial.GameFinishes | src/main.rs:95-116 | From `Game { pos }`, the trial finishes exactly when `text[pos..]` occurs in order, not necessarily contiguously, among the typed characters. |
| Trial.PreGameFinishes | src/main.rs:74-116 | From `PreGame`, on a text of two or more characters, the trial finishes exactly when the whole text occurs in order among the typed characters. |
| Trial.FinishesIff | src/main.rs:55-135 | From the start, `Result` is reached exactly when three things hold. The text has two or more characters. A space was pressed. The text occurs in order among the characters typed after the first space. |
| Trial.AfterStart | src/main.rs:69-72 | The presses left after the first press of the space key. Nothing before that press is a space. |
| Trial.FirstSpace | src/main.rs:69-72 | The index of the first press of the space key: that press is a space and no earlier press is. |
| Trial.GameFinishTimes | src/main.rs:95-114 | From `Game { start_time, pos }`, a finished trial keeps `start_time`. Its `end_time` is the timestamp of the press that first completes `text[pos..]` as an in-order subsequence of the typed characters. |
| Trial.PreGameFinishTimes | src/main.rs:85-114 | From `PreGame`, a finished trial's `start_time` is the timestamp of the first press of `text[0]`. Its `end_time` is the timestamp of the press that first completes the whole text among the typed characters. |
| Trial.FinishTimes | src/main.rs:55-135 | From the start, a finished trial's `start_time` is the timestamp of the first press of `text[0]` after the first space. Its `end_time` is the timestamp of the press after that space that first completes the text. |
| Trial.FinishedTimesOrdered | src/main.rs:89-113 | With non-decreasing timestamps, a finished trial has `start_time <= end_time`. A trial already in `Game` keeps its `start_time` until `Result`. |
| Trial.CatExample | src/main.rs:55-135 | On `"cat"`, pressing space, `x`, then `c` at 1000, `a`, and `t` at 4000 finishes with start 1000 and end 4000. |

## Left out

- Command-line parsing with `clap` (src/main.rs:18-26, 138): library-driven argument handling; `count` is a parameter.
- Reading the file and decoding UTF-8 (src/main.rs:29-37): I/O; the text is a parameter.
- All terminal drawing (`execute!`, `Clear`, `MoveTo`, `Print`) and the blocking `event::read`: terminal I/O. Presses are a finite input sequence.
- `get_current_duration` / `SystemTime` (src/main.rs:47-49): the clock is not modelled. Each press carries the timestamp that the source reads right after the key matches. `SystemTime::now` is a wall clock that can move backwards, so the source itself does not guarantee `end_time >= start_time`; Trial.FinishedTimesOrdered proves it only for presses whose timestamps never decrease (its `Monotone` precondition).
- `calculate_wpm` and the rounding to one decimal (src/main.rs:51-53, 127): floating point.
- Non-ASCII text: the source mixes byte lengths (lines 109, 141-147) with character indexing (lines 85, 99). One sequence element is one character throughout the model.
- `main`, `exit` and the error printing (src/main.rs:154-159): process plumbing.
- Enter and Tab: crossterm reports them as `KeyCode::Enter` and `KeyCode::Tab`, not `KeyCode::Char`. A press of `Char('\n')`, `Char('\r')` or `Char('\t')` therefore never happens. A text containing one of those characters, such as a file ending in a newline loaded with count 0, never finishes. The model's `Key` admits those presses and does not capture that.
- Integer widths: `count` and `pos` are `usize`, and the timestamps are `u128`; the model uses unbounded `nat`. For `count` near `usize::MAX`, `.repeat` on line 144 fails earlier, on capacity overflow or allocation. The model does not capture that failure.
- Trial.Play: the state is a local variable of `play` and is passed on as a value. The `ref mut pos` borrow is modelled as replacing the cursor field; nothing else aliases it.

## Findings

| source | as written | input that shows it | evidently intended | confidence | as-written member | corrected member |
|---|---|---|---|---|---|---|
| src/main.rs:143-145 | After `text_repeat = (count-len)/len` copies of `" " + text`, the length of the last piece is `count - text.len() - 1`. That value goes below zero whenever `(count-len) % len < (count-len)/len + 1`, and the program panics. A debug build panics on the `usize` underflow itself; a release build, with overflow checks off by default, wraps to a huge value, and the out-of-range slice `&source[..n]` on the same line panics instead. | text `"cat"`, count 7: `text_repeat` is 1, the text grows to `"cat cat"`, and `7 - 7 - 1` goes below zero. | Pad any non-empty text that is shorter than count. The help text on line 23 says "same text used repeatly". The result is the first `count` characters of `text, " ", text, ...`, which is what the code produces whenever it does not panic. | high; not executed | Normalizer.CatToSevenPanics | Normalizer.NormalizedIntended, Normalizer.IntendedPadding |

The trial takes any text, so no other member depends on which
normalization is used.
