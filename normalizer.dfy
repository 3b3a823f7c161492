/** The normalization block of `main0`: before the trial starts, the loaded
    text is adjusted to the `count` argument. A count of 0 keeps the whole
    text; a longer text is cut to `count` characters behind one space; a
    shorter text is followed by more copies of itself, each behind a space,
    until it is exactly `count` characters long. One element of a sequence
    stands for one byte, which is one character on ASCII input. */
module Normalizer {

  /** The ways the block can panic. */
  datatype Panic =
    | DivisionByZero  // `(count - len) / len` with an empty text
    | SliceUnderflow  // `count - text.len() - 1` goes below zero: a debug build
                      // panics on the underflow, a release build wraps and
                      // the out-of-range slice panics

  datatype Outcome = Ok(text: seq<char>) | Panicked(reason: Panic)

  /** `s.repeat(n)`: n copies of s, back to back. */
  function Repeat(s: seq<char>, n: nat): (r: seq<char>)
    ensures |r| == n * |s|
  {
    if n == 0 then [] else s + Repeat(s, n - 1)
  }

  lemma {:induction false} RepeatSnoc(s: seq<char>, n: nat)
    ensures Repeat(s, n + 1) == Repeat(s, n) + s
  {
    if n > 0 {
      RepeatSnoc(s, n - 1);
    }
  }

  /** The text followed by n copies of " " + text is n copies of text + " "
      followed by the text. */
  lemma {:induction false} RepeatRotate(s: seq<char>, n: nat)
    ensures s + Repeat([' '] + s, n) == Repeat(s + [' '], n) + s
  {
    if n > 0 {
      RepeatRotate(s, n - 1);
      calc {
        s + Repeat([' '] + s, n);
        s + (([' '] + s) + Repeat([' '] + s, n - 1));
        (s + [' ']) + (s + Repeat([' '] + s, n - 1));
        (s + [' ']) + (Repeat(s + [' '], n - 1) + s);
        Repeat(s + [' '], n) + s;
      }
    }
  }

  /** The first n characters of the endless text
      source, " ", source, " ", source, ... */
  function Cycle(source: seq<char>, n: nat): (r: seq<char>)
    ensures |r| == n
    decreases n
  {
    var unit := source + [' '];
    if n < |unit| then unit[..n] else unit + Cycle(source, n - |unit|)
  }

  /** m whole periods and k more characters of the cycle. */
  lemma {:induction false} CycleOfPeriods(source: seq<char>, m: nat, k: nat)
    requires k <= |source| + 1
    ensures Cycle(source, m * (|source| + 1) + k) == Repeat(source + [' '], m) + (source + [' '])[..k]
  {
    var unit := source + [' '];
    if m > 0 {
      var n := m * |unit| + k;
      CycleOfPeriods(source, m - 1, k);
      assert Cycle(source, n) == unit + Cycle(source, (m - 1) * |unit| + k);
    }
  }

  /** The cycle is a prefix of `(source + " ").repeat(q)` once that is long
      enough. */
  lemma {:induction false} CyclePrefixOfRepeat(source: seq<char>, n: nat, q: nat)
    requires n <= q * (|source| + 1)
    ensures Cycle(source, n) == Repeat(source + [' '], q)[..n]
  {
    var unit := source + [' '];
    if q > 0 {
      assert Repeat(unit, q) == unit + Repeat(unit, q - 1);
      if n >= |unit| {
        CyclePrefixOfRepeat(source, n - |unit|, q - 1);
        assert (unit + Repeat(unit, q - 1))[..n] == unit + Repeat(unit, q - 1)[..n - |unit|];
      }
    }
  }

  /** What the padding produces: exactly n characters, starting with the
      source, and a prefix of `source + " "` repeated. */
  lemma CycleShape(source: seq<char>, n: nat)
    requires |source| <= n
    ensures |Cycle(source, n)| == n
    ensures Cycle(source, n)[..|source|] == source
    ensures Cycle(source, n) <= Repeat(source + [' '], n)
  {
    var unit := source + [' '];
    assert n <= n * |unit|;
    CyclePrefixOfRepeat(source, n, n);
    assert Cycle(source, n)[..|source|] == unit[..|source|];
  }

  /** `text_repeat` of the padding branch. */
  function PadRepeats(len: nat, count: nat): nat
    requires 0 < len <= count
  {
    (count - len) / len
  }

  /** Whether the padding branch gets through the subtraction
      `count - text.len() - 1` without going below zero. */
  predicate PaddingDefined(len: nat, count: nat)
  {
    0 < len < count && (count - len) % len >= (count - len) / len + 1
  }

  /** The length of the last, partial copy of the source. */
  function PadTail(len: nat, count: nat): nat
    requires PaddingDefined(len, count)
  {
    PadArithmetic(len, count);
    count - (len + PadRepeats(len, count) * (len + 1)) - 1
  }

  /** The guard at the subtraction is exactly PaddingDefined, and the tail
      slice stays inside the source. */
  lemma PadArithmetic(len: nat, count: nat)
    requires 0 < len < count
    ensures PaddingDefined(len, count) <==> len + PadRepeats(len, count) * (len + 1) < count
    ensures PaddingDefined(len, count) ==> count - (len + PadRepeats(len, count) * (len + 1)) - 1 < len
  {
    var d, r, m := count - len, (count - len) / len, (count - len) % len;
    assert d == r * len + m;
    assert r * (len + 1) == r * len + r;
  }

  /** Behaviour of the normalization block as written, panics included. */
  function Normalized(text: seq<char>, count: nat): Outcome
  {
    if count == 0 || |text| == count then Ok(text)
    else if |text| > count then Ok([' '] + text[..count])
    else if |text| == 0 then Panicked(DivisionByZero)
    else if PaddingDefined(|text|, count) then Ok(Cycle(text, count))
    else Panicked(SliceUnderflow)
  }

  /** The padding is the source, then `text_repeat` copies of " " + source,
      then " " and the first PadTail characters of the source. */
  lemma PaddedForm(source: seq<char>, count: nat)
    requires PaddingDefined(|source|, count)
    ensures Cycle(source, count)
         == source + Repeat([' '] + source, PadRepeats(|source|, count))
            + ([' '] + source[..PadTail(|source|, count)])
  {
    var len, r, k := |source|, PadRepeats(|source|, count), PadTail(|source|, count);
    var unit := source + [' '];
    PadArithmetic(len, count);
    assert count == (r + 1) * (len + 1) + k;
    CycleOfPeriods(source, r + 1, k);
    RepeatRotate(source, r);
    RepeatSnoc(unit, r);
    assert unit[..k] == source[..k];
    calc {
      Cycle(source, count);
      Repeat(unit, r + 1) + unit[..k];
      (Repeat(unit, r) + source) + ([' '] + source[..k]);
      (source + Repeat([' '] + source, r)) + ([' '] + source[..k]);
    }
  }

  /** The normalization of lines 140-149: `text` is appended to in place or
      replaced, as the source does with `push_str` and reassignment. */
  method Normalize(loaded: seq<char>, count: nat) returns (res: Outcome)
    ensures res == Normalized(loaded, count)
    ensures res.Ok? <==> count == 0 || count <= |loaded| || PaddingDefined(|loaded|, count)
    ensures PaddingDefined(|loaded|, count) ==>
              res.text == loaded + Repeat([' '] + loaded, PadRepeats(|loaded|, count))
                          + ([' '] + loaded[..PadTail(|loaded|, count)])
  {
    var text := loaded;
    if count != 0 {
      if |text| < count {
        var source := text;
        if |source| == 0 {
          return Panicked(DivisionByZero);
        }
        var textRepeat := (count - |source|) / |source|;
        text := text + Repeat([' '] + source, textRepeat);
        PadArithmetic(|source|, count);
        if count <= |text| {
          return Panicked(SliceUnderflow);
        }
        var tail := count - |text| - 1;
        text := text + ([' '] + source[..tail]);
        PaddedForm(source, count);
      } else if |text| > count {
        text := [' '] + text[..count];
      }
    }
    return Ok(text);
  }

  /** Outcomes of `Normalized` that the padding branch does not produce. */
  lemma NormalizedUnpadded(text: seq<char>, count: nat)
    requires count == 0 || count <= |text|
    ensures count == 0 || |text| == count ==> Normalized(text, count) == Ok(text)
    ensures 0 < count < |text| ==> Normalized(text, count) == Ok([' '] + text[..count])
    ensures 0 < count < |text| ==> |Normalized(text, count).text| == count + 1
  {
  }

  /** When it succeeds, padding gives exactly `count` characters that start
      with the source and follow the cycle source, " ", source, ... */
  lemma NormalizedPadding(text: seq<char>, count: nat)
    requires 0 < |text| < count
    ensures Normalized(text, count).Ok? <==> PaddingDefined(|text|, count)
    ensures Normalized(text, count).Ok? ==>
              var r := Normalized(text, count).text;
              |r| == count && r[..|text|] == text && r <= Repeat(text + [' '], count)
  {
    CycleShape(text, count);
  }

  /** Padding cannot fail when the text is more than half the target. */
  lemma PaddingDefinedBelowDouble(len: nat, count: nat)
    requires 0 < len < count < 2 * len
    ensures PaddingDefined(len, count)
  {
    assert (count - len) / len == 0;
  }

  /** "cat" padded to 7 characters: text_repeat is 1, the text grows to
      "cat cat", and 7 - 7 - 1 goes below zero. */
  lemma CatToSevenPanics()
    ensures Normalized("cat", 7) == Panicked(SliceUnderflow)
  {
  }

  /** The padding the command's help text describes ("same text used
      repeatly"): every non-empty text shorter than the target is padded. */
  function NormalizedIntended(text: seq<char>, count: nat): Outcome
  {
    if count == 0 || |text| == count then Ok(text)
    else if |text| > count then Ok([' '] + text[..count])
    else if |text| == 0 then Panicked(DivisionByZero)
    else Ok(Cycle(text, count))
  }

  /** The intended padding always succeeds on a non-empty text, has exactly
      `count` characters and follows the cycle; where the code as written
      succeeds, it gives the same text. */
  lemma IntendedPadding(text: seq<char>, count: nat)
    requires 0 < |text| < count
    ensures NormalizedIntended(text, count).Ok?
    ensures |NormalizedIntended(text, count).text| == count
    ensures NormalizedIntended(text, count).text[..|text|] == text
    ensures NormalizedIntended(text, count).text <= Repeat(text + [' '], count)
    ensures Normalized(text, count).Ok? ==> Normalized(text, count) == NormalizedIntended(text, count)
  {
    CycleShape(text, count);
  }
}
