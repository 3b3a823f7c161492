/** The trial loop of `play`: a state machine fed one key press at a time.
    The terminal drawing and the blocking `event::read` are not modelled:
    the presses arrive as a finite sequence, each with the millisecond
    timestamp at which it is handled. One element of the text is one
    character (ASCII input), so character index and byte length agree. */
module Trial {

  /** Only `KeyCode::Char` presses are compared with the text; every other
      event is `Other`. */
  datatype Key = Char(c: char) | Other

  datatype Event = Press(key: Key, now: nat)

  /** The `State` enum. */
  datatype State =
    | PressEnterToStart
    | PreGame
    | Game(startTime: nat, pos: nat)
    | Result(startTime: nat, endTime: nat)

  /** How the loop stands once the presses are used up or it has stopped. */
  datatype Outcome =
    | Finished(startTime: nat, endTime: nat)  // `Result` reached: the loop breaks
    | Panicked(at: State)                      // an `unwrap` on a missing character
    | Waiting(at: State)                       // blocked on the next event

  /** The loop iteration in state s reaches `event::read`: it neither
      breaks nor panics on the character it expects. */
  predicate Reads(text: seq<char>, s: State)
  {
    match s
    case PressEnterToStart => true
    case PreGame => |text| > 0
    case Game(_, pos) => pos < |text|
    case Result(_, _) => false
  }

  /** The character the iteration in state s compares the key with. */
  function Awaited(text: seq<char>, s: State): char
    requires Reads(text, s)
  {
    match s
    case PressEnterToStart => ' '
    case PreGame => text[0]
    case Game(_, pos) => text[pos]
  }

  /** What holds of every state the loop passes through: the cursor starts
      at 1 and stays inside the text, except right after the first key of a
      one-character text, where the next iteration panics. */
  predicate Inv(text: seq<char>, s: State)
  {
    s.Game? ==> 1 <= s.pos && (s.pos < |text| || s.pos == |text| == 1)
  }

  /** One pass through the loop body that reads the press e. */
  function Step(text: seq<char>, s: State, e: Event): (r: State)
    requires Reads(text, s)
    ensures r != s <==> e.key == Char(Awaited(text, s))
    ensures s.PressEnterToStart? && r != s ==> r == PreGame
    ensures s.PreGame? && r != s ==> r == Game(e.now, 1)
    ensures Inv(text, s) ==> Inv(text, r)
    ensures s.Game? ==> (r.Game? || r.Result?) && r.startTime == s.startTime
    ensures s.Game? && r.Game? ==> r.pos == s.pos || r.pos == s.pos + 1
    ensures s.Game? && r.Result? <==> s.Game? && s.pos + 1 == |text| && e.key == Char(text[s.pos])
    ensures r.Result? ==> r.endTime == e.now
  {
    match s
    case PressEnterToStart =>
      if e.key == Char(' ') then PreGame else s
    case PreGame =>
      if e.key == Char(text[0]) then Game(e.now, 1) else s
    case Game(startTime, pos) =>
      if e.key == Char(text[pos]) then
        if pos + 1 == |text| then Result(startTime, e.now) else Game(startTime, pos + 1)
      else s
  }

  /** The loop of `play` driven by the presses in order, from state s. */
  function Run(text: seq<char>, s: State, events: seq<Event>): Outcome
    decreases |events|
  {
    if s.Result? then Finished(s.startTime, s.endTime)
    else if !Reads(text, s) then Panicked(s)
    else if events == [] then Waiting(s)
    else Run(text, Step(text, s, events[0]), events[1..])
  }

  /** `play`: the mutable `state` is reassigned inside the loop and the
      cursor is bumped in place. */
  method Play(text: seq<char>, events: seq<Event>) returns (outcome: Outcome)
    ensures outcome == Run(text, PressEnterToStart, events)
  {
    var state := PressEnterToStart;
    var i := 0;
    while true
      invariant 0 <= i <= |events|
      invariant Run(text, state, events[i..]) == Run(text, PressEnterToStart, events)
      decreases |events| - i
    {
      match state {
        case PressEnterToStart =>
          if i == |events| {
            return Waiting(state);
          }
          var e := events[i];
          assert events[i..][1..] == events[i + 1..];
          i := i + 1;
          if e.key == Char(' ') {
            state := PreGame;
          }
        case PreGame =>
          if |text| == 0 {
            return Panicked(state);
          }
          var currentChar := text[0];
          if i == |events| {
            return Waiting(state);
          }
          var e := events[i];
          assert events[i..][1..] == events[i + 1..];
          i := i + 1;
          if e.key == Char(currentChar) {
            state := Game(e.now, 1);
          }
        case Game(startTime, pos) =>
          if pos >= |text| {
            return Panicked(state);
          }
          var currentChar := text[pos];
          if i == |events| {
            return Waiting(state);
          }
          var e := events[i];
          assert events[i..][1..] == events[i + 1..];
          i := i + 1;
          if e.key == Char(currentChar) {
            state := state.(pos := pos + 1);
            if state.pos == |text| {
              state := Result(startTime, e.now);
            }
          }
        case Result(startTime, endTime) =>
          return Finished(startTime, endTime);
      }
    }
  }

  /** Presses that never match the awaited character change nothing: the
      loop is still waiting in the same state. */
  lemma {:induction false} IgnoredPressesChangeNothing(text: seq<char>, s: State, events: seq<Event>)
    requires Reads(text, s)
    requires forall i :: 0 <= i < |events| ==> events[i].key != Char(Awaited(text, s))
    ensures Run(text, s, events) == Waiting(s)
    decreases |events|
  {
    if events != [] {
      IgnoredPressesChangeNothing(text, s, events[1..]);
    }
  }

  /** Every state the loop reaches keeps Inv, so a panic from the start
      can only be the empty text in `PreGame` or a one-character text in
      `Game`. */
  lemma {:induction false} RunKeepsInv(text: seq<char>, s: State, events: seq<Event>)
    requires Inv(text, s)
    ensures Run(text, s, events).Panicked? ==> Inv(text, Run(text, s, events).at)
    ensures Run(text, s, events).Panicked? ==> !Reads(text, Run(text, s, events).at) && !Run(text, s, events).at.Result?
    ensures Run(text, s, events).Waiting? ==> Inv(text, Run(text, s, events).at)
    decreases |events|
  {
    if !s.Result? && Reads(text, s) && events != [] {
      RunKeepsInv(text, Step(text, s, events[0]), events[1..]);
    }
  }

  /** The loop panics only on a text of fewer than two characters. */
  lemma PanicsOnlyOnShortText(text: seq<char>, events: seq<Event>)
    ensures Run(text, PressEnterToStart, events).Panicked? ==> |text| < 2
  {
    RunKeepsInv(text, PressEnterToStart, events);
  }

  /** The characters of the `Char` presses, in order. */
  function Typed(events: seq<Event>): seq<char>
    decreases |events|
  {
    if events == [] then []
    else (if events[0].key.Char? then [events[0].key.c] else []) + Typed(events[1..])
  }

  /** t occurs in ks in order, not necessarily contiguously. */
  predicate Subsequence(t: seq<char>, ks: seq<char>)
    decreases |ks|
  {
    t == [] || (ks != [] && ((t[0] == ks[0] && Subsequence(t[1..], ks[1..])) || Subsequence(t, ks[1..])))
  }

  lemma {:induction false} SubsequenceDropFirst(t: seq<char>, ks: seq<char>)
    requires t != []
    ensures Subsequence(t, ks) ==> Subsequence(t[1..], ks)
    decreases |ks|
  {
    if Subsequence(t, ks) {
      if !(t[0] == ks[0] && Subsequence(t[1..], ks[1..])) {
        SubsequenceDropFirst(t, ks[1..]);
      }
      if t[1..] != [] {
        assert Subsequence(t[1..], ks[1..]);
      }
    }
  }

  /** Some press is of the space key. */
  predicate HasStart(events: seq<Event>)
  {
    exists i :: 0 <= i < |events| && events[i].key == Char(' ')
  }

  /** The index of the first press of the space key. */
  function FirstSpace(events: seq<Event>): (i: nat)
    requires HasStart(events)
    ensures i < |events| && events[i].key == Char(' ')
    ensures forall j :: 0 <= j < i ==> events[j].key != Char(' ')
    decreases |events|
  {
    if events[0].key == Char(' ') then 0
    else
      var k :| 0 <= k < |events| && events[k].key == Char(' ');
      assert events[1..][k - 1].key == Char(' ');
      var i := FirstSpace(events[1..]);
      assert forall j :: 0 < j <= i ==> events[1..][j - 1] == events[j];
      i + 1
  }

  /** The presses after the first press of the space key. */
  function AfterStart(events: seq<Event>): (r: seq<Event>)
    requires HasStart(events)
    ensures |r| < |events| && r == events[|events| - |r|..]
    ensures events[|events| - |r| - 1].key == Char(' ')
    ensures forall j :: 0 <= j < |events| - |r| - 1 ==> events[j].key != Char(' ')
  {
    events[FirstSpace(events) + 1..]
  }

  /** Skipping a first press that is not a space keeps what follows the
      first space. */
  lemma AfterStartSkip(events: seq<Event>)
    requires events != [] && events[0].key != Char(' ') && HasStart(events)
    ensures HasStart(events[1..]) && AfterStart(events) == AfterStart(events[1..])
  {
    var k :| 0 <= k < |events| && events[k].key == Char(' ');
    assert events[1..][k - 1].key == Char(' ');
    assert events[FirstSpace(events[1..]) + 2..] == events[1..][FirstSpace(events[1..]) + 1..];
  }

  /** In `Game` the machine matches the rest of the text greedily, and the
      greedy match succeeds exactly when a match exists. */
  lemma {:induction false} GameFinishes(text: seq<char>, st: nat, pos: nat, events: seq<Event>)
    requires 1 <= pos < |text|
    ensures Run(text, Game(st, pos), events).Finished? <==> Subsequence(text[pos..], Typed(events))
    decreases |events|
  {
    var rest := text[pos..];
    if events != [] {
      var e := events[0];
      var tail := Typed(events[1..]);
      assert rest[0] == text[pos] && rest[1..] == text[pos + 1..];
      if e.key == Char(text[pos]) {
        assert Typed(events) == [text[pos]] + tail;
        if pos + 1 == |text| {
          assert rest[1..] == [];
        } else {
          GameFinishes(text, st, pos + 1, events[1..]);
          if Subsequence(rest, tail) {
            SubsequenceDropFirst(rest, tail);
          }
        }
      } else {
        GameFinishes(text, st, pos, events[1..]);
        if e.key.Char? {
          assert Typed(events) == [e.key.c] + tail;
        } else {
          assert Typed(events) == tail;
        }
      }
    }
  }

  /** From `PreGame` on a text of two or more characters the trial
      finishes exactly when the text is typed in order among the presses. */
  lemma {:induction false} PreGameFinishes(text: seq<char>, events: seq<Event>)
    requires |text| >= 2
    ensures Run(text, PreGame, events).Finished? <==> Subsequence(text, Typed(events))
    decreases |events|
  {
    if events != [] {
      var e := events[0];
      var tail := Typed(events[1..]);
      if e.key == Char(text[0]) {
        assert Typed(events) == [text[0]] + tail;
        GameFinishes(text, e.now, 1, events[1..]);
        if Subsequence(text, tail) {
          SubsequenceDropFirst(text, tail);
        }
      } else {
        PreGameFinishes(text, events[1..]);
        if e.key.Char? {
          assert Typed(events) == [e.key.c] + tail;
        } else {
          assert Typed(events) == tail;
        }
      }
    }
  }

  /** On a text shorter than two characters the trial never finishes. */
  lemma {:induction false} ShortTextNeverFinishes(text: seq<char>, s: State, events: seq<Event>)
    requires |text| < 2 && !s.Result? && Inv(text, s)
    ensures !Run(text, s, events).Finished?
    decreases |events|
  {
    if Reads(text, s) && events != [] {
      ShortTextNeverFinishes(text, Step(text, s, events[0]), events[1..]);
    }
  }

  /** From the start, the trial reaches `Result` exactly when the text has
      two or more characters, a space has been pressed, and the text is
      typed in order among the presses after the first space. */
  lemma {:induction false} FinishesIff(text: seq<char>, events: seq<Event>)
    ensures Run(text, PressEnterToStart, events).Finished?
        <==> |text| >= 2 && HasStart(events) && Subsequence(text, Typed(AfterStart(events)))
    decreases |events|
  {
    if |text| < 2 {
      ShortTextNeverFinishes(text, PressEnterToStart, events);
    } else if events != [] {
      if events[0].key == Char(' ') {
        PreGameFinishes(text, events[1..]);
      } else {
        FinishesIff(text, events[1..]);
        if HasStart(events) {
          AfterStartSkip(events);
        }
        if HasStart(events[1..]) {
          var i :| 0 <= i < |events[1..]| && events[1..][i].key == Char(' ');
          assert events[i + 1].key == Char(' ');
        }
      }
    }
  }

  /** events[..n] is the shortest prefix of the presses among whose typed
      characters t occurs in order: press n - 1 completes t. */
  predicate CompletesFirstAt(t: seq<char>, events: seq<Event>, n: nat)
  {
    0 < n <= |events| && Subsequence(t, Typed(events[..n]))
    && forall j :: 0 <= j < n ==> !Subsequence(t, Typed(events[..j]))
  }

  /** Press i is the first press of the key c. */
  predicate FirstPressOf(c: char, events: seq<Event>, i: nat)
  {
    i < |events| && events[i].key == Char(c)
    && forall j :: 0 <= j < i ==> events[j].key != Char(c)
  }

  lemma TypedSplit(events: seq<Event>, j: nat)
    requires 0 < j <= |events|
    ensures Typed(events[..j])
         == (if events[0].key.Char? then [events[0].key.c] else []) + Typed(events[1..][..j - 1])
  {
    assert events[..j][1..] == events[1..][..j - 1];
  }

  /** A first press that types t[0] moves the first completion of t[1..]
      in the remaining presses one press later for t. */
  lemma CompletesAfterMatch(t: seq<char>, events: seq<Event>, n: nat)
    requires t != [] && events != [] && events[0].key == Char(t[0])
    requires CompletesFirstAt(t[1..], events[1..], n)
    ensures CompletesFirstAt(t, events, n + 1)
  {
    TypedSplit(events, n + 1);
    var x := Typed(events[1..][..n]);
    assert Typed(events[..n + 1]) == [t[0]] + x;
    assert ([t[0]] + x)[1..] == x;
    assert Subsequence(t[1..], x);
    forall j | 0 <= j < n + 1
      ensures !Subsequence(t, Typed(events[..j]))
    {
      if j == 0 {
        assert events[..0] == [];
      } else {
        TypedSplit(events, j);
        var y := Typed(events[1..][..j - 1]);
        assert Typed(events[..j]) == [t[0]] + y;
        assert ([t[0]] + y)[1..] == y;
        assert !Subsequence(t[1..], y);
        SubsequenceDropFirst(t, y);
      }
    }
  }

  /** A first press that does not type t[0] moves the first completion of t
      one press later. */
  lemma CompletesAfterSkip(t: seq<char>, events: seq<Event>, n: nat)
    requires t != [] && events != [] && events[0].key != Char(t[0])
    requires CompletesFirstAt(t, events[1..], n)
    ensures CompletesFirstAt(t, events, n + 1)
  {
    TypedSplit(events, n + 1);
    var x := Typed(events[1..][..n]);
    assert Subsequence(t, x);
    if events[0].key.Char? {
      assert ([events[0].key.c] + x)[1..] == x;
    } else {
      assert Typed(events[..n + 1]) == x;
    }
    forall j | 0 <= j < n + 1
      ensures !Subsequence(t, Typed(events[..j]))
    {
      if j == 0 {
        assert events[..0] == [];
      } else {
        TypedSplit(events, j);
        var y := Typed(events[1..][..j - 1]);
        assert !Subsequence(t, y);
        if events[0].key.Char? {
          assert ([events[0].key.c] + y)[1..] == y;
        } else {
          assert Typed(events[..j]) == y;
        }
      }
    }
  }

  /** From `Game { start_time, pos }` a finished trial keeps `start_time`,
      and its `end_time` is the timestamp of the press that first completes
      `text[pos..]` among the typed characters. */
  lemma {:induction false} GameFinishTimes(text: seq<char>, st: nat, pos: nat, events: seq<Event>)
    requires 1 <= pos < |text|
    ensures Run(text, Game(st, pos), events).Finished? ==>
              Run(text, Game(st, pos), events).startTime == st
              && exists n: nat :: CompletesFirstAt(text[pos..], events, n)
                             && Run(text, Game(st, pos), events).endTime == events[n - 1].now
    decreases |events|
  {
    var t := text[pos..];
    if events != [] {
      var e := events[0];
      assert t[0] == text[pos] && t[1..] == text[pos + 1..];
      if e.key == Char(text[pos]) {
        if pos + 1 == |text| {
          assert events[..1] == [e] && events[..0] == [];
          assert Typed(events[..1]) == [text[pos]];
          assert t == [text[pos]];
          assert CompletesFirstAt(t, events, 1);
        } else {
          GameFinishTimes(text, st, pos + 1, events[1..]);
          if Run(text, Game(st, pos + 1), events[1..]).Finished? {
            var n: nat :| CompletesFirstAt(text[pos + 1..], events[1..], n)
                     && Run(text, Game(st, pos + 1), events[1..]).endTime == events[1..][n - 1].now;
            CompletesAfterMatch(t, events, n);
            assert events[1..][n - 1] == events[n];
          }
        }
      } else {
        GameFinishTimes(text, st, pos, events[1..]);
        if Run(text, Game(st, pos), events[1..]).Finished? {
          var n: nat :| CompletesFirstAt(t, events[1..], n)
                   && Run(text, Game(st, pos), events[1..]).endTime == events[1..][n - 1].now;
          CompletesAfterSkip(t, events, n);
          assert events[1..][n - 1] == events[n];
        }
      }
    }
  }

  /** From `PreGame` a finished trial has as `start_time` the timestamp of
      the first press of `text[0]`, and as `end_time` the timestamp of the
      press that first completes the text among the typed characters. */
  lemma {:induction false} PreGameFinishTimes(text: seq<char>, events: seq<Event>)
    requires |text| >= 2
    ensures Run(text, PreGame, events).Finished? ==>
              (exists i: nat :: FirstPressOf(text[0], events, i)
                           && Run(text, PreGame, events).startTime == events[i].now)
              && exists n: nat :: CompletesFirstAt(text, events, n)
                             && Run(text, PreGame, events).endTime == events[n - 1].now
    decreases |events|
  {
    if events != [] {
      var e := events[0];
      if e.key == Char(text[0]) {
        GameFinishTimes(text, e.now, 1, events[1..]);
        if Run(text, Game(e.now, 1), events[1..]).Finished? {
          var n: nat :| CompletesFirstAt(text[1..], events[1..], n)
                   && Run(text, Game(e.now, 1), events[1..]).endTime == events[1..][n - 1].now;
          CompletesAfterMatch(text, events, n);
          assert events[1..][n - 1] == events[n];
          assert FirstPressOf(text[0], events, 0);
        }
      } else {
        PreGameFinishTimes(text, events[1..]);
        if Run(text, PreGame, events[1..]).Finished? {
          var i: nat :| FirstPressOf(text[0], events[1..], i)
                   && Run(text, PreGame, events[1..]).startTime == events[1..][i].now;
          var n: nat :| CompletesFirstAt(text, events[1..], n)
                   && Run(text, PreGame, events[1..]).endTime == events[1..][n - 1].now;
          CompletesAfterSkip(text, events, n);
          assert events[1..][n - 1] == events[n];
          assert events[1..][i] == events[i + 1];
          forall j | 0 <= j < i + 1
            ensures events[j].key != Char(text[0])
          {
            if j > 0 {
              assert events[j] == events[1..][j - 1];
            }
          }
          assert FirstPressOf(text[0], events, i + 1);
        }
      }
    }
  }

  /** From the start, a finished trial takes its `start_time` from the
      first press of `text[0]` after the first space, and its `end_time`
      from the press after that space that first completes the text. */
  lemma {:induction false} FinishTimes(text: seq<char>, events: seq<Event>)
    ensures Run(text, PressEnterToStart, events).Finished? ==>
              |text| >= 2 && HasStart(events)
              && (exists i: nat :: FirstPressOf(text[0], AfterStart(events), i)
                             && Run(text, PressEnterToStart, events).startTime == AfterStart(events)[i].now)
              && exists n: nat :: CompletesFirstAt(text, AfterStart(events), n)
                             && Run(text, PressEnterToStart, events).endTime == AfterStart(events)[n - 1].now
    decreases |events|
  {
    if |text| < 2 {
      ShortTextNeverFinishes(text, PressEnterToStart, events);
    } else if events != [] {
      if events[0].key == Char(' ') {
        assert HasStart(events);
        assert FirstSpace(events) == 0;
        assert AfterStart(events) == events[1..];
        PreGameFinishTimes(text, events[1..]);
      } else {
        FinishTimes(text, events[1..]);
        if Run(text, PressEnterToStart, events[1..]).Finished? {
          var i :| 0 <= i < |events[1..]| && events[1..][i].key == Char(' ');
          assert events[i + 1].key == Char(' ');
          assert HasStart(events);
          AfterStartSkip(events);
        }
      }
    }
  }

  /** From `PreGame` on a one-character text the loop panics exactly once
      that character has been typed: `Game { pos: 1 }` then fails at
      `nth(1).unwrap()`. */
  lemma {:induction false} PreGamePanicsOnSingleChar(text: seq<char>, events: seq<Event>)
    requires |text| == 1
    ensures Run(text, PreGame, events).Panicked? <==> Subsequence(text, Typed(events))
    decreases |events|
  {
    if events != [] {
      var e := events[0];
      var tail := Typed(events[1..]);
      assert text[1..] == [];
      if e.key == Char(text[0]) {
        assert Typed(events) == [text[0]] + tail;
        assert Run(text, PreGame, events) == Panicked(Game(e.now, 1));
      } else {
        PreGamePanicsOnSingleChar(text, events[1..]);
        if e.key.Char? {
          assert Typed(events) == [e.key.c] + tail;
          assert ([e.key.c] + tail)[1..] == tail;
        } else {
          assert Typed(events) == tail;
        }
      }
    }
  }

  /** From the start, the loop panics exactly when the text has fewer than
      two characters, a space has been pressed, and the text occurs in order
      among the presses after the first space: at once on the empty text,
      after its character on a one-character text. */
  lemma {:induction false} PanicsIff(text: seq<char>, events: seq<Event>)
    ensures Run(text, PressEnterToStart, events).Panicked?
        <==> |text| < 2 && HasStart(events) && Subsequence(text, Typed(AfterStart(events)))
    decreases |events|
  {
    PanicsOnlyOnShortText(text, events);
    if |text| < 2 && events != [] {
      if events[0].key == Char(' ') {
        assert HasStart(events);
        assert FirstSpace(events) == 0;
        assert AfterStart(events) == events[1..];
        if |text| == 1 {
          PreGamePanicsOnSingleChar(text, events[1..]);
        }
      } else {
        PanicsIff(text, events[1..]);
        if HasStart(events) {
          AfterStartSkip(events);
        }
        if HasStart(events[1..]) {
          var i :| 0 <= i < |events[1..]| && events[1..][i].key == Char(' ');
          assert events[i + 1].key == Char(' ');
        }
      }
    }
  }

  /** The timestamps never go backwards. */
  predicate Monotone(events: seq<Event>)
  {
    forall i, j :: 0 <= i <= j < |events| ==> events[i].now <= events[j].now
  }

  /** What the timestamps of state s promise about the presses still to come. */
  predicate TimesFit(s: State, events: seq<Event>)
  {
    match s
    case Game(st, _) => forall i :: 0 <= i < |events| ==> st <= events[i].now
    case Result(st, et) => st <= et
    case _ => true
  }

  /** With monotone timestamps a finished trial ends no earlier than it
      started, and a trial already in `Game` keeps its start time. */
  lemma {:induction false} FinishedTimesOrdered(text: seq<char>, s: State, events: seq<Event>)
    requires Monotone(events) && TimesFit(s, events)
    ensures Run(text, s, events).Finished? ==> Run(text, s, events).startTime <= Run(text, s, events).endTime
    ensures Run(text, s, events).Finished? && (s.Game? || s.Result?) ==> Run(text, s, events).startTime == s.startTime
    decreases |events|
  {
    if !s.Result? && Reads(text, s) && events != [] {
      var r := Step(text, s, events[0]);
      assert TimesFit(r, events[1..]) by {
        if r.Game? {
          forall i | 0 <= i < |events[1..]|
            ensures r.startTime <= events[1..][i].now
          {
            assert events[1..][i] == events[i + 1];
            if s.Game? {
              assert s.startTime <= events[i + 1].now;
            }
          }
        }
        if r.Result? {
          assert s.Game? && s.startTime <= events[0].now;
        }
      }
      FinishedTimesOrdered(text, r, events[1..]);
    }
  }

  /** The example run: "cat", a space, a wrong key, then c, a and t. */
  lemma CatExample()
    ensures Run("cat", PressEnterToStart,
                [Press(Char(' '), 0), Press(Char('x'), 500), Press(Char('c'), 1000),
                 Press(Char('a'), 2000), Press(Char('t'), 4000)])
         == Finished(1000, 4000)
  {
  }
}
