/** One round of the game (`ActiveRound` in game_state.cpp): the board's
    occupied cells, the snakes, and the append-only event log that
    `ActiveRound::event` writes. The plain `Round` base class is the same
    class with `active` false. */
module Rounds {
  import opened Ints
  import opened Wire
  import Prng

  /** `Position`: a board cell, a pair of `uint32_t`. */
  datatype Position = Position(x: uint32, y: uint32)

  /** A snake. Its `double` coordinates are represented by the cell they
      truncate to (`Snake::position`); `direction` is the heading in degrees. */
  datatype Snake = Snake(cell: Position, direction: uint32, lastTurnDirection: int32, eliminated: bool, name: seq<byte>)

  // ---------------------------------------------------------------------------
  // Heading arithmetic (ActiveRound::move)

  /** The heading update as written: `last_turn_direction` (`int32_t`) times
      `turning_speed` (`uint32_t`) is computed in `uint32_t`, added to the
      `uint32_t` heading with wrap-around, and only then reduced modulo 360. */
  function HeadingAsWritten(d: uint32, turn: int32, ts: uint32): (r: uint32)
    ensures r < 360
  {
    ToUint32(d + ToUint32(ToUint32(turn) * ts)) % 360
  }

  /** The heading update as intended: turn by `turn * ts` degrees modulo 360. */
  function Heading(d: uint32, turn: int32, ts: uint32): (r: uint32)
    ensures r < 360
  {
    (d + turn * ts) % 360
  }

  /** A left turn from a heading below the turning speed wraps around 2^32,
      and 2^32 is not a multiple of 360: the snake turns wrongly. */
  lemma HeadingCounterexample()
    ensures HeadingAsWritten(0, -1, 6) == 250
    ensures Heading(0, -1, 6) == 354
  {
    LeftTurnWraps(6);
    ModUnique(TWO_TO_32 - 6, TWO_TO_32, 0, TWO_TO_32 - 6);
    ModUnique(TWO_TO_32 - 6, 360, 11930464, 250);
    ModUnique(-6, 360, -1, 354);
  }

  /** For headings and turning speeds below 360 the written code agrees with
      the intended update except exactly for a left turn from a heading below
      the turning speed. */
  lemma HeadingAsWrittenAgrees(d: uint32, turn: int32, ts: uint32)
    requires d < 360 && ts < 360 && -1 <= turn <= 1
    ensures HeadingAsWritten(d, turn, ts) == Heading(d, turn, ts) <==> !(turn == -1 && d < ts)
  {
    if turn == -1 && ts > 0 {
      if d >= ts {
        LeftTurnAtLeastSpeed(d, ts);
      } else {
        LeftTurnBelowSpeedDiffers(d, ts);
      }
    } else {
      NoWrap(d, turn, ts);
    }
  }

  /** A left turn from a heading at least the turning speed wraps back into range. */
  lemma LeftTurnAtLeastSpeed(d: uint32, ts: uint32)
    requires 0 < ts <= d < 360
    ensures HeadingAsWritten(d, -1, ts) == Heading(d, -1, ts)
  {
    LeftTurnWraps(ts);
    ModUnique(d + TWO_TO_32 - ts, TWO_TO_32, 1, d - ts);
    assert HeadingAsWritten(d, -1, ts) == (d - ts) % 360;
  }

  lemma LeftTurnBelowSpeedDiffers(d: uint32, ts: uint32)
    requires d < ts < 360
    ensures HeadingAsWritten(d, -1, ts) != Heading(d, -1, ts)
  {
    LeftTurnWraps(ts);
    assert HeadingAsWritten(d, -1, ts) == (d + TWO_TO_32 - ts) % 360;
    LeftTurnBelowSpeed(d, ts);
  }

  /** Without a left turn nothing wraps. */
  lemma NoWrap(d: uint32, turn: int32, ts: uint32)
    requires d < 360 && ts < 360 && -1 <= turn <= 1 && !(turn == -1 && ts > 0)
    ensures HeadingAsWritten(d, turn, ts) == Heading(d, turn, ts)
  {
    var step := if turn == 1 then ts else 0;
    assert turn * ts == step;
    if turn == -1 {
      assert ts == 0;
    } else {
      ModUnique(turn, TWO_TO_32, 0, turn);
    }
    assert ToUint32(turn) * ts == step;
    ModUnique(step, TWO_TO_32, 0, step);
    ModUnique(d + step, TWO_TO_32, 0, d + step);
  }

  /** `(uint32_t)-1 * ts` wraps to `2^32 - ts`. */
  lemma LeftTurnWraps(ts: uint32)
    requires 0 < ts < 360
    ensures ToUint32(ToUint32(-1) * ts) == TWO_TO_32 - ts
  {
    assert (TWO_TO_32 - 1) * ts == (ts - 1) * TWO_TO_32 + (TWO_TO_32 - ts);
    ModUnique((TWO_TO_32 - 1) * ts, TWO_TO_32, ts - 1, TWO_TO_32 - ts);
  }

  /** 2^32 = 11930464 * 360 + 256, so the wrapped sum is off by 256 - 360. */
  lemma LeftTurnBelowSpeed(d: uint32, ts: uint32)
    requires d < ts < 360
    ensures (d + TWO_TO_32 - ts) % 360 != (d - ts) % 360
  {
    ModUnique(d - ts, 360, -1, d - ts + 360);
    if d - ts + 256 >= 0 {
      ModUnique(d + TWO_TO_32 - ts, 360, 11930464, d - ts + 256);
    } else {
      ModUnique(d + TWO_TO_32 - ts, 360, 11930463, d - ts + 616);
    }
  }

  /** The heading after `k` ticks with the same turn direction. */
  function Turned(d: uint32, turn: int32, ts: uint32, k: nat): (r: uint32)
  {
    if k == 0 then d else Heading(Turned(d, turn, ts, k - 1), turn, ts)
  }

  lemma {:induction false} TurnedClosedForm(d: uint32, turn: int32, ts: uint32, k: nat)
    requires d < 360
    ensures Turned(d, turn, ts, k) == (d + k * (turn * ts)) % 360
  {
    var t := turn * ts;
    if k == 0 {
      assert k * t == 0;
    } else {
      var prev := Turned(d, turn, ts, k - 1);
      assert prev == (d + (k - 1) * t) % 360 by {
        TurnedClosedForm(d, turn, ts, k - 1);
      }
      assert Turned(d, turn, ts, k) == (prev + t) % 360;
      TurnStep(d, t, k);
    }
  }

  /** One more turn by `t` on top of `k - 1` of them. */
  lemma TurnStep(d: int, t: int, k: nat)
    requires k > 0
    ensures ((d + (k - 1) * t) % 360 + t) % 360 == (d + k * t) % 360
  {
    ModAdd(d + (k - 1) * t, t, 360);
    assert k * t == (k - 1) * t + t;
  }

  /** Turning by a multiple of 360 degrees in all brings the snake back to its
      heading; with turning speed 6, every 60 ticks. */
  lemma FullCircle(d: uint32, ts: uint32, k: nat)
    requires d < 360 && (k * ts) % 360 == 0
    ensures Turned(d, 1, ts, k) == d
  {
    TurnedClosedForm(d, 1, ts, k);
    ModAdd(k * ts, d, 360);
  }

  // ---------------------------------------------------------------------------
  // Conversions and the roster

  /** The `char` player number a `size_t` index is stored in. */
  function PlayerNumber(i: nat): byte {
    i % TWO_TO_8
  }

  /** `snakes.size() - eliminated <= 1`, computed in `size_t`. */
  predicate GameOverDue(snakeCount: nat, eliminated: nat) {
    (snakeCount - eliminated) % TWO_TO_64 <= 1
  }

  function Names(snakes: seq<Snake>): (r: seq<seq<byte>>)
    ensures |r| == |snakes|
    ensures forall i :: 0 <= i < |snakes| ==> r[i] == snakes[i].name
  {
    if snakes == [] then [] else Names(snakes[..|snakes| - 1]) + [snakes[|snakes| - 1].name]
  }

  /** Where a snake's move lands it. */
  datatype Outcome = Stay | Paint | Crash

  function MoveOutcome(oldCell: Position, newCell: Position, taken: set<Position>): Outcome {
    if oldCell == newCell then Stay else if newCell !in taken then Paint else Crash
  }

  /** The snake after turning and stepping into `newCell`. The turn uses the
      corrected heading `Heading`, in every tick, including the as-written one. */
  function Stepped(s: Snake, newCell: Position, turningSpeed: uint32): (r: Snake)
  {
    s.(direction := Heading(s.direction, s.lastTurnDirection, turningSpeed), cell := newCell)
  }

  /** The snake after its move, eliminated if it ran into a taken cell. */
  function Landed(s: Snake, newCell: Position, turningSpeed: uint32, taken: set<Position>): (r: Snake)
  {
    var moved := Stepped(s, newCell, turningSpeed);
    if MoveOutcome(s.cell, newCell, taken) == Crash then moved.(eliminated := true) else moved
  }

  /** Whether a move with this outcome ends the round: a crash that leaves at
      most one snake by the count of eliminations. */
  predicate Ends(outcome: Outcome, snakeCount: nat, eliminated: nat) {
    outcome == Crash && GameOverDue(snakeCount, eliminated + 1)
  }

  /** The events a move raises: a pixel for a fresh cell; for an occupied one
      the elimination, followed by game over when the round ends. */
  function MoveEvents(player: nat, newCell: Position, outcome: Outcome, snakeCount: nat, eliminated: nat): (r: seq<GameEvent>)
  {
    match outcome
    case Stay => []
    case Paint => [Pixel(PlayerNumber(player), newCell.x, newCell.y)]
    case Crash =>
      [PlayerEliminated(PlayerNumber(player))] + (if Ends(outcome, snakeCount, eliminated) then [GameOver] else [])
  }

  // ---------------------------------------------------------------------------
  // A tick on values

  /** The parts of a round that moves change. */
  datatype Tick = Tick(snakes: seq<Snake>, taken: set<Position>, eliminated: nat, events: seq<GameEvent>,
                       finished: bool, gameOver: bool, recent: bool)

  /** `move(s, player)` on values. */
  function MoveTick(s: Tick, player: nat, newCell: Position, ts: uint32): (r: Tick)
    requires player < |s.snakes|
    ensures |r.snakes| == |s.snakes| && r.snakes[player].cell == newCell
    ensures r.snakes[player].name == s.snakes[player].name
    ensures forall j :: 0 <= j < |s.snakes| && j != player ==> r.snakes[j] == s.snakes[j]
    ensures s.taken <= r.taken && s.events <= r.events && s.eliminated <= r.eliminated
    ensures s.finished ==> r.finished
  {
    var o := MoveOutcome(s.snakes[player].cell, newCell, s.taken);
    var ends := Ends(o, |s.snakes|, s.eliminated);
    Tick(s.snakes[player := Landed(s.snakes[player], newCell, ts, s.taken)],
         if o == Paint then s.taken + {newCell} else s.taken,
         if o == Crash then s.eliminated + 1 else s.eliminated,
         s.events + MoveEvents(player, newCell, o, |s.snakes|, s.eliminated),
         s.finished || ends, s.gameOver || ends, s.recent || o != Stay)
  }

  /** `cycle()` as written, over its first `k` snakes: every snake moves,
      eliminated or not, and whether or not the round has just ended. Only the
      heading is the corrected one (see `Stepped`). */
  function CycleAsWritten(s: Tick, cells: seq<Position>, ts: uint32, k: nat): (r: Tick)
    requires |cells| == |s.snakes| && k <= |cells|
    ensures |r.snakes| == |s.snakes|
    ensures s.taken <= r.taken && s.events <= r.events && s.eliminated <= r.eliminated
  {
    if k == 0 then s else MoveTick(CycleAsWritten(s, cells, ts, k - 1), k - 1, cells[k - 1], ts)
  }

  /** The intended tick, over its first `k` snakes: only snakes still in the
      game move, and only while the round is not finished. */
  function CycleOfLiving(s: Tick, cells: seq<Position>, ts: uint32, k: nat): (r: Tick)
    requires |cells| == |s.snakes| && k <= |cells|
    ensures |r.snakes| == |s.snakes|
    ensures s.taken <= r.taken && s.events <= r.events && s.eliminated <= r.eliminated
    ensures s.finished ==> r.finished
  {
    if k == 0 then s
    else
      var p := CycleOfLiving(s, cells, ts, k - 1);
      if p.finished || p.snakes[k - 1].eliminated then p else MoveTick(p, k - 1, cells[k - 1], ts)
  }

  /** As written, every snake in the first `k` ends in its new cell, the rest
      are untouched, no snake is renamed or revived, and the occupied cells
      and the events only grow. */
  lemma {:induction false} CycleAsWrittenMoves(s: Tick, cells: seq<Position>, ts: uint32, k: nat)
    requires |cells| == |s.snakes| && k <= |cells|
    ensures var r := CycleAsWritten(s, cells, ts, k);
      && (forall i :: 0 <= i < k ==> r.snakes[i].cell == cells[i])
      && (forall i :: k <= i < |s.snakes| ==> r.snakes[i] == s.snakes[i])
      && (forall i :: 0 <= i < |s.snakes| ==> r.snakes[i].name == s.snakes[i].name)
      && (forall i :: 0 <= i < |s.snakes| && s.snakes[i].eliminated ==> r.snakes[i].eliminated)
  {
    if k > 0 {
      CycleAsWrittenMoves(s, cells, ts, k - 1);
    }
  }

  function CountGameOver(es: seq<GameEvent>): nat {
    if es == [] then 0 else CountGameOver(es[..|es| - 1]) + (if es[|es| - 1] == GameOver then 1 else 0)
  }

  lemma {:induction false} CountGameOverAppend(a: seq<GameEvent>, b: seq<GameEvent>)
    ensures CountGameOver(a + b) == CountGameOver(a) + CountGameOver(b)
  {
    if b != [] {
      assert (a + b)[..|a + b| - 1] == a + b[..|b| - 1];
      CountGameOverAppend(a, b[..|b| - 1]);
    } else {
      assert a + b == a;
    }
  }

  lemma CountGameOverSuffix(prev: seq<GameEvent>, base: nat, es: seq<GameEvent>)
    requires base <= |prev|
    ensures CountGameOver((prev + es)[base..]) == CountGameOver(prev[base..]) + CountGameOver(es)
  {
    assert (prev + es)[base..] == prev[base..] + es;
    CountGameOverAppend(prev[base..], es);
  }

  /** A move raises game over exactly when it ends the round. */
  lemma MoveEventsGameOver(player: nat, newCell: Position, o: Outcome, n: nat, e: nat)
    ensures CountGameOver(MoveEvents(player, newCell, o, n, e)) == (if Ends(o, n, e) then 1 else 0)
  {
    var es := MoveEvents(player, newCell, o, n, e);
    if o == Crash {
      var pe := [PlayerEliminated(PlayerNumber(player))];
      assert pe[..0] == [];
      assert CountGameOver(pe) == 0;
      if Ends(o, n, e) {
        assert es == pe + [GameOver] && es[..1] == pe;
      } else {
        assert es == pe;
      }
    }
  }

  /** Two snakes that both run into taken cells in the same tick: as written,
      the second crash raises GAME_OVER again after the round has ended. */
  lemma GameOverTwiceAsWritten()
    ensures var a, b := Position(0, 0), Position(1, 1);
      var s := Tick([Snake(a, 0, 0, false, [65]), Snake(b, 0, 0, false, [66])], {a, b}, 0, [], false, false, false);
      && CycleAsWritten(s, [b, a], 0, 2).events == [PlayerEliminated(0), GameOver, PlayerEliminated(1), GameOver]
      && CycleOfLiving(s, [b, a], 0, 2).events == [PlayerEliminated(0), GameOver]
  {
    var a, b := Position(0, 0), Position(1, 1);
    var s := Tick([Snake(a, 0, 0, false, [65]), Snake(b, 0, 0, false, [66])], {a, b}, 0, [], false, false, false);
    var cells := [b, a];
    assert MoveOutcome(a, b, {a, b}) == Crash && MoveOutcome(b, a, {a, b}) == Crash;
    assert GameOverDue(2, 1) && GameOverDue(2, 2);
    assert CycleAsWritten(s, cells, 0, 0) == s && CycleOfLiving(s, cells, 0, 0) == s;
    var s1 := MoveTick(s, 0, b, 0);
    assert s1.events == [PlayerEliminated(0), GameOver] && s1.eliminated == 1 && s1.finished;
    assert s1.snakes[1] == s.snakes[1] && s1.taken == {a, b};
    assert CycleAsWritten(s, cells, 0, 1) == s1 && CycleOfLiving(s, cells, 0, 1) == s1;
    var s2 := MoveTick(s1, 1, a, 0);
    assert s2.events == s1.events + [PlayerEliminated(1), GameOver];
    assert CycleAsWritten(s, cells, 0, 2) == s2;
  }

  /** A finished round does not change. */
  lemma {:induction false} CycleOfLivingFrozen(s: Tick, cells: seq<Position>, ts: uint32, k: nat)
    requires |cells| == |s.snakes| && k <= |cells| && s.finished
    ensures CycleOfLiving(s, cells, ts, k) == s
  {
    if k > 0 {
      CycleOfLivingFrozen(s, cells, ts, k - 1);
    }
  }

  /** A tick of an unfinished round appends at most one GAME_OVER, and one
      exactly when it finishes the round; the earlier events stay. */
  lemma {:induction false} CycleOfLivingGameOverOnce(s: Tick, cells: seq<Position>, ts: uint32, k: nat)
    requires |cells| == |s.snakes| && k <= |cells| && !s.finished
    ensures var r := CycleOfLiving(s, cells, ts, k);
      && s.events <= r.events
      && CountGameOver(r.events[|s.events|..]) == (if r.finished then 1 else 0)
  {
    var r := CycleOfLiving(s, cells, ts, k);
    if k == 0 {
      assert r.events[|s.events|..] == [];
    } else {
      var p := CycleOfLiving(s, cells, ts, k - 1);
      CycleOfLivingGameOverOnce(s, cells, ts, k - 1);
      if !(p.finished || p.snakes[k - 1].eliminated) {
        var o := MoveOutcome(p.snakes[k - 1].cell, cells[k - 1], p.taken);
        var es := MoveEvents(k - 1, cells[k - 1], o, |p.snakes|, p.eliminated);
        assert r.events == p.events + es;
        CountGameOverSuffix(p.events, |s.events|, es);
        MoveEventsGameOver(k - 1, cells[k - 1], o, |p.snakes|, p.eliminated);
      }
    }
  }

  function CountEliminated(snakes: seq<Snake>): (r: nat)
    ensures r <= |snakes|
  {
    if snakes == [] then 0
    else CountEliminated(snakes[..|snakes| - 1]) + (if snakes[|snakes| - 1].eliminated then 1 else 0)
  }

  /** Replacing a snake changes the count by the change in its own flag. */
  lemma {:induction false} CountEliminatedUpdate(snakes: seq<Snake>, i: nat, t: Snake)
    requires i < |snakes|
    ensures CountEliminated(snakes[i := t]) + (if snakes[i].eliminated then 1 else 0)
         == CountEliminated(snakes) + (if t.eliminated then 1 else 0)
  {
    var n := |snakes| - 1;
    if i < n {
      assert snakes[i := t][..n] == snakes[..n][i := t];
      CountEliminatedUpdate(snakes[..n], i, t);
    } else {
      assert snakes[i := t][..n] == snakes[..n];
    }
  }

  /** A tick that moves only living snakes keeps the elimination counter equal
      to the number of eliminated snakes, so `snakes.size() - eliminated`
      never wraps around. */
  lemma {:induction false} CycleOfLivingCountsEliminated(s: Tick, cells: seq<Position>, ts: uint32, k: nat)
    requires |cells| == |s.snakes| && k <= |cells| && s.eliminated == CountEliminated(s.snakes)
    ensures var r := CycleOfLiving(s, cells, ts, k);
      r.eliminated == CountEliminated(r.snakes) && r.eliminated <= |r.snakes|
  {
    if k > 0 {
      var p := CycleOfLiving(s, cells, ts, k - 1);
      CycleOfLivingCountsEliminated(s, cells, ts, k - 1);
      if !(p.finished || p.snakes[k - 1].eliminated) {
        MoveTickCountsEliminated(p, k - 1, cells[k - 1], ts);
      }
    }
  }

  /** One move of a live snake keeps the counter equal to the number of
      eliminated snakes. */
  lemma MoveTickCountsEliminated(s: Tick, player: nat, newCell: Position, ts: uint32)
    requires player < |s.snakes| && !s.snakes[player].eliminated && s.eliminated == CountEliminated(s.snakes)
    ensures var r := MoveTick(s, player, newCell, ts); r.eliminated == CountEliminated(r.snakes)
  {
    var t := Landed(s.snakes[player], newCell, ts, s.taken);
    assert t.eliminated <==> MoveOutcome(s.snakes[player].cell, newCell, s.taken) == Crash;
    CountEliminatedUpdate(s.snakes, player, t);
  }

  /** A snake eliminated before the tick neither moves nor changes. */
  lemma {:induction false} CycleOfLivingSkipsEliminated(s: Tick, cells: seq<Position>, ts: uint32, k: nat, i: nat)
    requires |cells| == |s.snakes| && k <= |cells| && i < |s.snakes| && s.snakes[i].eliminated
    ensures CycleOfLiving(s, cells, ts, k).snakes[i] == s.snakes[i]
  {
    if k > 0 {
      CycleOfLivingSkipsEliminated(s, cells, ts, k - 1, i);
    }
  }

  // ---------------------------------------------------------------------------
  // The event log

  /** Byte strings one after another. */
  function Concat(fs: seq<seq<byte>>): (r: seq<byte>)
  {
    if fs == [] then [] else Concat(fs[..|fs| - 1]) + fs[|fs| - 1]
  }

  /** Where each piece starts in `Concat(fs)`. */
  function Starts(fs: seq<seq<byte>>): (r: seq<nat>)
    ensures |r| == |fs|
  {
    if fs == [] then [] else Starts(fs[..|fs| - 1]) + [|Concat(fs[..|fs| - 1])|]
  }

  lemma ConcatAppend(fs: seq<seq<byte>>, f: seq<byte>)
    ensures Concat(fs + [f]) == Concat(fs) + f
    ensures Starts(fs + [f]) == Starts(fs) + [|Concat(fs)|]
  {
    assert (fs + [f])[..|fs|] == fs;
  }

  /** Concatenating fewer pieces gives a prefix. */
  lemma {:induction false} ConcatPrefix(fs: seq<seq<byte>>, i: nat)
    requires i <= |fs|
    ensures Concat(fs[..i]) <= Concat(fs)
  {
    if i < |fs| {
      var n := |fs| - 1;
      assert fs[..n][..i] == fs[..i];
      ConcatPrefix(fs[..n], i);
    } else {
      assert fs[..i] == fs;
    }
  }

  lemma {:induction false} StartsAt(fs: seq<seq<byte>>, i: nat)
    requires i < |fs|
    ensures Starts(fs)[i] == |Concat(fs[..i])|
  {
    var n := |fs| - 1;
    if i < n {
      assert fs[..n][..i] == fs[..i];
      StartsAt(fs[..n], i);
    }
  }

  /** Piece `i` lies in the concatenation at its start offset. */
  lemma ConcatAt(fs: seq<seq<byte>>, i: nat)
    requires i < |fs|
    ensures var off := Starts(fs)[i];
      off + |fs[i]| <= |Concat(fs)| && Concat(fs)[off..off + |fs[i]|] == fs[i]
  {
    StartsAt(fs, i);
    assert fs[..i + 1][..i] == fs[..i];
    ConcatPrefix(fs, i + 1);
    var head, whole := Concat(fs[..i]), Concat(fs);
    assert whole[..|head| + |fs[i]|] == head + fs[i];
  }

  lemma SliceOfSlice(s: seq<byte>, lo: nat, hi: nat, i: nat, j: nat)
    requires lo <= hi <= |s| && i <= j <= hi - lo
    ensures s[lo..hi][i..j] == s[lo + i..lo + j]
  {
    assert forall k | 0 <= k < j - i :: s[lo..hi][i..j][k] == s[lo + i + k];
  }

  /** Event `i` framed with sequence number `i`. */
  function Framed(e: GameEvent, i: nat, crc: seq<byte> -> uint32, host: Endianness): (r: seq<byte>)
  {
    Frame(Payload(e, host), i, crc, host)
  }

  /** The frames of an event sequence, numbered from 0. */
  function Frames(events: seq<GameEvent>, crc: seq<byte> -> uint32, host: Endianness): (r: seq<seq<byte>>)
    ensures |r| == |events|
  {
    seq(|events|, i requires 0 <= i < |events| => Framed(events[i], i, crc, host))
  }

  /** The log of `events`: their frames one after another. */
  function Log(events: seq<GameEvent>, crc: seq<byte> -> uint32, host: Endianness): seq<byte>
  {
    Concat(Frames(events, crc, host))
  }

  /** The start offset of each frame in the log. */
  function Offsets(events: seq<GameEvent>, crc: seq<byte> -> uint32, host: Endianness): (r: seq<nat>)
    ensures |r| == |events|
  {
    Starts(Frames(events, crc, host))
  }

  /** `history` and `positions` are the frames of `events`, one after another,
      and the offset of each; `frames` names the pieces. */
  ghost predicate LogOf(events: seq<GameEvent>, frames: seq<seq<byte>>, history: seq<byte>, positions: seq<nat>,
                        crc: seq<byte> -> uint32, host: Endianness)
  {
    && |frames| == |events|
    && (forall i {:trigger Framed(events[i], i, crc, host)} :: 0 <= i < |events| ==> frames[i] == Framed(events[i], i, crc, host))
    && history == Concat(frames)
    && positions == Starts(frames)
  }

  /** In a well-formed log, frame `i` sits at the `i`-th recorded offset. */
  lemma LogFrameAt(events: seq<GameEvent>, frames: seq<seq<byte>>, history: seq<byte>, positions: seq<nat>,
                   i: nat, crc: seq<byte> -> uint32, host: Endianness)
    requires LogOf(events, frames, history, positions, crc, host) && i < |events|
    ensures var off, f := positions[i], Framed(events[i], i, crc, host);
      off + |f| <= |history| && history[off..off + |f|] == f
  {
    assert frames[i] == Framed(events[i], i, crc, host);
    ConcatAt(frames, i);
  }

  /** A frame found at offset `off` carries its sequence number and payload
      there. */
  lemma FrameFields(history: seq<byte>, off: nat, e: GameEvent, i: nat, crc: seq<byte> -> uint32, host: Endianness)
    requires var f := Framed(e, i, crc, host); off + |f| <= |history| && history[off..off + |f|] == f
    ensures var f := Framed(e, i, crc, host);
      && FromBigEndian(history[off + 4..off + 8]) == i % TWO_TO_32
      && history[off + 8..off + |f| - 4] == Payload(e, host)
  {
    var p := Payload(e, host);
    var f := Framed(e, i, crc, host);
    assert |f| >= 12 && FromBigEndian(f[4..8]) == i % TWO_TO_32 && f[8..|f| - 4] == p by {
      FrameLayout(p, i, crc, host);
    }
    FramePieces(history, off, f, p, i);
  }

  /** The number and payload fields of a frame copied into a larger buffer. */
  lemma FramePieces(history: seq<byte>, off: nat, f: seq<byte>, p: seq<byte>, i: nat)
    requires |f| >= 12 && off + |f| <= |history| && history[off..off + |f|] == f
    requires FromBigEndian(f[4..8]) == i % TWO_TO_32 && f[8..|f| - 4] == p
    ensures FromBigEndian(history[off + 4..off + 8]) == i % TWO_TO_32
    ensures history[off + 8..off + |f| - 4] == p
  {
    SliceOfSlice(history, off, off + |f|, 4, 8);
    SliceOfSlice(history, off, off + |f|, 8, |f| - 4);
  }

  lemma LogOfEmpty(crc: seq<byte> -> uint32, host: Endianness)
    ensures LogOf([], [], [], [], crc, host)
  {
  }

  /** Appending an event's frame keeps the log well formed. */
  lemma LogStep(events: seq<GameEvent>, frames: seq<seq<byte>>, history: seq<byte>, positions: seq<nat>,
                e: GameEvent, crc: seq<byte> -> uint32, host: Endianness)
    requires LogOf(events, frames, history, positions, crc, host)
    ensures var f := Framed(e, |events|, crc, host);
      LogOf(events + [e], frames + [f], history + f, positions + [|history|], crc, host)
  {
    var f := Framed(e, |events|, crc, host);
    ConcatAppend(frames, f);
    forall i | 0 <= i < |events| + 1
      ensures (frames + [f])[i] == Framed((events + [e])[i], i, crc, host)
    {
      if i < |events| {
        assert (events + [e])[i] == events[i];
        assert frames[i] == Framed(events[i], i, crc, host);
      }
    }
  }

  /** Headings are kept reduced modulo 360. */
  ghost predicate Headings(snakes: seq<Snake>) {
    forall i :: 0 <= i < |snakes| ==> snakes[i].direction < 360
  }

  // ---------------------------------------------------------------------------
  // Snake::Snake

  /** The snake constructor: `x`, `y` and the heading are drawn from the
      generator in that order; `x = next() % maxx + 0.5` lies in cell
      `next() % maxx`, and likewise for `y`. */
  method NewSnake(name: seq<byte>, direction: int32, maxx: uint32, maxy: uint32, gen: Prng.Generator) returns (s: Snake)
    requires maxx > 0 && maxy > 0 && gen.Valid()
    modifies gen
    ensures gen.Valid() && gen.calls == old(gen.calls) + 3
    ensures s.cell == Position(Prng.Output(gen.seed, old(gen.calls)) % maxx, Prng.Output(gen.seed, old(gen.calls) + 1) % maxy)
    ensures s.direction == Prng.Output(gen.seed, old(gen.calls) + 2) % 360
    ensures s.lastTurnDirection == direction && !s.eliminated && s.name == name
  {
    var x := gen.Next();
    var y := gen.Next();
    var d := gen.Next();
    s := Snake(Position(x % maxx, y % maxy), d % 360, direction, false, name);
  }

  // ---------------------------------------------------------------------------
  // The round

  class Round {
    /** False for the plain `Round` the game state starts with. */
    const active: bool
    const gameSpeed: uint32
    const turningSpeed: uint32
    const maxx: uint32
    const maxy: uint32
    const gameId: uint32
    const host: Endianness
    /** zlib's `crc32(0, ·, ·)`, a routine outside this model. */
    const crc: seq<byte> -> uint32

    var takenPxls: set<Position>
    var snakes: seq<Snake>
    var eventsHistory: seq<byte>
    var eventsPositions: seq<nat>
    var eliminated: nat
    var roundFinished: bool
    var gameOverRaised: bool
    var recentEvents: bool
    /** The events appended so far, in order. */
    ghost var events: seq<GameEvent>
    /** `events[i]` framed with sequence number `i`. */
    ghost var frames: seq<seq<byte>>

    /** The byte log is the frames of `events` one after another, the index
        holds where each starts, and every heading is below 360. */
    ghost predicate Valid()
      reads this
    {
      LogOf(events, frames, eventsHistory, eventsPositions, crc, host) && Headings(snakes)
    }

    /** The history is the log of the events, and the index its frame offsets. */
    lemma HistoryIsLog()
      requires Valid()
      ensures eventsHistory == Log(events, crc, host)
      ensures eventsPositions == Offsets(events, crc, host)
    {
      var fs := Frames(events, crc, host);
      assert forall i | 0 <= i < |events| :: fs[i] == Framed(events[i], i, crc, host);
      assert frames == fs;
    }

    /** The plain `Round` a game state holds before any round has started. */
    constructor Placeholder(host: Endianness, crc: seq<byte> -> uint32)
      ensures Valid() && !active
      ensures takenPxls == {} && snakes == [] && eliminated == 0
      ensures !roundFinished && !gameOverRaised && !recentEvents
      ensures events == [] && eventsHistory == [] && eventsPositions == []
    {
      active := false;
      gameSpeed, turningSpeed, maxx, maxy, gameId := 0, 0, 0, 0, 0;
      this.host, this.crc := host, crc;
      takenPxls, snakes, eventsHistory, eventsPositions := {}, [], [], [];
      eliminated, roundFinished, gameOverRaised, recentEvents := 0, false, false, false;
      events, frames := [], [];
    }

    /** `ActiveRound(gs, ts, mx, my)`: the board's constants and a game id drawn
        from the generator; the roster is passed in. */
    constructor (gs: uint32, ts: uint32, mx: uint32, my: uint32, roster: seq<Snake>,
                 host: Endianness, crc: seq<byte> -> uint32, gen: Prng.Generator)
      requires gen.Valid()
      requires forall i :: 0 <= i < |roster| ==> roster[i].direction < 360
      modifies gen
      ensures Valid() && active
      ensures gameSpeed == gs && turningSpeed == ts && maxx == mx && maxy == my
      ensures gen.Valid() && gen.calls == old(gen.calls) + 1
      ensures gameId == Prng.Output(gen.seed, old(gen.calls))
      ensures takenPxls == {} && snakes == roster && eliminated == 0
      ensures !roundFinished && !gameOverRaised && !recentEvents
      ensures events == [] && eventsHistory == [] && eventsPositions == []
    {
      var id := gen.Next();
      active := true;
      gameSpeed, turningSpeed, maxx, maxy, gameId := gs, ts, mx, my, id;
      this.host, this.crc := host, crc;
      takenPxls, snakes, eventsHistory, eventsPositions := {}, roster, [], [];
      eliminated, roundFinished, gameOverRaised, recentEvents := 0, false, false, false;
      events, frames := [], [];
    }

    /** `is_active()`: whether this is an `ActiveRound`, and whether it is
        still running. */
    function Progress(): (r: (bool, bool))
      reads this`roundFinished
      ensures r.1 ==> r.0
    {
      (active, active && !roundFinished)
    }

    /** `direction(snake_id, direction)`: record a snake's turn direction. */
    method Direction(snakeId: nat, direction: uint32)
      requires Valid() && snakeId < |snakes|
      modifies this`snakes
      ensures Valid()
      ensures snakes == old(snakes)[snakeId := old(snakes)[snakeId].(lastTurnDirection := ToInt32(direction))]
    {
      snakes := snakes[snakeId := snakes[snakeId].(lastTurnDirection := ToInt32(direction))];
    }

    /** `event(e)`: frame the event with the next sequence number and append it. */
    method Event(e: GameEvent)
      requires Valid()
      modifies this`eventsHistory, this`eventsPositions, this`recentEvents, this`events, this`frames
      ensures Valid() && recentEvents && events == old(events) + [e]
      ensures eventsHistory == old(eventsHistory) + Framed(e, |old(events)|, crc, host)
      ensures eventsPositions == old(eventsPositions) + [|old(eventsHistory)|]
    {
      recentEvents := true;
      var es := Payload(e, host);
      // `Event::serialize(length, event_no, es)` with `length = |es| + 12`
      // and `event_no` the number of frames so far
      var s := FrameBody(es, |eventsPositions|, host);
      var c := crc(s);
      s := s + NativeBytes(c, 4, host);
      assert s == Framed(e, |events|, crc, host);
      LogStep(events, frames, eventsHistory, eventsPositions, e, crc, host);
      eventsPositions := eventsPositions + [|eventsHistory|];
      eventsHistory := eventsHistory + s;
      events, frames := events + [e], frames + [s];
    }

    /** `new_game()`: a NEW_GAME event with the board size and every snake's
        name followed by one space. */
    method NewGame()
      requires Valid()
      modifies this`eventsHistory, this`eventsPositions, this`recentEvents, this`events, this`frames
      ensures Valid() && recentEvents
      ensures events == old(events) + [GameEvent.NewGame(maxx, maxy, JoinWith(Names(snakes), SPACE))]
    {
      var names: seq<byte> := [];
      var i := 0;
      while i < |snakes|
        invariant 0 <= i <= |snakes|
        invariant names == JoinWith(Names(snakes[..i]), SPACE)
      {
        assert snakes[..i + 1][..i] == snakes[..i];
        names := names + snakes[i].name + [SPACE];
        i := i + 1;
      }
      assert snakes[..i] == snakes;
      Event(GameEvent.NewGame(maxx, maxy, names));
    }

    /** `game_over()`. */
    method GameOver()
      requires Valid()
      modifies this`eventsHistory, this`eventsPositions, this`recentEvents, this`events, this`frames
      ensures Valid() && recentEvents && events == old(events) + [GameEvent.GameOver]
    {
      Event(GameEvent.GameOver);
    }

    /** `pixel(s, player)`: a PIXEL event at the snake's current cell. */
    method Pixel(player: nat)
      requires Valid() && player < |snakes|
      modifies this`eventsHistory, this`eventsPositions, this`recentEvents, this`events, this`frames
      ensures Valid() && recentEvents
      ensures events == old(events) + [GameEvent.Pixel(PlayerNumber(player), snakes[player].cell.x, snakes[player].cell.y)]
    {
      var p := snakes[player].cell;
      Event(GameEvent.Pixel(PlayerNumber(player), p.x, p.y));
    }

    /** `player_eliminated(player)`. */
    method PlayerEliminated(player: nat)
      requires Valid()
      modifies this`eventsHistory, this`eventsPositions, this`recentEvents, this`events, this`frames
      ensures Valid() && recentEvents && events == old(events) + [GameEvent.PlayerEliminated(PlayerNumber(player))]
    {
      Event(GameEvent.PlayerEliminated(PlayerNumber(player)));
    }

    /** `move(s, player)`: turn, step into `newCell` (the physics is outside
        this model), then paint a fresh cell or eliminate the snake on an
        occupied one. */
    method Move(player: nat, newCell: Position)
      requires Valid() && player < |snakes|
      modifies this`snakes, this`takenPxls, this`eliminated, this`roundFinished, this`gameOverRaised, this`eventsHistory, this`eventsPositions, this`recentEvents, this`events, this`frames
      ensures Valid()
      ensures snakes == old(snakes)[player := Landed(old(snakes)[player], newCell, turningSpeed, old(takenPxls))]
      ensures takenPxls == (if MoveOutcome(old(snakes)[player].cell, newCell, old(takenPxls)) == Paint
                            then old(takenPxls) + {newCell} else old(takenPxls))
      ensures eliminated == (if MoveOutcome(old(snakes)[player].cell, newCell, old(takenPxls)) == Crash
                             then old(eliminated) + 1 else old(eliminated))
      ensures events == old(events) + MoveEvents(player, newCell, MoveOutcome(old(snakes)[player].cell, newCell, old(takenPxls)),
                                                 |old(snakes)|, old(eliminated))
      ensures roundFinished == (old(roundFinished) || Ends(MoveOutcome(old(snakes)[player].cell, newCell, old(takenPxls)), |old(snakes)|, old(eliminated)))
      ensures gameOverRaised == (old(gameOverRaised) || Ends(MoveOutcome(old(snakes)[player].cell, newCell, old(takenPxls)), |old(snakes)|, old(eliminated)))
      ensures recentEvents == (old(recentEvents) || MoveOutcome(old(snakes)[player].cell, newCell, old(takenPxls)) != Stay)
    {
      var oldCell := snakes[player].cell;
      snakes := snakes[player := Stepped(snakes[player], newCell, turningSpeed)];
      if oldCell != newCell {
        if newCell !in takenPxls {
          takenPxls := takenPxls + {newCell};
          Pixel(player);
        } else {
          Eliminate(player);
        }
      }
    }

    /** The crash branch of `move`: the elimination event, the snake's flag
        and the counter; the round ends, with a game-over event, once at
        most one snake is left by the count. */
    method Eliminate(player: nat)
      requires Valid() && player < |snakes|
      modifies this`snakes, this`eliminated, this`roundFinished, this`gameOverRaised, this`eventsHistory, this`eventsPositions, this`recentEvents, this`events, this`frames
      ensures Valid()
      ensures snakes == old(snakes)[player := old(snakes)[player].(eliminated := true)]
      ensures eliminated == old(eliminated) + 1
      ensures events == old(events) + [GameEvent.PlayerEliminated(PlayerNumber(player))]
                        + (if GameOverDue(|snakes|, eliminated) then [GameEvent.GameOver] else [])
      ensures roundFinished == (old(roundFinished) || GameOverDue(|snakes|, eliminated))
      ensures gameOverRaised == (old(gameOverRaised) || GameOverDue(|snakes|, eliminated))
      ensures recentEvents
    {
      PlayerEliminated(player);
      snakes := snakes[player := snakes[player].(eliminated := true)];
      eliminated := eliminated + 1;
      if (|snakes| - eliminated) % TWO_TO_64 <= 1 {
        GameOver();
        roundFinished := true;
        gameOverRaised := true;
      }
    }

    /** The state a tick changes. */
    ghost function TickOf(): Tick
      reads this
    {
      Tick(snakes, takenPxls, eliminated, events, roundFinished, gameOverRaised, recentEvents)
    }

    /** `cycle()`: move every snake, in roster order, into its next cell. */
    method Cycle(cells: seq<Position>)
      requires Valid() && |cells| == |snakes|
      modifies this`snakes, this`takenPxls, this`eliminated, this`roundFinished, this`gameOverRaised, this`eventsHistory, this`eventsPositions, this`recentEvents, this`events, this`frames
      ensures Valid()
      ensures TickOf() == CycleAsWritten(old(TickOf()), cells, turningSpeed, |cells|)
    {
      var player := 0;
      while player < |snakes|
        invariant Valid() && 0 <= player <= |snakes| == |cells|
        invariant TickOf() == CycleAsWritten(old(TickOf()), cells, turningSpeed, player)
      {
        Move(player, cells[player]);
        player := player + 1;
      }
    }

    /** The tick as intended: eliminated snakes and a finished round stay put. */
    method CycleLiving(cells: seq<Position>)
      requires Valid() && |cells| == |snakes|
      modifies this`snakes, this`takenPxls, this`eliminated, this`roundFinished, this`gameOverRaised, this`eventsHistory, this`eventsPositions, this`recentEvents, this`events, this`frames
      ensures Valid()
      ensures TickOf() == CycleOfLiving(old(TickOf()), cells, turningSpeed, |cells|)
    {
      var player := 0;
      while player < |snakes|
        invariant Valid() && 0 <= player <= |snakes| == |cells|
        invariant TickOf() == CycleOfLiving(old(TickOf()), cells, turningSpeed, player)
      {
        if !roundFinished && !snakes[player].eliminated {
          Move(player, cells[player]);
        }
        player := player + 1;
      }
    }
  }
}
