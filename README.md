# sik2 game server core in Dafny

A model of the server side of sik2, a networked multiplayer snake game, and
proofs about it. Clients send datagrams carrying their session id, their turn
direction, the number of the next event they expect, and their player name.
The server keeps a registry of up to 42 players, keyed by socket address. It
also keeps a queue of players waiting to be notified and the current round.
While a round runs, the snakes move across a board of cells. Every move that
paints or hits a cell appends a framed, numbered event to the round's log.

The model has these modules:

- `Ints` (ints.dfy): the C++ fixed-width types and the wrap-around conversions between them.
- `Wrappers` (wrappers.dfy): `Option` and `Result`.
- `Prng` (generator.dfy): the multiplicative congruential generator, as a class with one state field.
- `Utils` (utils.dfy): socket-address equality, `str2uint32_t` and `is_valid_port`.
- `Wire` (wire.dfy), which covers:
  - `htonT`, modelled over an `Endianness` parameter;
  - the integer, string and variadic `parse` overloads;
  - the four event payloads;
  - the frame that `ActiveRound::event` builds;
  - a decoder for payloads and frames, which is the partner of the round-trip lemmas.
- `Rounds` (round.dfy): `ActiveRound` as the class `Round`, covering the byte log, the offsets index, the collision rule of `move` and `cycle`. It also holds value-level definitions that the class methods are proved against: the state of a tick (the datatype `Tick`), one move on it (`MoveTick`), and a whole tick whose snake loop is as written (`CycleAsWritten`) or corrected (`CycleOfLiving`). Both turn the snakes with the corrected heading.
- `Registry` (registry.dfy): `GameState` as a class, covering the player vector, the pending set and queue, the id counter and the round. It also holds value-level definitions of what each operation does to the vector (`RemoveAt`, `Kept`, `Admit`, `NewPlayer`, `Refreshed`, `Registered`, `Enqueue`, `EnqueueAll`, `ArrowsCleared`).

Parameters where the model cannot see the value:

- The host byte order is a parameter (`Wire.Endianness`).
- zlib's `crc32` is a function-valued constant of each round.
- `INACTIVITY_TOLERANCE` is a constant of the game state. No source file of the repository defines it.
- The cell a snake's floating-point position reaches after a step is an input to `Move` and `Cycle`.

The model follows the code, including these behaviours a reader of the protocol might not expect:

- `update_game_state_on_player_message` starts a round as soon as two players have a name and have pressed an arrow. It only counts those players (game_state.cpp:140-150).
- Nothing checks that a player name is unique.
- The frame length field is the payload size plus 12, so it covers the whole frame (game_state.cpp:195).
- Constructing a round emits no NEW_GAME event: `new_game` is a separate call.
- `cycle` moves every snake, eliminated or not (see Findings).
- `move` never checks the board bounds. A snake that leaves the board keeps painting cells outside it, and `position()` casts a negative `double` to `uint32_t`. The model reproduces this: the next cell given to `Move` is any pair of `uint32` values.
- The source never assigns the `type` member of the event structs. The model writes the protocol's event type values: NEW_GAME 0, PIXEL 1, PLAYER_ELIMINATED 2, GAME_OVER 3.
- game_state.cpp uses members that the repository's game_state.h does not declare, so it was written against a newer header. The model takes the state the .cpp uses, and only `MAX_PLAYERS` and `Position` from game_state.h.

## Model

| member | source | states |
|---|---|---|
| Ints.ToUint32 | game_state.cpp:244 | conversion to `uint32_t` is congruent to its argument modulo 2^32 |
| Ints.ToInt32 | game_state.cpp:171-174 | conversion of a `uint32_t` to `int32_t` is congruent modulo 2^32 |
| Ints.Int32RoundTrip | game_state.cpp:117 | an `int32` value passed through `uint32_t` and back into `last_turn_direction` is unchanged |
| Prng.ProductFits | generator.cpp:7 | a state below MOD times GEN fits in 64 bits, so the `uint64_t` product never wraps |
| Prng.NextState | generator.cpp:7 | one step gives `(s * GEN) % MOD` and stays below MOD |
| Prng.IterateClosedForm | generator.cpp:5-9 | after k steps the state is `s * GEN^k mod MOD` |
| Prng.ZeroSeedIsStuck | generator.cpp:3 | a seed that is a multiple of MOD (0 among them) makes every output 0 |
| Prng.Generator.constructor | generator.cpp:3 | the state starts at `seed % MOD`, below MOD |
| Prng.Generator.Next | generator.cpp:5-9 | returns the state before the call, which is the `calls`-th output of the seed, and advances the state to `(old * GEN) % MOD` |
| Utils.Memcmp | utils.cpp:18-21 | the comparison is 0 exactly when the first n bytes agree |
| Utils.AddrEqual | utils.cpp:4-27 | different families are unequal; AF_INET addresses are equal iff port and 4-byte address agree; AF_INET6 iff port and all 16 bytes agree; any other shared family compares equal |
| Utils.AddrEqualReflexive | utils.cpp:4-27 | every address equals itself |
| Utils.AddrEqualSymmetric | utils.cpp:4-27 | the comparison is symmetric |
| Utils.AddrEqualTransitive | utils.cpp:4-27 | the comparison is transitive, so the registry's address test is an equivalence |
| Utils.DecimalStringValue | utils.cpp:36 | the digits of `to_string(n)` denote n |
| Utils.DecimalStringInjective | utils.cpp:36 | distinct numbers have distinct decimal strings |
| Utils.Str2Uint32 | utils.cpp:31-40 | success only when the input is exactly `to_string` of the parsed value |
| Utils.Str2Uint32Accepts | utils.cpp:31-40 | `str2uint32_t(s)` returns n if and only if s is the canonical decimal form of n |
| Utils.Str2Uint32RoundTrip | utils.cpp:35-36 | every `uint32_t` round-trips through its decimal string |
| Utils.Str2Uint32Canonical | utils.cpp:36 | an accepted string is non-empty, has only digits (no sign, no white space, nothing after the number) and no leading zero except "0" |
| Utils.Str2Uint32OutOfRange | utils.cpp:35-37 | the decimal form of a number above 2^32-1 is rejected |
| Utils.IsValidPort | utils.cpp:42-45 | a port is valid iff it is at most 65535 |
| Wire.ReverseInvolution | utils.h:37 | reversing bytes twice gives them back |
| Wire.FromToBigEndian | events.h:19-20 | big-endian decoding recovers the value encoded |
| Wire.ToFromBigEndian | events.h:19-20 | every byte string is the big-endian encoding of its value |
| Wire.BigEndianInjective | events.h:19-20 | distinct values have distinct big-endian encodings of the same width |
| Wire.NativeRoundTrip | utils.h:32-40 | reading a value's host-order bytes gives the value back |
| Wire.HtonT | utils.h:32-40 | the result has the same width; on a little-endian host its bytes are the argument's bytes reversed; on a big-endian host it is the argument |
| Wire.HtonTInvolution | utils.h:37 | applying `htonT` twice gives the original value |
| Wire.EncodeInt | events.h:16-21 | the integer `parse` yields exactly `sizeof(n)` bytes |
| Wire.EncodeIntBigEndian | events.h:16-21 | those bytes are n most significant first, on either host |
| Wire.EncodeIntRoundTrip | events.h:16-21 | big-endian decoding of the integer `parse` recovers n |
| Wire.ParseTextAsWritten | events.cpp:8-16 | as written: an empty string has no defined result, a non-empty one keeps its length and every byte after the first |
| Wire.ParseTextAsWrittenClearsFirst | events.cpp:8-16 | as written, the first byte of a non-empty string always becomes NUL. It is a `char` compared with the multi-character literals `'33'` and `'126'` |
| Wire.ParseTextCounterexample | events.cpp:8-16 | the one-byte name "A" becomes a NUL as written, but is kept by the intended filter |
| Wire.ParseText | events.cpp:8-16 | the intended filter: same length, every printable byte (33..126) kept, every other byte replaced by NUL |
| Wire.ParseTextFixedPoints | events.cpp:8-16 | the filter's output is wire text, and the filter leaves a string unchanged exactly when it is wire text already |
| Wire.ParseTextAppend | events.cpp:8-16 | the filter works byte by byte, so it distributes over concatenation |
| Wire.NamesBecomeNulTerminated | game_state.cpp:210-214 | printable names joined by spaces, as `new_game` joins them, become names each terminated by NUL |
| Wire.EncodeField | events.h:16-24 | one argument encodes in `sizeof` bytes, or as many bytes as the string has |
| Wire.EncodeFieldsSingleton | events.cpp:3-6 | a lone argument encodes as itself, and `parse(char c)` yields exactly c |
| Wire.EncodeFieldsAppend | events.h:7-14 | the variadic `parse` is the concatenation of its arguments' encodings, in argument order |
| Wire.EncodeFields | events.h:7-14 | the variadic `parse` yields as many bytes as its arguments' widths add up to |
| Wire.EncodeFieldsOfFour | events.h:7-14 | four arguments encode as their four encodings one after another |
| Wire.NewGamePayload | events.cpp:18-21 | the NEW_GAME payload is 9 bytes longer than the names |
| Wire.NewGamePayloadLayout | events.cpp:18-21 | NEW_GAME is its type, maxx and maxy big-endian, then the filtered names, in the field order of events.h:26-32 |
| Wire.PixelPayload | events.cpp:23-26 | the PIXEL payload is 10 bytes and starts with its type and the player number |
| Wire.PixelPayloadLayout | events.cpp:23-26 | PIXEL is type, player number, x and y big-endian: 10 bytes, in the field order of events.h:34-40 |
| Wire.PlayerEliminatedPayload | events.cpp:28-31 | the PLAYER_ELIMINATED payload is 2 bytes and starts with its type |
| Wire.PlayerEliminatedPayloadLayout | events.cpp:28-31 | PLAYER_ELIMINATED is 2 bytes: type and player number |
| Wire.GameOverPayload | events.cpp:33-36 | the GAME_OVER payload is 1 byte, its type |
| Wire.GameOverPayloadLayout | events.cpp:33-36 | GAME_OVER is its type byte alone |
| Wire.Payload | events.cpp:18-36 | every payload is non-empty and starts with its event's type byte |
| Wire.DecodePayload | events.h:26-53 | a payload that decodes starts with one of the four type bytes |
| Wire.PayloadRoundTrip | events.cpp:18-36 | every payload (names already filtered) decodes back to the event it encodes |
| Wire.FrameBody | game_state.cpp:195-197 | the part covered by the CRC is 8 bytes longer than the payload |
| Wire.FrameBodyLayout | game_state.cpp:195-197 | that part is the length, then the event number big-endian, then the payload |
| Wire.Frame | game_state.cpp:194-200 | a frame is 12 bytes longer than its payload |
| Wire.FrameLayout | game_state.cpp:194-200 | the length field equals the frame's own size; the number field is the event number modulo 2^32; the payload sits between them and the CRC; the CRC of the preceding bytes is at the end in host order |
| Wire.DecodeFrame | game_state.cpp:194-200 | a frame that decodes has a length field covering the 12 header and CRC bytes plus its payload, within the buffer |
| Wire.FrameRoundTrip | game_state.cpp:194-200 | a frame followed by any bytes decodes to its event number and payload |
| Rounds.HeadingAsWritten | game_state.cpp:244-245 | the heading as the source computes it, in `uint32_t`, is below 360 |
| Rounds.Heading | game_state.cpp:244-245 | the intended heading, `(d + turn * ts) mod 360`, is below 360 |
| Rounds.HeadingCounterexample | game_state.cpp:244-245 | heading 0, a left turn and turning speed 6 give 250 as written, and 354 as intended |
| Rounds.HeadingAsWrittenAgrees | game_state.cpp:244-245 | the source agrees with the intended heading exactly unless the snake turns left from a heading below the turning speed |
| Rounds.TurnedClosedForm | game_state.cpp:244-245 | k turns at a steady direction give heading `(d + k * turn * ts) mod 360` |
| Rounds.FullCircle | game_state.cpp:244-245 | right turns adding up to a multiple of 360 degrees bring the heading back |
| Rounds.Names | game_state.cpp:211-213 | the roster's names, one per snake, in snake order |
| Rounds.MoveTick | game_state.cpp:241-265 | one move puts the snake in its new cell and keeps its name; every other snake is unchanged; the taken cells, the events and the elimination count only grow; a finished round stays finished |
| Rounds.CycleAsWritten | game_state.cpp:267-273 | the tick with the source's snake loop only adds taken cells, events and eliminations |
| Rounds.CycleOfLiving | game_state.cpp:267-273 | the corrected tick only adds taken cells, events and eliminations, and a finished round stays finished |
| Rounds.CycleAsWrittenMoves | game_state.cpp:267-273 | after a tick every snake so far sits in its new cell and the rest are untouched; names and eliminations are kept; the taken cells and the events only grow |
| Rounds.CountGameOverAppend | game_state.cpp:258-262 | GAME_OVER events count additively over a log |
| Rounds.MoveEventsGameOver | game_state.cpp:249-263 | a move raises exactly one GAME_OVER when its crash leaves at most one snake, and none otherwise |
| Rounds.GameOverTwiceAsWritten | game_state.cpp:267-273 | two snakes swapping cells makes the tick as written raise GAME_OVER twice; skipping the eliminated snakes raises it once |
| Rounds.CycleOfLivingFrozen | game_state.cpp:267-273 | when eliminated snakes are skipped, a finished round is left unchanged by a tick |
| Rounds.CycleOfLivingGameOverOnce | game_state.cpp:258-262 | when eliminated snakes are skipped, a tick only appends events and raises GAME_OVER exactly once if it ends the round, otherwise never |
| Rounds.CountEliminatedUpdate | game_state.cpp:256-257 | the number of eliminated snakes changes by the flag that changes |
| Rounds.MoveTickCountsEliminated | game_state.cpp:255-257 | one move of a live snake keeps the counter equal to the number of eliminated snakes |
| Rounds.CycleOfLivingCountsEliminated | game_state.cpp:257-258 | when eliminated snakes are skipped, the counter stays the number of eliminated snakes, so `snakes.size() - eliminated` never wraps |
| Rounds.CycleOfLivingSkipsEliminated | game_state.cpp:267-273 | when eliminated snakes are skipped, an eliminated snake stays where it is |
| Rounds.ConcatAt | game_state.cpp:201-202 | each frame lies in the log at its recorded offset |
| Rounds.LogFrameAt | game_state.cpp:196-202 | in a well-formed log, event i's frame, numbered i, lies at `positions[i]` |
| Rounds.FrameFields | game_state.cpp:196-202 | the frame in the log at an offset carries event number i and the event's payload |
| Rounds.LogStep | game_state.cpp:196-202 | appending one frame numbered by the count of earlier events keeps the log well formed |
| Rounds.NewSnake | game_state.cpp:278-280 | a new snake takes three generator outputs: x cell, y cell, heading mod 360; the turn and name are kept |
| Rounds.Round.HistoryIsLog | game_state.cpp:191-203 | the byte log is the frames of the events in order, and the index holds each frame's start |
| Rounds.Round.Placeholder | game_state.cpp:12-15 | the plain round: no snakes, no events, not active |
| Rounds.Round.constructor | game_state.cpp:168-169 | an active round with the board's speeds and sizes, its id drawn from the generator, and an empty log |
| Rounds.Round.Progress | game_state.cpp:12-20 | running implies active |
| Rounds.Round.Direction | game_state.cpp:171-174 | only the given snake's last turn direction changes |
| Rounds.Round.Event | game_state.cpp:191-203 | appends one frame numbered by the count of earlier events, records its offset as the old log size, leaves the earlier bytes alone and sets `recent_events` |
| Rounds.Round.NewGame | game_state.cpp:205-216 | appends NEW_GAME with the board size and every name followed by a space |
| Rounds.Round.GameOver | game_state.cpp:218-222 | appends GAME_OVER |
| Rounds.Round.Pixel | game_state.cpp:224-232 | appends PIXEL with the player number and the snake's cell |
| Rounds.Round.PlayerEliminated | game_state.cpp:234-239 | appends PLAYER_ELIMINATED with the player number |
| Rounds.Round.Move | game_state.cpp:241-265 | heading updated and cell moved; an unchanged cell raises nothing; a fresh cell is taken and raises PIXEL; a taken one raises PLAYER_ELIMINATED, marks the snake and counts it; when at most one snake is left, GAME_OVER is raised and the round is finished |
| Rounds.Round.Eliminate | game_state.cpp:255-262 | the crash branch: the elimination event, the flag, the counter, and GAME_OVER with both flags once at most one snake is left |
| Rounds.Round.Cycle | game_state.cpp:267-273 | the source's loop: every snake in order moves to its next cell, eliminated or not |
| Rounds.Round.CycleLiving | game_state.cpp:267-273 | the corrected tick: only live snakes of an unfinished round move |
| Registry.RemoveAt | game_state.cpp:62-69 | one player fewer, the last in slot i, every other slot unchanged |
| Registry.RemoveAtMultiset | game_state.cpp:62-69 | removal takes away exactly the i-th player |
| Registry.Admit | game_state.cpp:86-95 | at capacity nothing changes, below it the player is appended, so the vector never grows past 42 |
| Registry.NewPlayer | game_state.cpp:158-162 | a new player lurks, has pressed an arrow iff the message turns, and takes the message's name, expected event number and session id, the address, the arrival time and the given id |
| Registry.NewPlayerReady | game_state.cpp:158-162 | a new player is ready iff its name is non-empty and its message turns |
| Registry.Refreshed | game_state.cpp:112-114 | a same-session message sets the contact time and expected event number and ORs the arrow flag with the turn; name, id, address, session, lurking and snake are kept |
| Registry.RefreshedIdempotent | game_state.cpp:112-114 | the same message applied twice refreshes like it did once |
| Registry.Kept | game_state.cpp:50-60 | the players kept are exactly those with unsigned `t - last_contact` below the tolerance |
| Registry.KeptAppend | game_state.cpp:50-60 | the kept players of a split vector are those of each part |
| Registry.KeptAfterRemoval | game_state.cpp:53-58 | removing an inactive player at i keeps the prefix and the kept players from i on |
| Registry.FindAddr | game_state.cpp:100-104 | finds the first player at the address, or reports that none is there |
| Registry.CountReadyPrefix | game_state.cpp:140-150 | the count of ready players only grows along the vector |
| Registry.ArrowsCleared | game_state.cpp:135-137 | every player kept, with the arrow flag cleared |
| Registry.ArrowsClearedNoneReady | game_state.cpp:133-138 | after game over is acknowledged no player is ready |
| Registry.Classify | game_state.cpp:100-123 | an unknown address, or the first matching player with a larger (stale), smaller (newer session) or equal session id |
| Registry.RegisteredCases | game_state.cpp:100-123 | stale: nothing changes; newer session: the old entry is removed and a fresh lurking player is added at the end; same session: the slot becomes `Refreshed` and every other slot is unchanged; unknown: admitted when there is room |
| Registry.RegisteredFindsSender | game_state.cpp:97-124 | addresses stay distinct, and the sender is registered afterwards unless it is unknown and the vector is full |
| Registry.Registered | game_state.cpp:97-124 | registration adds at most one player and never pushes a vector within capacity past 42 |
| Registry.Enqueue | game_state.cpp:71-77 | the queue only gains the id at its end: unchanged if the id is queued, one longer otherwise |
| Registry.EnqueueAll | game_state.cpp:79-84 | the old queue is a prefix of the result, and every id given is in it |
| Registry.EnqueueKeepsQueue | game_state.cpp:71-77 | queueing keeps the queue free of duplicates, its elements become the old set plus the id, and it only appends |
| Registry.EnqueueIdempotent | game_state.cpp:71-77 | notifying a player twice queues it once |
| Registry.EnqueueAllKeepsQueue | game_state.cpp:79-84 | notifying all players keeps the queue free of duplicates and adds exactly their ids |
| Registry.GameState.constructor | game_state.cpp:7-10 | the generator is seeded; no players, an empty queue, the counter at 0 and no active round |
| Registry.GameState.HasActiveRound | game_state.cpp:22-25 | reports whether the round is active and whether it is running |
| Registry.GameState.RemovalKeepsValid | game_state.cpp:62-69 | removal keeps addresses distinct, ids unique and snake ids valid |
| Registry.GameState.DisconnectPlayer | game_state.cpp:62-69 | the vector becomes `RemoveAt(players, i)`, keeping the invariant |
| Registry.GameState.DisconnectInactive | game_state.cpp:50-60 | the remaining players are, as a multiset, exactly the active ones |
| Registry.GameState.NotifyPlayer | game_state.cpp:71-77 | the id is queued iff it was not pending, and the pending set gains it |
| Registry.GameState.NotifyPlayers | game_state.cpp:79-84 | every player's id is queued once, in vector order |
| Registry.GameState.ConnectPlayer | game_state.cpp:86-95 | at capacity nothing changes; otherwise the new player gets the counter as its id, the counter advances modulo 2^64, and the player is notified |
| Registry.GameState.Supersede | game_state.cpp:107-110 | a newer session replaces the old entry by a fresh player at the end |
| Registry.GameState.Refresh | game_state.cpp:111-120 | same session: the player is refreshed and notified, and steers its snake while a round runs |
| Registry.GameState.ConnectOrUpdatePlayer | game_state.cpp:97-124 | the vector, the counter, the queue and the snakes change as the arrival's classification says |
| Registry.GameState.ClearArrows | game_state.cpp:135-137 | every arrow flag is cleared |
| Registry.GameState.TwoReady | game_state.cpp:140-150 | true iff at least two players have a name and have pressed an arrow |
| Registry.GameState.UpdateGameStateOnPlayerMessage | game_state.cpp:127-151 | a running round is left alone; a finished one's game over is acknowledged and the arrows cleared; otherwise a round is due iff two players are ready |
| Registry.GameState.Arrive | game_state.cpp:45-46 | the inactive players go and the sender is registered into some order of those kept; the counter, the queue and the snakes change as that registration says |
| Registry.GameState.GotMessage | game_state.cpp:37-48 | a datagram that does not parse changes nothing and has no outcome; one that does is registered as `Arrive` says, then the round-start rule runs: `NoActiveRound` (the failing `dynamic_cast`) with no active round, `RoundRunning` while a round runs, `GameOverCleared` with the arrows cleared when a finished round's game over is pending, and otherwise `StartRound` iff two registered players are ready, else `Waiting` |
| Registry.GameState.UpdateGameStateGuarded | game_state.cpp:127-151 | the corrected update: with no active round nothing changes and a round is due iff two players are ready; with one it acts as the source does |
| Registry.FirstDatagramAsWritten | game_state.cpp:37-48 | the first well-formed datagram to a fresh server ends in the failing `dynamic_cast` as written, while the corrected update reports that it waits for a second player |

## Left out

- server.cpp and client.cpp: sockets, `poll`, signals, timers and argument handling are I/O. No source file of the repository defines `next_datagram` or `mark_sent`, so no datagram is produced from the queue.
- The OS-facing parts of utils.cpp (`Socket`, `AddrInfo`, timers, `milliseconds_since_epoch`, `last_err`): system calls only.
- Floating-point physics: `sin`, `cos`, the `double` position and the truncating cast in `position()` are replaced by the next cell, given as an input.
- `crc32` is zlib's. It is a parameter, and its value is stored in host byte order as the code does.
- `Event::serialize` and the client message parser are not part of this model. The frame is taken as length, number and payload, each big-endian. `GotMessage` receives the parse result as an `Option`.
- No source file of the repository defines `INACTIVITY_TOLERANCE`, so it is a constant of the game state.
- `GameState::cycle`, `want_to_write` and `start_new_round` have empty or constant bodies. `start_new_round` appears only as the `StartRound` outcome.
- The virtual `Round`/`ActiveRound` split: a single class with an `active` flag. When the round is a plain `Round`, the `dynamic_cast` in `update_game_state_on_player_message` throws (see Findings). That case is the `NoActiveRound` outcome with no change.
- `snake_id` is left uninitialised in the `Player` constructor. The model sets it to 0. It is never read while a player lurks.
- The `ActiveRound` constructor's roster and the assignment of snakes to players belong to code that no source file of the repository contains, so the roster is a constructor parameter.
- The shadowing and template defects that keep events.h and events.cpp from compiling: the model encodes the evident intent, concatenating the big-endian encodings in field order.
- stderr logging.
- Rounds.MoveTick: turns the snake with the corrected heading `Rounds.Heading` (through `Stepped`), not the `uint32_t` wrap-around of the source. Cells, events and eliminations are as the source computes them.
- Rounds.CycleAsWritten: as written only in its snake loop. Each heading is the corrected one, so heading 0, a left turn and turning speed 6 give 354 where the source stores 250.
- Rounds.Round.Cycle: moves the snakes through `Rounds.Round.Move`, so its headings are the corrected ones as well; taken cells, events and eliminations are those of the source's loop.
- Rounds.Round.Move: uses the corrected heading `Rounds.Heading`, not the `uint32_t` wrap-around of the source (see Findings); `Rounds.HeadingAsWrittenAgrees` says where the two differ.
- Wire.EncodeField: a `Text` argument uses the corrected filter `Wire.ParseText`, not `Wire.ParseTextAsWritten` (see Findings).
- Wire.Payload: the NEW_GAME payload therefore carries the corrected names, so every NEW_GAME frame in a round's log does too.
- Wire.NewGamePayloadLayout: states the layout with the corrected filter `Wire.ParseText`; as written, the names' first byte becomes NUL and an empty roster has no defined result.
- Rounds.Round.NewGame: the NEW_GAME frame it appends carries the names filtered by `Wire.ParseText`, not by the source's filter as written.
- Wire.NamesBecomeNulTerminated: holds for the corrected filter `Wire.ParseText` only; as written, the first name loses its first byte.
- Rounds.TurnedClosedForm: is about the corrected heading `Rounds.Heading`; `Rounds.HeadingAsWrittenAgrees` says when the source's `uint32_t` heading differs.
- Rounds.NewSnake: requires a non-empty board, which the source does not check. server.cpp:45-49 accepts `-W 0` and `-H 0`, and then `r.next() % board.maxx` (game_state.cpp:279) divides by zero. The source also leaves `eliminated` uninitialised; the model sets it to false.
- Registry.GameState.Valid: id uniqueness is proved only while fewer than 2^64 ids have been issued. After that `inner_counter` wraps and ids repeat.
- Registry.GameState.DisconnectInactive: the order of the remaining players is stated only as a multiset, because swap-and-pop reorders the vector.
- Registry.GameState.GotMessage: the `NoActiveRound` outcome stands for the uncaught `std::bad_cast`. The call at server.cpp:180 is in no `try` block, and the handlers at server.cpp:38-43 and 143-151 catch only `UtilsError`, so the real server terminates there. The model does not model that termination.
- Registry.GameState.Arrive: its contract says the result is the registration applied to some reordering of the kept players. It does not say which reordering, because swap-and-pop reorders the vector. `DisconnectInactive` and `ConnectOrUpdatePlayer` state each step exactly.
- Registry.GameState.GotMessage: inherits that reordering from `Arrive`; the players are the registered ones, with the arrows cleared exactly when the outcome is `GameOverCleared`.

## Findings

| source | as written | input that shows it | evidently intended | confidence | as-written member | corrected member |
|---|---|---|---|---|---|---|
| events.cpp:8-16 | the loop returns during its first iteration and compares the `char` with multi-character literals, so only the first byte is examined and it always becomes NUL; an empty string reaches the end of a function that returns a value | the name "A" becomes a single NUL | every byte outside 33..126 replaced by NUL, the rest kept | not executed | Wire.ParseTextCounterexample | Wire.ParseText |
| game_state.cpp:244-245 | the heading is updated in `uint32_t`; a left turn adds `2^32 - ts`, and 2^32 is not a multiple of 360 | heading 0, left turn, turning speed 6 gives 250 | `(d - ts) mod 360`, here 354 | not executed | Rounds.HeadingCounterexample | Rounds.Heading |
| game_state.cpp:127-132 | when no round is running the function applies `dynamic_cast<ActiveRound&>` to the member `round`, declared as a plain `Round` by value in game_state.h:96; with no active round the cast throws `std::bad_cast`, which nothing catches, and `start_new_round` is empty, so no round ever starts | any well-formed datagram sent to a freshly started server | with no active round, count the ready players and start a round when two are ready | not executed; depends on the repository's game_state.h, which is older than game_state.cpp | Registry.FirstDatagramAsWritten | Registry.GameState.UpdateGameStateGuarded |
| game_state.cpp:267-273 | `cycle` moves every snake, including eliminated ones and those of a finished round, so an eliminated snake can crash again, `eliminated` can pass `snakes.size()` and GAME_OVER can be raised twice | two snakes at (0,0) and (1,1) that swap cells in one tick raise PLAYER_ELIMINATED 0, GAME_OVER, PLAYER_ELIMINATED 1, GAME_OVER | only live snakes of an unfinished round move, so GAME_OVER is raised at most once | not executed | Rounds.GameOverTwiceAsWritten | Rounds.CycleOfLivingGameOverOnce |
