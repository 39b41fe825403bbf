/** The server's wire serialisers: byte-order conversion of fixed-width
    integers (`htonT`), the per-field encoders (`Event::parse`), the payload
    of each event struct, and the frame that `ActiveRound::event` appends to
    the round's log. */
module Wire {
  import opened Ints
  import opened Wrappers

  /** Byte order of the host the server is compiled for. */
  datatype Endianness = LittleEndian | BigEndian

  function Pow256(w: nat): (r: nat)
    ensures r >= 1
  {
    if w == 0 then 1 else 256 * Pow256(w - 1)
  }

  function Reverse<T>(s: seq<T>): (r: seq<T>)
    ensures |r| == |s|
  {
    if s == [] then [] else Reverse(s[1..]) + [s[0]]
  }

  lemma {:induction false} ReverseAt<T>(s: seq<T>, i: nat)
    requires i < |s|
    ensures Reverse(s)[i] == s[|s| - 1 - i]
  {
    if i < |s| - 1 {
      ReverseAt(s[1..], i);
    }
  }

  lemma ReverseInvolution<T>(s: seq<T>)
    ensures Reverse(Reverse(s)) == s
  {
    forall i | 0 <= i < |s|
      ensures Reverse(Reverse(s))[i] == s[i]
    {
      ReverseAt(Reverse(s), i);
      ReverseAt(s, |s| - 1 - i);
    }
  }

  // ---------------------------------------------------------------------------
  // Big-endian layout of unsigned integers

  /** The `w` bytes of `n`, most significant first (network order). */
  function ToBigEndian(n: nat, w: nat): (r: seq<byte>)
    requires n < Pow256(w)
    ensures |r| == w
  {
    if w == 0 then [] else ToBigEndian(n / 256, w - 1) + [(n % 256) as byte]
  }

  /** The unsigned value of bytes read most significant first. */
  function FromBigEndian(s: seq<byte>): (n: nat)
    ensures n < Pow256(|s|)
  {
    if s == [] then 0 else FromBigEndian(s[..|s| - 1]) * 256 + s[|s| - 1]
  }

  lemma {:induction false} FromToBigEndian(n: nat, w: nat)
    requires n < Pow256(w)
    ensures FromBigEndian(ToBigEndian(n, w)) == n
  {
    if w > 0 {
      var s := ToBigEndian(n, w);
      assert s[..w - 1] == ToBigEndian(n / 256, w - 1);
      FromToBigEndian(n / 256, w - 1);
    }
  }

  lemma {:induction false} ToFromBigEndian(s: seq<byte>)
    ensures ToBigEndian(FromBigEndian(s), |s|) == s
  {
    if s != [] {
      var init := s[..|s| - 1];
      var n := FromBigEndian(s);
      assert n / 256 == FromBigEndian(init);
      assert n % 256 == s[|s| - 1];
      ToFromBigEndian(init);
      assert s == init + [s[|s| - 1]];
    }
  }

  /** Two values of one width have the same big-endian bytes only if they are equal. */
  lemma BigEndianInjective(m: nat, n: nat, w: nat)
    requires m < Pow256(w) && n < Pow256(w)
    requires ToBigEndian(m, w) == ToBigEndian(n, w)
    ensures m == n
  {
    FromToBigEndian(m, w);
    FromToBigEndian(n, w);
  }

  // ---------------------------------------------------------------------------
  // Host byte order and htonT (utils.h)

  /** The bytes of an unsigned `w`-byte integer as they lie in the host's memory. */
  function NativeBytes(n: nat, w: nat, host: Endianness): (r: seq<byte>)
    requires n < Pow256(w)
    ensures |r| == w
  {
    if host == BigEndian then ToBigEndian(n, w) else Reverse(ToBigEndian(n, w))
  }

  /** The value a host reads from bytes in its memory. */
  function FromNative(s: seq<byte>, host: Endianness): (n: nat)
    ensures n < Pow256(|s|)
  {
    if host == BigEndian then FromBigEndian(s) else FromBigEndian(Reverse(s))
  }

  lemma NativeRoundTrip(n: nat, w: nat, host: Endianness)
    requires n < Pow256(w)
    ensures FromNative(NativeBytes(n, w, host), host) == n
  {
    FromToBigEndian(n, w);
    ReverseInvolution(ToBigEndian(n, w));
  }

  lemma FromNativeRoundTrip(s: seq<byte>, host: Endianness)
    ensures NativeBytes(FromNative(s, host), |s|, host) == s
  {
    if host == BigEndian {
      ToFromBigEndian(s);
    } else {
      ToFromBigEndian(Reverse(s));
      ReverseInvolution(s);
    }
  }

  /** `htonT`: on a little-endian host, reverse the bytes of the value's own
      storage and read it back; on a big-endian host, return it unchanged. */
  function HtonT(v: nat, w: nat, host: Endianness): (r: nat)
    requires v < Pow256(w)
    ensures r < Pow256(w)
    ensures host == LittleEndian ==> NativeBytes(r, w, host) == Reverse(NativeBytes(v, w, host))
    ensures host == BigEndian ==> r == v
  {
    if host == LittleEndian then
      var storage := Reverse(NativeBytes(v, w, host));
      FromNativeRoundTrip(storage, host);
      FromNative(storage, host)
    else
      v
  }

  /** Byte reversal is an involution, so `htonT` undoes itself. */
  lemma HtonTInvolution(v: nat, w: nat, host: Endianness)
    requires v < Pow256(w)
    ensures HtonT(HtonT(v, w, host), w, host) == v
  {
    if host == LittleEndian {
      var r := HtonT(v, w, host);
      var rr := HtonT(r, w, host);
      assert NativeBytes(rr, w, host) == Reverse(Reverse(NativeBytes(v, w, host)));
      ReverseInvolution(NativeBytes(v, w, host));
      NativeRoundTrip(rr, w, host);
      NativeRoundTrip(v, w, host);
    }
  }

  /** `Event::parse(IntegerType n)`: the `sizeof(n)` bytes of `htonT(n)` as
      they lie in memory. On every host this is the big-endian layout. */
  function EncodeInt(n: nat, w: nat, host: Endianness): (r: seq<byte>)
    requires n < Pow256(w)
    ensures |r| == w
  {
    NativeBytes(HtonT(n, w, host), w, host)
  }

  /** Whatever the host's byte order, the encoding is the big-endian layout. */
  lemma EncodeIntBigEndian(n: nat, w: nat, host: Endianness)
    requires n < Pow256(w)
    ensures EncodeInt(n, w, host) == ToBigEndian(n, w)
  {
    if host == LittleEndian {
      ReverseInvolution(ToBigEndian(n, w));
    }
  }

  /** Big-endian decoding recovers the encoded integer. */
  lemma EncodeIntRoundTrip(n: nat, w: nat, host: Endianness)
    requires n < Pow256(w)
    ensures FromBigEndian(EncodeInt(n, w, host)) == n
  {
    EncodeIntBigEndian(n, w, host);
    FromToBigEndian(n, w);
  }

  lemma Pow256Of4()
    ensures Pow256(4) == TWO_TO_32
  {
  }

  // ---------------------------------------------------------------------------
  // Names: Event::parse(std::string) (events.cpp)

  /** The values GCC gives the multi-character literals `'33'` and `'126'`
      that the source compares a `char` against. */
  const MULTICHAR_33: int := 0x3333
  const MULTICHAR_126: int := 0x31_3236

  const NUL: byte := 0
  const SPACE: byte := 32

  predicate Printable(b: byte) {
    33 <= b <= 126
  }

  /** `Event::parse(std::string)` as written: the loop returns during its first
      iteration, after comparing the first character with the multi-character
      literals; an empty string falls off the end of the function, which has
      no defined result (`None`). */
  function ParseTextAsWritten(s: seq<byte>): (r: Option<seq<byte>>)
    ensures r.None? <==> s == []
    ensures r.Some? ==> |r.value| == |s| && r.value[1..] == s[1..]
  {
    if s == [] then None
    else
      var c := SignedChar(s[0]);
      if c < MULTICHAR_33 || c > MULTICHAR_126 then Some([NUL] + s[1..]) else Some(s)
  }

  /** A `char` is always below `'33'`, so the first character is always cleared. */
  lemma ParseTextAsWrittenClearsFirst(s: seq<byte>)
    requires s != []
    ensures ParseTextAsWritten(s) == Some([NUL] + s[1..])
  {
  }

  /** A printable one-letter name is mangled as written and kept when corrected. */
  lemma ParseTextCounterexample()
    ensures ParseTextAsWritten([65]) == Some([0])
    ensures ParseText([65]) == [65]
  {
    assert [65][1..] == [];
    assert [NUL] + [65][1..] == [0];
    assert ParseText([65])[0] == 65;
  }

  /** `Event::parse(std::string)` as evidently intended: every character outside
      the printable range 33..126 becomes NUL, every other one is kept. */
  function ParseText(s: seq<byte>): (r: seq<byte>)
    ensures |r| == |s|
    ensures forall i :: 0 <= i < |s| && Printable(s[i]) ==> r[i] == s[i]
    ensures forall i :: 0 <= i < |s| && !Printable(s[i]) ==> r[i] == NUL
  {
    if s == [] then [] else [if Printable(s[0]) then s[0] else NUL] + ParseText(s[1..])
  }

  /** Text that `ParseText` leaves unchanged: printable characters and NULs. */
  predicate WireText(s: seq<byte>) {
    forall i :: 0 <= i < |s| ==> s[i] == NUL || Printable(s[i])
  }

  lemma ParseTextFixedPoints(s: seq<byte>)
    ensures WireText(ParseText(s))
    ensures ParseText(s) == s <==> WireText(s)
  {
    if WireText(s) {
      assert forall i :: 0 <= i < |s| ==> ParseText(s)[i] == s[i];
    }
  }

  lemma ParseTextAppend(a: seq<byte>, b: seq<byte>)
    ensures ParseText(a + b) == ParseText(a) + ParseText(b)
  {
    var l, r := ParseText(a + b), ParseText(a) + ParseText(b);
    assert forall i :: 0 <= i < |a| ==> (a + b)[i] == a[i];
    assert forall i :: |a| <= i < |a| + |b| ==> (a + b)[i] == b[i - |a|];
    assert forall i :: 0 <= i < |l| ==> l[i] == r[i];
  }

  /** Names, each followed by one separator byte. */
  function JoinWith(names: seq<seq<byte>>, sep: byte): (r: seq<byte>)
  {
    if names == [] then [] else JoinWith(names[..|names| - 1], sep) + names[|names| - 1] + [sep]
  }

  /** A space-separated roster of printable names becomes the protocol's list of
      NUL-terminated names. */
  lemma {:induction false} NamesBecomeNulTerminated(names: seq<seq<byte>>)
    requires forall k, i :: 0 <= k < |names| && 0 <= i < |names[k]| ==> Printable(names[k][i])
    ensures ParseText(JoinWith(names, SPACE)) == JoinWith(names, NUL)
  {
    if names != [] {
      var init, last := names[..|names| - 1], names[|names| - 1];
      NamesBecomeNulTerminated(init);
      ParseTextAppend(JoinWith(init, SPACE) + last, [SPACE]);
      ParseTextAppend(JoinWith(init, SPACE), last);
      assert forall i :: 0 <= i < |last| ==> Printable(last[i]);
      ParseTextFixedPoints(last);
    }
  }

  // ---------------------------------------------------------------------------
  // Fields and the variadic parse (events.h)

  /** One argument of the variadic `parse`: a `char`, a `uint32_t` or a string. */
  datatype Field = Char(c: byte) | U32(v: uint32) | Text(s: seq<byte>)

  function FieldWidth(f: Field): nat {
    match f
    case Char(_) => 1
    case U32(_) => 4
    case Text(s) => |s|
  }

  function TotalWidth(fs: seq<Field>): nat {
    if fs == [] then 0 else FieldWidth(fs[0]) + TotalWidth(fs[1..])
  }

  /** The `parse` overload chosen for one argument. */
  function EncodeField(f: Field, host: Endianness): (r: seq<byte>)
    ensures |r| == FieldWidth(f)
  {
    match f
    case Char(c) => [c]
    case U32(v) => EncodeInt(v, 4, host)
    case Text(s) => ParseText(s)
  }

  /** The variadic `parse(args...)`: each argument's encoding, in order. */
  function EncodeFields(fs: seq<Field>, host: Endianness): (r: seq<byte>)
    ensures |r| == TotalWidth(fs)
  {
    if fs == [] then [] else EncodeField(fs[0], host) + EncodeFields(fs[1..], host)
  }

  lemma {:induction false} EncodeFieldsAppend(a: seq<Field>, b: seq<Field>, host: Endianness)
    ensures EncodeFields(a + b, host) == EncodeFields(a, host) + EncodeFields(b, host)
  {
    if a != [] {
      assert (a + b)[1..] == a[1..] + b;
      EncodeFieldsAppend(a[1..], b, host);
    } else {
      assert a + b == b;
    }
  }

  // ---------------------------------------------------------------------------
  // Event payloads (events.h structs, events.cpp parse members)

  const NEW_GAME: byte := 0
  const PIXEL: byte := 1
  const PLAYER_ELIMINATED: byte := 2
  const GAME_OVER: byte := 3

  datatype GameEvent =
    | NewGame(maxx: uint32, maxy: uint32, playerNames: seq<byte>)
    | Pixel(playerNumber: byte, x: uint32, y: uint32)
    | PlayerEliminated(playerNumber: byte)
    | GameOver

  /** A lone argument encodes as that argument; a `char` as itself. */
  lemma EncodeFieldsSingleton(f: Field, host: Endianness)
    ensures EncodeFields([f], host) == EncodeField(f, host)
    ensures f.Char? ==> EncodeFields([f], host) == [f.c]
  {
    assert [f][1..] == [];
  }

  lemma EncodeFieldsOfFour(a: Field, b: Field, c: Field, d: Field, host: Endianness)
    ensures EncodeFields([a, b, c, d], host)
         == EncodeField(a, host) + EncodeField(b, host) + EncodeField(c, host) + EncodeField(d, host)
  {
    assert [a, b, c, d] == [a] + [b] + [c] + [d];
    EncodeFieldsAppend([a] + [b] + [c], [d], host);
    EncodeFieldsAppend([a] + [b], [c], host);
    EncodeFieldsAppend([a], [b], host);
    EncodeFieldsSingleton(a, host);
    EncodeFieldsSingleton(b, host);
    EncodeFieldsSingleton(c, host);
    EncodeFieldsSingleton(d, host);
  }

  /** `NewGame::parse`: type, maxx, maxy, names. */
  function NewGamePayload(maxx: uint32, maxy: uint32, names: seq<byte>, host: Endianness): (r: seq<byte>)
    ensures |r| == 9 + |names|
  {
    var fs := [Char(NEW_GAME), U32(maxx), U32(maxy), Text(names)];
    assert TotalWidth(fs) == 9 + |names| by {
      assert fs[1..][1..][1..][1..] == [];
      assert TotalWidth(fs[1..][1..][1..]) == |names|;
      assert TotalWidth(fs[1..][1..]) == 4 + |names|;
      assert TotalWidth(fs[1..]) == 8 + |names|;
    }
    EncodeFields(fs, host)
  }

  /** The NEW_GAME payload: its type, both board sizes in network order, and
      the names with every byte outside 33..126 replaced by NUL. */
  lemma NewGamePayloadLayout(maxx: uint32, maxy: uint32, names: seq<byte>, host: Endianness)
    ensures NewGamePayload(maxx, maxy, names, host)
         == [NEW_GAME] + ToBigEndian(maxx, 4) + ToBigEndian(maxy, 4) + ParseText(names)
  {
    EncodeFieldsOfFour(Char(NEW_GAME), U32(maxx), U32(maxy), Text(names), host);
    EncodeIntBigEndian(maxx, 4, host);
    EncodeIntBigEndian(maxy, 4, host);
  }

  /** `Pixel::parse`: type, player_number, x, y. */
  function PixelPayload(player: byte, x: uint32, y: uint32, host: Endianness): (r: seq<byte>)
    ensures |r| == 10 && r[0] == PIXEL && r[1] == player
  {
    var fs := [Char(PIXEL), Char(player), U32(x), U32(y)];
    assert TotalWidth(fs) == 10 by {
      assert fs[1..][1..][1..][1..] == [];
      assert TotalWidth(fs[1..][1..][1..]) == 4;
      assert TotalWidth(fs[1..][1..]) == 8;
      assert TotalWidth(fs[1..]) == 9;
    }
    assert EncodeFields(fs, host)[..2] == [PIXEL, player] by {
      assert EncodeFields(fs, host) == [PIXEL] + EncodeFields(fs[1..], host);
      assert EncodeFields(fs[1..], host) == [player] + EncodeFields(fs[1..][1..], host);
    }
    EncodeFields(fs, host)
  }

  /** The PIXEL payload: its type, the player number, and both coordinates in
      network order: ten bytes. */
  lemma PixelPayloadLayout(player: byte, x: uint32, y: uint32, host: Endianness)
    ensures PixelPayload(player, x, y, host) == [PIXEL, player] + ToBigEndian(x, 4) + ToBigEndian(y, 4)
    ensures |PixelPayload(player, x, y, host)| == 10
  {
    EncodeFieldsOfFour(Char(PIXEL), Char(player), U32(x), U32(y), host);
    EncodeIntBigEndian(x, 4, host);
    EncodeIntBigEndian(y, 4, host);
  }

  /** `PlayerEliminated::parse`: type, player_number. */
  function PlayerEliminatedPayload(player: byte, host: Endianness): (r: seq<byte>)
    ensures |r| == 2 && r[0] == PLAYER_ELIMINATED
  {
    var fs := [Char(PLAYER_ELIMINATED), Char(player)];
    assert TotalWidth(fs) == 2 by {
      assert fs[1..][1..] == [];
      assert TotalWidth(fs[1..]) == 1;
    }
    EncodeFields(fs, host)
  }

  lemma PlayerEliminatedPayloadLayout(player: byte, host: Endianness)
    ensures PlayerEliminatedPayload(player, host) == [PLAYER_ELIMINATED, player]
  {
    var fs := [Char(PLAYER_ELIMINATED), Char(player)];
    assert fs == [Char(PLAYER_ELIMINATED)] + [Char(player)];
    EncodeFieldsAppend([Char(PLAYER_ELIMINATED)], [Char(player)], host);
    EncodeFieldsSingleton(Char(PLAYER_ELIMINATED), host);
    EncodeFieldsSingleton(Char(player), host);
  }

  /** `GameOver::parse`: the type byte alone. */
  function GameOverPayload(host: Endianness): (r: seq<byte>)
    ensures |r| == 1 && r[0] == GAME_OVER
  {
    EncodeFields([Char(GAME_OVER)], host)
  }

  lemma GameOverPayloadLayout(host: Endianness)
    ensures GameOverPayload(host) == [GAME_OVER]
  {
    EncodeFieldsSingleton(Char(GAME_OVER), host);
  }

  /** The type byte each event starts with. */
  function TypeByte(e: GameEvent): byte {
    match e
    case NewGame(_, _, _) => NEW_GAME
    case Pixel(_, _, _) => PIXEL
    case PlayerEliminated(_) => PLAYER_ELIMINATED
    case GameOver => GAME_OVER
  }

  /** The serialised payload of an event: it starts with the event's type. */
  function Payload(e: GameEvent, host: Endianness): (r: seq<byte>)
    ensures |r| >= 1 && r[0] == TypeByte(e)
  {
    match e
    case NewGame(mx, my, names) => NewGamePayloadLayout(mx, my, names, host); NewGamePayload(mx, my, names, host)
    case Pixel(p, x, y) => PixelPayloadLayout(p, x, y, host); PixelPayload(p, x, y, host)
    case PlayerEliminated(p) => PlayerEliminatedPayloadLayout(p, host); PlayerEliminatedPayload(p, host)
    case GameOver => GameOverPayloadLayout(host); GameOverPayload(host)
  }

  /** Reading a payload back: the partner of `Payload`. */
  function DecodePayload(b: seq<byte>): (r: Option<GameEvent>)
    ensures r.Some? ==> |b| >= 1 && b[0] <= GAME_OVER
  {
    if |b| == 0 then None
    else if b[0] == NEW_GAME && |b| >= 9 then
      Some(NewGame(FromBigEndian(b[1..5]), FromBigEndian(b[5..9]), b[9..]))
    else if b[0] == PIXEL && |b| == 10 then
      Some(Pixel(b[1], FromBigEndian(b[2..6]), FromBigEndian(b[6..10])))
    else if b[0] == PLAYER_ELIMINATED && |b| == 2 then
      Some(PlayerEliminated(b[1]))
    else if b[0] == GAME_OVER && |b| == 1 then
      Some(GameOver)
    else None
  }

  /** Every event whose names are already wire text decodes back to itself. */
  lemma PayloadRoundTrip(e: GameEvent, host: Endianness)
    requires e.NewGame? ==> WireText(e.playerNames)
    ensures DecodePayload(Payload(e, host)) == Some(e)
  {
    match e
    case NewGame(mx, my, names) =>
      NewGamePayloadLayout(mx, my, names, host);
      var b := Payload(e, host);
      assert b[1..5] == ToBigEndian(mx, 4);
      assert b[5..9] == ToBigEndian(my, 4);
      FromToBigEndian(mx, 4);
      FromToBigEndian(my, 4);
      ParseTextFixedPoints(names);
    case Pixel(p, x, y) =>
      PixelPayloadLayout(p, x, y, host);
      var b := Payload(e, host);
      assert b[2..6] == ToBigEndian(x, 4);
      assert b[6..10] == ToBigEndian(y, 4);
      FromToBigEndian(x, 4);
      FromToBigEndian(y, 4);
    case PlayerEliminated(p) =>
      PlayerEliminatedPayloadLayout(p, host);
    case GameOver =>
      GameOverPayloadLayout(host);
  }

  // ---------------------------------------------------------------------------
  // Frames (ActiveRound::event)

  /** Bytes a frame adds around its payload: length, event number and CRC. */
  const FRAME_OVERHEAD: nat := 12

  /** The frame's `uint32_t` length field: payload plus the 12 framing bytes. */
  function FrameLength(payloadSize: nat): uint32 {
    ToUint32(payloadSize + FRAME_OVERHEAD)
  }

  /** `serialize(length, event_no, payload)`: the part of a frame the CRC covers. */
  function FrameBody(payload: seq<byte>, eventNo: nat, host: Endianness): (r: seq<byte>)
    ensures |r| == |payload| + 8
  {
    Pow256Of4();
    EncodeInt(FrameLength(|payload|), 4, host) + EncodeInt(ToUint32(eventNo), 4, host) + payload
  }

  /** The body: length and event number in network order, then the payload. */
  lemma FrameBodyLayout(payload: seq<byte>, eventNo: nat, host: Endianness)
    ensures var r := FrameBody(payload, eventNo, host);
      && r[..4] == ToBigEndian(FrameLength(|payload|), 4)
      && r[4..8] == ToBigEndian(ToUint32(eventNo), 4)
      && r[8..] == payload
  {
    Pow256Of4();
    var len := EncodeInt(FrameLength(|payload|), 4, host);
    var no := EncodeInt(ToUint32(eventNo), 4, host);
    EncodeIntBigEndian(FrameLength(|payload|), 4, host);
    EncodeIntBigEndian(ToUint32(eventNo), 4, host);
    assert (len + no + payload)[..4] == len;
    assert (len + no + payload)[4..8] == no;
    assert (len + no + payload)[8..] == payload;
  }

  /** A whole frame: the body and its CRC-32, stored in host byte order. */
  function Frame(payload: seq<byte>, eventNo: nat, crc: seq<byte> -> uint32, host: Endianness): (r: seq<byte>)
    ensures |r| == |payload| + FRAME_OVERHEAD
  {
    var body := FrameBody(payload, eventNo, host);
    body + NativeBytes(crc(body), 4, host)
  }

  /** The length field covers the whole frame, the event number and payload
      follow it, and the trailer is the CRC of everything before it. */
  lemma FrameLayout(payload: seq<byte>, eventNo: nat, crc: seq<byte> -> uint32, host: Endianness)
    ensures var r := Frame(payload, eventNo, crc, host);
      && (|payload| + FRAME_OVERHEAD < TWO_TO_32 ==> FromBigEndian(r[..4]) == |r|)
      && FromBigEndian(r[4..8]) == eventNo % TWO_TO_32
      && r[8..|r| - 4] == payload
      && r[..|r| - 4] == FrameBody(payload, eventNo, host)
      && r[|r| - 4..] == NativeBytes(crc(r[..|r| - 4]), 4, host)
  {
    Pow256Of4();
    FrameBodyLayout(payload, eventNo, host);
    var body := FrameBody(payload, eventNo, host);
    BodyTrailerSlices(body, NativeBytes(crc(body), 4, host));
    FromToBigEndian(ToUint32(eventNo), 4);
    FromToBigEndian(FrameLength(|payload|), 4);
    if |payload| + FRAME_OVERHEAD < TWO_TO_32 {
      ModUnique(|payload| + FRAME_OVERHEAD, TWO_TO_32, 0, |payload| + FRAME_OVERHEAD);
    }
  }

  /** The pieces of a body followed by a four-byte trailer. */
  lemma BodyTrailerSlices(body: seq<byte>, trailer: seq<byte>)
    requires |body| >= 8 && |trailer| == 4
    ensures var r := body + trailer;
      && r[..4] == body[..4] && r[4..8] == body[4..8] && r[8..|r| - 4] == body[8..]
      && r[..|r| - 4] == body && r[|r| - 4..] == trailer
  {
  }

  /** Reading one frame from the front of a buffer, the partner of `Frame`: it
      fails when the length field is missing, too small, reaches past the
      buffer, or the stored CRC does not match the body. */
  function DecodeFrame(buf: seq<byte>, crc: seq<byte> -> uint32, host: Endianness): (r: Option<(uint32, seq<byte>)>)
    ensures r.Some? ==> |buf| >= 4 && FromBigEndian(buf[..4]) == |r.value.1| + FRAME_OVERHEAD <= |buf|
  {
    if |buf| < 4 then None
    else
      var len := FromBigEndian(buf[..4]);
      if len < FRAME_OVERHEAD || len > |buf| then None
      else if FromNative(buf[len - 4..len], host) != crc(buf[..len - 4]) then None
      else Some((FromBigEndian(buf[4..8]), buf[8..len - 4]))
  }

  /** A frame followed by anything decodes to its event number and payload. */
  lemma FrameRoundTrip(payload: seq<byte>, eventNo: nat, crc: seq<byte> -> uint32, host: Endianness, rest: seq<byte>)
    requires |payload| + FRAME_OVERHEAD < TWO_TO_32
    ensures DecodeFrame(Frame(payload, eventNo, crc, host) + rest, crc, host) == Some((eventNo % TWO_TO_32, payload))
  {
    var f := Frame(payload, eventNo, crc, host);
    FrameLayout(payload, eventNo, crc, host);
    PrefixSlices(f, rest);
    NativeRoundTrip(crc(f[..|f| - 4]), 4, host);
  }

  /** The pieces of a frame read from the front of a longer buffer. */
  lemma PrefixSlices(f: seq<byte>, rest: seq<byte>)
    requires |f| >= 12
    ensures var buf, n := f + rest, |f|;
      && buf[..4] == f[..4] && buf[4..8] == f[4..8] && buf[..n - 4] == f[..n - 4]
      && buf[n - 4..n] == f[n - 4..] && buf[8..n - 4] == f[8..n - 4]
  {
  }
}
