/** The server's game state (`GameState` in game_state.cpp): the players
    registered by socket address, the queue of players with notifications
    pending, and the current round. */
module Registry {
  import opened Ints
  import opened Wrappers
  import opened Utils
  import Wire
  import Prng
  import Rounds

  /** `MAX_PLAYERS` (game_state.h). */
  const MAX_PLAYERS: nat := 42

  /** A parsed client datagram (`Event::ClientEvent`). */
  datatype ClientMessage = ClientMessage(sessionId: uint64, turnDirection: int8, nextExpectedEventNo: uint32, playerName: seq<byte>)

  /** `Player`: `snakeId` is only meaningful for a player that is not lurking. */
  datatype Player = Player(lurking: bool, pressedArrow: bool, name: seq<byte>, innerId: uint64,
                           expectedNo: uint32, lastContact: uint64, sockaddr: SockAddr, sessionId: uint64,
                           snakeId: nat)

  /** `Player(e, addr, rec_time, inner_id)`: a lurking player whose arrow flag
      says whether this very message turned; the source leaves `snake_id`
      uninitialised, and it is never read while the player lurks. */
  function NewPlayer(e: ClientMessage, addr: SockAddr, t: uint64, id: uint64): (r: Player)
    ensures r.lurking && (r.pressedArrow <==> e.turnDirection != 0)
    ensures r.name == e.playerName && r.innerId == id && r.expectedNo == e.nextExpectedEventNo
    ensures r.lastContact == t && r.sockaddr == addr && r.sessionId == e.sessionId
  {
    Player(true, e.turnDirection != 0, e.playerName, id, e.nextExpectedEventNo, t, addr, e.sessionId, 0)
  }

  /** The update of a player whose message carries its own session id. */
  function Refreshed(p: Player, e: ClientMessage, t: uint64): (r: Player)
    ensures r.lastContact == t && r.expectedNo == e.nextExpectedEventNo
    ensures r.pressedArrow <==> p.pressedArrow || e.turnDirection != 0
    ensures r.lurking == p.lurking && r.name == p.name && r.innerId == p.innerId
    ensures r.sockaddr == p.sockaddr && r.sessionId == p.sessionId && r.snakeId == p.snakeId
  {
    p.(lastContact := t, expectedNo := e.nextExpectedEventNo, pressedArrow := p.pressedArrow || e.turnDirection != 0)
  }

  /** A fresh player is ready to start a round exactly when it has a name and
      its very first message turned. */
  lemma NewPlayerReady(e: ClientMessage, addr: SockAddr, t: uint64, id: uint64)
    ensures Ready(NewPlayer(e, addr, t, id)) <==> |e.playerName| > 0 && e.turnDirection != 0
  {
  }

  /** The same message delivered twice refreshes the player once. */
  lemma RefreshedIdempotent(p: Player, e: ClientMessage, t: uint64)
    ensures Refreshed(Refreshed(p, e, t), e, t) == Refreshed(p, e, t)
  {
  }

  // ---------------------------------------------------------------------------
  // The player vector

  /** `disconnect_player(i)`: the last player moves into slot `i`, and the
      vector is one shorter. */
  function RemoveAt(ps: seq<Player>, i: nat): (r: seq<Player>)
    requires i < |ps|
    ensures |r| == |ps| - 1
    ensures i < |r| ==> r[i] == ps[|ps| - 1]
    ensures forall j :: 0 <= j < |r| && j != i ==> r[j] == ps[j]
  {
    ps[i := ps[|ps| - 1]][..|ps| - 1]
  }

  /** Removal takes exactly the `i`-th player out of the multiset of players. */
  lemma RemoveAtMultiset(ps: seq<Player>, i: nat)
    requires i < |ps|
    ensures multiset(RemoveAt(ps, i)) == multiset(ps) - multiset{ps[i]}
  {
    var last := |ps| - 1;
    var init := ps[..last];
    assert ps == init + [ps[last]];
    if i < last {
      assert RemoveAt(ps, i) == init[i := ps[last]];
      assert init[i] == ps[i];
    } else {
      assert RemoveAt(ps, i) == init;
    }
  }

  /** `connect_player`'s capacity rule: a full registry admits no one. */
  function Admit(ps: seq<Player>, p: Player): (r: seq<Player>)
    ensures |ps| >= MAX_PLAYERS ==> r == ps
    ensures |ps| < MAX_PLAYERS ==> r == ps + [p]
    ensures |ps| <= MAX_PLAYERS ==> |r| <= MAX_PLAYERS
  {
    if |ps| >= MAX_PLAYERS then ps else ps + [p]
  }

  /** A player counts as alive at time `t` when `t - last_contact`, computed in
      `uint64_t`, is below the tolerance. */
  predicate Active(p: Player, t: uint64, tolerance: uint64) {
    (t - p.lastContact) % TWO_TO_64 < tolerance
  }

  /** The players `disconnect_inactive` keeps, in their original order. */
  function Kept(ps: seq<Player>, t: uint64, tolerance: uint64): (r: seq<Player>)
    ensures |r| <= |ps|
    ensures forall p :: p in r ==> p in ps && Active(p, t, tolerance)
    ensures forall p :: p in ps && Active(p, t, tolerance) ==> p in r
  {
    if ps == [] then []
    else (if Active(ps[0], t, tolerance) then [ps[0]] else []) + Kept(ps[1..], t, tolerance)
  }

  /** Removing an inactive player at `i`, at or past the examined prefix,
      leaves the prefix alone and the kept part of the rest unchanged. */
  lemma KeptAfterRemoval(ps: seq<Player>, i: nat, t: uint64, tol: uint64)
    requires i < |ps| && !Active(ps[i], t, tol)
    ensures var r := RemoveAt(ps, i);
      && r[..i] == ps[..i]
      && multiset(Kept(r[i..], t, tol)) == multiset(Kept(ps[i..], t, tol))
  {
    var r := RemoveAt(ps, i);
    var tail := ps[i + 1..];
    KeptCons(ps[i], tail, t, tol);
    assert ps[i..] == [ps[i]] + tail;
    if i < |ps| - 1 {
      assert r[i..] == [ps[|ps| - 1]] + tail[..|tail| - 1];
      KeptRotate(tail, t, tol);
    } else {
      assert r[i..] == [];
    }
  }

  /** Stepping past an active player moves it from the unexamined part to the
      examined prefix. */
  lemma KeptSkip(ps: seq<Player>, i: nat, t: uint64, tol: uint64)
    requires i < |ps| && Active(ps[i], t, tol)
    ensures multiset(ps[..i + 1]) + multiset(Kept(ps[i + 1..], t, tol))
         == multiset(ps[..i]) + multiset(Kept(ps[i..], t, tol))
  {
    var rest := ps[i + 1..];
    assert ps[i..] == [ps[i]] + rest;
    KeptCons(ps[i], rest, t, tol);
    assert multiset(Kept(ps[i..], t, tol)) == multiset{ps[i]} + multiset(Kept(rest, t, tol));
    assert ps[..i + 1] == ps[..i] + [ps[i]];
    assert multiset(ps[..i + 1]) == multiset(ps[..i]) + multiset{ps[i]};
  }

  /** The examined prefix `ps[..i]` together with what is kept of the rest
      makes up `goal`: the loop invariant of `disconnect_inactive`. */
  ghost predicate Examined(ps: seq<Player>, i: nat, t: uint64, tol: uint64, goal: multiset<Player>)
    requires i <= |ps|
  {
    multiset(ps[..i]) + multiset(Kept(ps[i..], t, tol)) == goal
  }

  lemma SkipKeepsExamined(ps: seq<Player>, i: nat, t: uint64, tol: uint64, goal: multiset<Player>)
    requires i < |ps| && Active(ps[i], t, tol) && Examined(ps, i, t, tol, goal)
    ensures Examined(ps, i + 1, t, tol, goal)
  {
    KeptSkip(ps, i, t, tol);
  }

  lemma RemovalKeepsExamined(ps: seq<Player>, i: nat, t: uint64, tol: uint64, goal: multiset<Player>)
    requires i < |ps| && !Active(ps[i], t, tol) && Examined(ps, i, t, tol, goal)
    ensures Examined(RemoveAt(ps, i), i, t, tol, goal)
  {
    KeptAfterRemoval(ps, i, t, tol);
  }

  /** Once every player is examined, the vector is the goal. */
  lemma ExaminedAll(ps: seq<Player>, t: uint64, tol: uint64, goal: multiset<Player>)
    requires Examined(ps, |ps|, t, tol, goal)
    ensures multiset(ps) == goal
  {
    assert ps[|ps|..] == [] && ps[..|ps|] == ps;
  }

  lemma KeptCons(p: Player, s: seq<Player>, t: uint64, tol: uint64)
    ensures Kept([p] + s, t, tol) == (if Active(p, t, tol) then [p] else []) + Kept(s, t, tol)
  {
    assert ([p] + s)[1..] == s;
  }

  /** Moving the last player of a sequence to its front permutes what is kept. */
  lemma KeptRotate(s: seq<Player>, t: uint64, tol: uint64)
    requires s != []
    ensures multiset(Kept([s[|s| - 1]] + s[..|s| - 1], t, tol)) == multiset(Kept(s, t, tol))
  {
    var last := s[|s| - 1];
    var init := s[..|s| - 1];
    assert s == init + [last];
    KeptAppend(init, [last], t, tol);
    assert ([last] + init)[1..] == init;
  }

  lemma {:induction false} KeptAppend(a: seq<Player>, b: seq<Player>, t: uint64, tol: uint64)
    ensures Kept(a + b, t, tol) == Kept(a, t, tol) + Kept(b, t, tol)
  {
    if a != [] {
      assert (a + b)[1..] == a[1..] + b;
      KeptAppend(a[1..], b, t, tol);
    } else {
      assert a + b == b;
    }
  }

  /** The first player registered under an address equal to `addr`. */
  function FindAddr(ps: seq<Player>, addr: SockAddr): (r: Option<nat>)
    ensures r.Some? ==> r.value < |ps| && AddrEqual(ps[r.value].sockaddr, addr)
    ensures r.Some? ==> forall j :: 0 <= j < r.value ==> !AddrEqual(ps[j].sockaddr, addr)
    ensures r.None? <==> forall j :: 0 <= j < |ps| ==> !AddrEqual(ps[j].sockaddr, addr)
  {
    if ps == [] then None
    else if AddrEqual(ps[0].sockaddr, addr) then Some(0)
    else match FindAddr(ps[1..], addr)
      case None => None
      case Some(k) => Some(k + 1)
  }

  /** Named players that have pressed an arrow: the players a round waits for. */
  predicate Ready(p: Player) {
    |p.name| > 0 && p.pressedArrow
  }

  function CountReady(ps: seq<Player>): (r: nat)
    ensures r <= |ps|
  {
    if ps == [] then 0 else CountReady(ps[..|ps| - 1]) + (if Ready(ps[|ps| - 1]) then 1 else 0)
  }

  lemma {:induction false} CountReadyPrefix(ps: seq<Player>, i: nat)
    requires i <= |ps|
    ensures CountReady(ps[..i]) <= CountReady(ps)
  {
    if i < |ps| {
      assert ps[..|ps| - 1][..i] == ps[..i];
      CountReadyPrefix(ps[..|ps| - 1], i);
    } else {
      assert ps[..i] == ps;
    }
  }

  /** A fresh round's players forget that they pressed an arrow. */
  function ArrowsCleared(ps: seq<Player>): (r: seq<Player>)
    ensures |r| == |ps|
    ensures forall i :: 0 <= i < |ps| ==> r[i] == ps[i].(pressedArrow := false)
  {
    seq(|ps|, i requires 0 <= i < |ps| => ps[i].(pressedArrow := false))
  }

  lemma ArrowsClearedNoneReady(ps: seq<Player>)
    ensures CountReady(ArrowsCleared(ps)) == 0
  {
    if ps != [] {
      assert ArrowsCleared(ps)[..|ps| - 1] == ArrowsCleared(ps[..|ps| - 1]);
      ArrowsClearedNoneReady(ps[..|ps| - 1]);
    }
  }

  // ---------------------------------------------------------------------------
  // connect_or_update_player, on values

  /** What a message from `addr` does to the registry. */
  datatype Arrival =
    | Unknown               // no player has this address
    | Stale(slot: nat)      // its session id is older than the stored one
    | Superseding(slot: nat) // its session id is newer: a new player replaces the old
    | Returning(slot: nat)  // same session: the player is refreshed

  function Classify(ps: seq<Player>, e: ClientMessage, addr: SockAddr): (r: Arrival)
    ensures !r.Unknown? ==> r.slot < |ps| && AddrEqual(ps[r.slot].sockaddr, addr)
    ensures r.Unknown? <==> forall j :: 0 <= j < |ps| ==> !AddrEqual(ps[j].sockaddr, addr)
    ensures r.Stale? ==> ps[r.slot].sessionId > e.sessionId
    ensures r.Superseding? ==> ps[r.slot].sessionId < e.sessionId
    ensures r.Returning? ==> ps[r.slot].sessionId == e.sessionId
  {
    match FindAddr(ps, addr)
    case None => Unknown
    case Some(k) =>
      if ps[k].sessionId > e.sessionId then Stale(k)
      else if ps[k].sessionId < e.sessionId then Superseding(k)
      else Returning(k)
  }

  /** The players after `connect_or_update_player`; `id` is the id a newly
      admitted player receives. */
  function Registered(ps: seq<Player>, e: ClientMessage, addr: SockAddr, t: uint64, id: uint64): (r: seq<Player>)
    ensures |ps| <= MAX_PLAYERS ==> |r| <= MAX_PLAYERS
    ensures |r| <= |ps| + 1
  {
    match Classify(ps, e, addr)
    case Unknown => Admit(ps, NewPlayer(e, addr, t, id))
    case Stale(_) => ps
    case Superseding(k) => Admit(RemoveAt(ps, k), NewPlayer(e, addr, t, id))
    case Returning(k) => ps[k := Refreshed(ps[k], e, t)]
  }

  /** Whether the arrival admits a new player (and so spends an id). */
  predicate Admits(ps: seq<Player>, e: ClientMessage, addr: SockAddr) {
    match Classify(ps, e, addr)
    case Unknown => |ps| < MAX_PLAYERS
    case Superseding(_) => true
    case _ => false
  }

  /** The id notified, if any: the admitted player's or the refreshed one's. */
  function NotifiedId(ps: seq<Player>, e: ClientMessage, addr: SockAddr, id: uint64): Option<uint64> {
    match Classify(ps, e, addr)
    case Returning(k) => Some(ps[k].innerId)
    case _ => if Admits(ps, e, addr) then Some(id) else None
  }

  /** Addresses are pairwise unequal. */
  ghost predicate AddrsDistinct(ps: seq<Player>) {
    forall i, j :: 0 <= i < |ps| && 0 <= j < |ps| && i != j ==> !AddrEqual(ps[i].sockaddr, ps[j].sockaddr)
  }

  /** A stale message changes nothing; a newer session replaces the registered
      player by a fresh lurking one at the end of the vector; a message of the
      same session keeps the player in place and only refreshes it; a message
      from an unknown address adds a fresh player when there is room. */
  lemma RegisteredCases(ps: seq<Player>, e: ClientMessage, addr: SockAddr, t: uint64, id: uint64)
    requires |ps| <= MAX_PLAYERS
    ensures var r, c := Registered(ps, e, addr, t, id), Classify(ps, e, addr);
      && (c.Stale? ==> r == ps)
      && (c.Superseding? ==> |r| == |ps| && r[|r| - 1] == NewPlayer(e, addr, t, id)
                             && multiset(r[..|r| - 1]) == multiset(ps) - multiset{ps[c.slot]})
      && (c.Returning? ==> |r| == |ps| && r[c.slot] == Refreshed(ps[c.slot], e, t)
                           && forall j :: 0 <= j < |ps| && j != c.slot ==> r[j] == ps[j])
      && (c.Unknown? ==> r == Admit(ps, NewPlayer(e, addr, t, id)))
  {
    var c := Classify(ps, e, addr);
    if c.Superseding? {
      var r := Registered(ps, e, addr, t, id);
      assert r == RemoveAt(ps, c.slot) + [NewPlayer(e, addr, t, id)];
      assert r[..|r| - 1] == RemoveAt(ps, c.slot);
      RemoveAtMultiset(ps, c.slot);
    }
  }

  /** After a message (that is not stale) the sender is registered, unless it
      is new and the registry is full; and addresses stay distinct. */
  lemma RegisteredFindsSender(ps: seq<Player>, e: ClientMessage, addr: SockAddr, t: uint64, id: uint64)
    requires |ps| <= MAX_PLAYERS && AddrsDistinct(ps)
    ensures var r, c := Registered(ps, e, addr, t, id), Classify(ps, e, addr);
      && AddrsDistinct(r)
      && (c.Unknown? && |ps| >= MAX_PLAYERS <==> FindAddr(r, addr).None?)
  {
    var r, c := Registered(ps, e, addr, t, id), Classify(ps, e, addr);
    AddrEqualReflexive(addr);
    match c
    case Unknown =>
      if |ps| < MAX_PLAYERS {
        assert r[|ps|].sockaddr == addr;
        forall i, j | 0 <= i < |r| && 0 <= j < |r| && i != j
          ensures !AddrEqual(r[i].sockaddr, r[j].sockaddr)
        {
          if j == |ps| {
            assert !AddrEqual(ps[i].sockaddr, addr);
          } else if i == |ps| {
            assert !AddrEqual(ps[j].sockaddr, addr);
            AddrEqualSymmetric(addr, ps[j].sockaddr);
          }
        }
      }
    case Stale(k) =>
      assert FindAddr(r, addr).Some?;
    case Returning(k) =>
      assert r[k].sockaddr == ps[k].sockaddr;
      assert FindAddr(r, addr).Some?;
    case Superseding(k) =>
      var rest := RemoveAt(ps, k);
      assert r == rest + [NewPlayer(e, addr, t, id)];
      assert r[|rest|].sockaddr == addr;
      forall j | 0 <= j < |rest|
        ensures !AddrEqual(rest[j].sockaddr, addr)
      {
        var src := if j == k then |ps| - 1 else j;
        assert rest[j] == ps[src] && src != k;
        AddrEqualSameTarget(ps[src].sockaddr, ps[k].sockaddr, addr);
      }
      forall i, j | 0 <= i < |r| && 0 <= j < |r| && i != j
        ensures !AddrEqual(r[i].sockaddr, r[j].sockaddr)
      {
        if j == |rest| {
          assert !AddrEqual(rest[i].sockaddr, addr);
        } else if i == |rest| {
          assert !AddrEqual(rest[j].sockaddr, addr);
          AddrEqualSymmetric(addr, rest[j].sockaddr);
        } else {
          var si := if i == k then |ps| - 1 else i;
          var sj := if j == k then |ps| - 1 else j;
          assert rest[i] == ps[si] && rest[j] == ps[sj] && si != sj;
        }
      }
  }

  // ---------------------------------------------------------------------------
  // The pending queue

  predicate NoDuplicates(q: seq<uint64>) {
    forall i, j :: 0 <= i < j < |q| ==> q[i] != q[j]
  }

  function Elems(q: seq<uint64>): set<uint64> {
    set x | x in q
  }

  /** `notify_player`: queue an id unless it is already waiting. */
  function Enqueue(q: seq<uint64>, id: uint64): (r: seq<uint64>)
    ensures q <= r && id in r && Elems(r) == Elems(q) + {id}
    ensures id in q ==> r == q
    ensures id !in q ==> |r| == |q| + 1
  {
    if id in q then q else q + [id]
  }

  /** Queueing keeps the queue free of duplicates, adds exactly `id` to its
      elements, and only ever appends. */
  lemma EnqueueKeepsQueue(q: seq<uint64>, id: uint64)
    requires NoDuplicates(q)
    ensures var r := Enqueue(q, id);
      NoDuplicates(r) && Elems(r) == Elems(q) + {id} && q <= r && id in r
  {
    var r := Enqueue(q, id);
    assert Elems(r) == Elems(q) + {id} by {
      if id !in q {
        assert forall x :: x in r <==> x in q || x == id;
      }
    }
  }

  lemma EnqueueIdempotent(q: seq<uint64>, id: uint64)
    ensures Enqueue(Enqueue(q, id), id) == Enqueue(q, id)
  {
    assert id in Enqueue(q, id) by {
      if id !in q {
        assert Enqueue(q, id)[|q|] == id;
      }
    }
  }

  /** `notify_players`: every id queued in turn. */
  function EnqueueAll(q: seq<uint64>, ids: seq<uint64>): (r: seq<uint64>)
    ensures q <= r
    ensures forall i :: 0 <= i < |ids| ==> ids[i] in r
  {
    if ids == [] then q else Enqueue(EnqueueAll(q, ids[..|ids| - 1]), ids[|ids| - 1])
  }

  lemma {:induction false} EnqueueAllKeepsQueue(q: seq<uint64>, ids: seq<uint64>)
    requires NoDuplicates(q)
    ensures var r := EnqueueAll(q, ids);
      NoDuplicates(r) && Elems(r) == Elems(q) + Elems(ids) && q <= r
  {
    if ids != [] {
      var init := ids[..|ids| - 1];
      EnqueueAllKeepsQueue(q, init);
      EnqueueKeepsQueue(EnqueueAll(q, init), ids[|ids| - 1]);
      assert Elems(ids) == Elems(init) + {ids[|ids| - 1]} by {
        assert ids == init + [ids[|ids| - 1]];
      }
    }
  }

  function Ids(ps: seq<Player>): (r: seq<uint64>)
    ensures |r| == |ps| && forall i :: 0 <= i < |ps| ==> r[i] == ps[i].innerId
  {
    seq(|ps|, i requires 0 <= i < |ps| => ps[i].innerId)
  }

  /** A player's turn passed on to its snake: only for a playing player, in
      an unfinished round. */
  function Directed(snakes: seq<Rounds.Snake>, p: Player, turn: int8, running: bool): seq<Rounds.Snake> {
    if !p.lurking && running && p.snakeId < |snakes|
    then snakes[p.snakeId := snakes[p.snakeId].(lastTurnDirection := turn)]
    else snakes
  }

  /** The snakes after a message: only a returning player steers. */
  function DirectedSnakes(snakes: seq<Rounds.Snake>, ps: seq<Player>, e: ClientMessage, addr: SockAddr, running: bool): seq<Rounds.Snake> {
    match Classify(ps, e, addr)
    case Returning(k) => Directed(snakes, ps[k], e.turnDirection, running)
    case _ => snakes
  }

  // ---------------------------------------------------------------------------
  // The game state

  /** Ids below `n` and pairwise distinct. */
  ghost predicate IdsBelow(ps: seq<Player>, n: nat) {
    (forall i :: 0 <= i < |ps| ==> ps[i].innerId < n)
    && (forall i, j :: 0 <= i < |ps| && 0 <= j < |ps| && i != j ==> ps[i].innerId != ps[j].innerId)
  }

  /** Every playing (non-lurking) player has a snake of the round. */
  ghost predicate SnakesAssigned(ps: seq<Player>, snakeCount: nat) {
    forall i :: 0 <= i < |ps| ==> !ps[i].lurking ==> ps[i].snakeId < snakeCount
  }

  /** What `update_game_state_on_player_message` found. */
  datatype RoundCheck =
    | RoundRunning     // an unfinished round is under way
    | NoActiveRound    // only the placeholder round: the `dynamic_cast` throws
    | GameOverCleared  // a finished round's game over is acknowledged
    | StartRound       // two players are ready (`start_new_round` has no body)
    | Waiting

  /** What evicting the inactive players and registering a datagram's sender
      does: the players still active, in some order (`kept`), have the sender
      registered into them (`ps'`); the counter, the queue and the snakes
      change as that registration says. */
  ghost predicate Arrived(ps: seq<Player>, counter: uint64, queue: seq<uint64>, snakes: seq<Rounds.Snake>,
                          e: ClientMessage, addr: SockAddr, t: uint64, tolerance: uint64, running: bool,
                          kept: seq<Player>, ps': seq<Player>, counter': uint64, queue': seq<uint64>,
                          snakes': seq<Rounds.Snake>)
  {
    && multiset(kept) == multiset(Kept(ps, t, tolerance))
    && ps' == Registered(kept, e, addr, t, counter)
    && counter' == (if Admits(kept, e, addr) then ToUint64(counter as int + 1) else counter)
    && queue' == (match NotifiedId(kept, e, addr, counter)
                  case None => queue
                  case Some(id) => Enqueue(queue, id))
    && snakes' == DirectedSnakes(snakes, kept, e, addr, running)
  }

  class GameState {
    /** `INACTIVITY_TOLERANCE`, which no source file defines. */
    const tolerance: uint64
    /** The global generator `r`. */
    const gen: Prng.Generator
    var round: Rounds.Round
    var players: seq<Player>
    var pending: set<uint64>
    var pendingQueue: seq<uint64>
    var innerCounter: uint64
    /** How many ids have been handed out; `innerCounter` is this modulo 2^64. */
    ghost var issued: nat

    /** At most 42 players, at distinct addresses; while fewer than 2^64 ids
        have been handed out, every id is distinct and below the counter; the
        queue holds each pending id once; the round is well formed and every
        playing player's snake exists. */
    ghost predicate Valid()
      reads this, round
    {
      && |players| <= MAX_PLAYERS
      && AddrsDistinct(players)
      && innerCounter == issued % TWO_TO_64
      && (issued <= TWO_TO_64 ==> IdsBelow(players, issued))
      && NoDuplicates(pendingQueue) && pending == Elems(pendingQueue)
      && round.Valid()
      && SnakesAssigned(players, |round.snakes|)
    }

    /** `GameState(seed)`: seed the global generator; no players, no round. */
    constructor (seed: uint32, tolerance: uint64, host: Wire.Endianness, crc: seq<byte> -> uint32)
      ensures Valid() && !round.active && fresh(round)
      ensures this.tolerance == tolerance
      ensures players == [] && pendingQueue == [] && innerCounter == 0
      ensures gen.Valid() && gen.seed == seed && gen.calls == 0
    {
      this.tolerance := tolerance;
      gen := new Prng.Generator(seed);
      round := new Rounds.Round.Placeholder(host, crc);
      players, pending, pendingQueue := [], {}, [];
      innerCounter, issued := 0, 0;
    }

    /** `has_active_round()`. */
    function HasActiveRound(): (r: (bool, bool))
      reads this, round
      ensures r.0 == round.active && (r.1 <==> round.active && !round.roundFinished)
    {
      round.Progress()
    }

    lemma RemovalKeepsValid(i: nat)
      requires Valid() && i < |players|
      ensures var rest := RemoveAt(players, i);
        && AddrsDistinct(rest)
        && (issued <= TWO_TO_64 ==> IdsBelow(rest, issued))
        && SnakesAssigned(rest, |round.snakes|)
    {
      var rest := RemoveAt(players, i);
      forall a, b | 0 <= a < |rest| && 0 <= b < |rest| && a != b
        ensures !AddrEqual(rest[a].sockaddr, rest[b].sockaddr)
        ensures issued <= TWO_TO_64 ==> rest[a].innerId != rest[b].innerId
      {
        var sa := if a == i then |players| - 1 else a;
        var sb := if b == i then |players| - 1 else b;
        assert rest[a] == players[sa] && rest[b] == players[sb] && sa != sb;
      }
      forall a | 0 <= a < |rest|
        ensures issued <= TWO_TO_64 ==> rest[a].innerId < issued
        ensures !rest[a].lurking ==> rest[a].snakeId < |round.snakes|
      {
        var sa := if a == i then |players| - 1 else a;
        assert rest[a] == players[sa];
      }
    }

    /** `disconnect_player(id)`. */
    method DisconnectPlayer(i: nat)
      requires Valid() && i < |players|
      modifies this`players
      ensures Valid()
      ensures players == RemoveAt(old(players), i)
    {
      RemovalKeepsValid(i);
      var last := |players| - 1;
      if i < last {
        // std::swap(players[id], players[players.size() - 1])
        players := players[i := players[last]][last := players[i]];
      }
      players := players[..last];
      assert players == RemoveAt(old(players), i);
    }

    /** `disconnect_inactive(threshold)`: slot `i` is examined again after a
        removal, since the last player has just moved into it. */
    method DisconnectInactive(t: uint64)
      requires Valid()
      modifies this`players
      ensures Valid()
      ensures multiset(players) == multiset(Kept(old(players), t, tolerance))
    {
      var i := 0;
      ghost var goal := multiset(Kept(players, t, tolerance));
      assert players[..0] == [] && players[0..] == players;
      while i < |players|
        invariant Valid() && 0 <= i <= |players|
        invariant Examined(players, i, t, tolerance, goal)
        decreases |players| - i
      {
        if (t - players[i].lastContact) % TWO_TO_64 < tolerance {
          SkipKeepsExamined(players, i, t, tolerance, goal);
          i := i + 1;
        } else {
          RemovalKeepsExamined(players, i, t, tolerance, goal);
          DisconnectPlayer(i);
        }
      }
      ExaminedAll(players, t, tolerance, goal);
    }

    /** `notify_player(p)`. */
    method NotifyPlayer(p: Player)
      requires Valid()
      modifies this`pending, this`pendingQueue
      ensures Valid()
      ensures pendingQueue == Enqueue(old(pendingQueue), p.innerId)
      ensures pending == old(pending) + {p.innerId}
    {
      EnqueueKeepsQueue(pendingQueue, p.innerId);
      if p.innerId !in pending {
        pending := pending + {p.innerId};
        pendingQueue := pendingQueue + [p.innerId];
      }
    }

    /** `notify_players()`: every player, in vector order. */
    method NotifyPlayers()
      requires Valid()
      modifies this`pending, this`pendingQueue
      ensures Valid()
      ensures pendingQueue == EnqueueAll(old(pendingQueue), Ids(players))
      ensures pending == old(pending) + Elems(Ids(players))
    {
      var i := 0;
      while i < |players|
        invariant Valid() && 0 <= i <= |players|
        invariant pendingQueue == EnqueueAll(old(pendingQueue), Ids(players)[..i])
      {
        assert Ids(players)[..i + 1][..i] == Ids(players)[..i];
        NotifyPlayer(players[i]);
        i := i + 1;
      }
      assert Ids(players)[..i] == Ids(players);
      EnqueueAllKeepsQueue(old(pendingQueue), Ids(players));
    }

    /** `connect_player`: a full registry ignores the message; otherwise the
        new player takes the next id and is notified. Callers connect only
        addresses no player has. */
    method ConnectPlayer(e: ClientMessage, addr: SockAddr, t: uint64)
      requires Valid()
      requires forall j :: 0 <= j < |players| ==> !AddrEqual(players[j].sockaddr, addr)
      modifies this`players, this`innerCounter, this`issued, this`pending, this`pendingQueue
      ensures Valid()
      ensures players == Admit(old(players), NewPlayer(e, addr, t, old(innerCounter)))
      ensures |old(players)| >= MAX_PLAYERS ==>
        innerCounter == old(innerCounter) && issued == old(issued) && pendingQueue == old(pendingQueue)
      ensures |old(players)| < MAX_PLAYERS ==>
        && innerCounter == ToUint64(old(innerCounter) + 1) && issued == old(issued) + 1
        && pendingQueue == Enqueue(old(pendingQueue), old(innerCounter))
    {
      if |players| >= MAX_PLAYERS {
        return;
      }
      var p := NewPlayer(e, addr, t, innerCounter);
      innerCounter := (innerCounter + 1) % TWO_TO_64;
      issued := issued + 1;
      forall i, j | 0 <= i < |players| + 1 && 0 <= j < |players| + 1 && i != j
        ensures !AddrEqual((players + [p])[i].sockaddr, (players + [p])[j].sockaddr)
      {
        if i == |players| {
          AddrEqualSymmetric(addr, players[j].sockaddr);
        }
      }
      players := players + [p];
      NotifyPlayer(p);
    }

    /** `connect_or_update_player`. */
    method ConnectOrUpdatePlayer(e: ClientMessage, addr: SockAddr, t: uint64)
      requires Valid()
      modifies this`players, this`innerCounter, this`issued, this`pending, this`pendingQueue, round`snakes
      ensures Valid()
      ensures players == Registered(old(players), e, addr, t, old(innerCounter))
      ensures innerCounter == (if Admits(old(players), e, addr) then ToUint64(old(innerCounter) + 1) else old(innerCounter))
      ensures pendingQueue == (match NotifiedId(old(players), e, addr, old(innerCounter))
                               case None => old(pendingQueue)
                               case Some(id) => Enqueue(old(pendingQueue), id))
      ensures round.snakes == DirectedSnakes(old(round.snakes), old(players), e, addr, round.Progress().1)
    {
      var i := 0;
      while i < |players|
        invariant 0 <= i <= |players|
        invariant forall j :: 0 <= j < i ==> !AddrEqual(players[j].sockaddr, addr)
      {
        var p := players[i];
        if AddrEqual(p.sockaddr, addr) {
          assert FindAddr(players, addr) == Some(i);
          if p.sessionId > e.sessionId {
            return;
          } else if p.sessionId < e.sessionId {
            Supersede(i, e, addr, t);
            return;
          } else {
            Refresh(i, e, t);
            return;
          }
        }
        i := i + 1;
      }
      ConnectPlayer(e, addr, t);
    }

    /** The newer-session branch: the stored player goes, a fresh one comes. */
    method Supersede(i: nat, e: ClientMessage, addr: SockAddr, t: uint64)
      requires Valid() && i < |players| && AddrEqual(players[i].sockaddr, addr)
      modifies this`players, this`innerCounter, this`issued, this`pending, this`pendingQueue
      ensures Valid()
      ensures players == RemoveAt(old(players), i) + [NewPlayer(e, addr, t, old(innerCounter))]
      ensures innerCounter == ToUint64(old(innerCounter) + 1)
      ensures pendingQueue == Enqueue(old(pendingQueue), old(innerCounter))
    {
      forall j | 0 <= j < |players| && j != i
        ensures !AddrEqual(players[j].sockaddr, addr)
      {
        AddrEqualSameTarget(players[j].sockaddr, players[i].sockaddr, addr);
      }
      DisconnectPlayer(i);
      ConnectPlayer(e, addr, t);
    }

    /** The same-session branch: refresh the player, pass its turn on to its
        snake if it plays in an unfinished round, and notify it. */
    method Refresh(i: nat, e: ClientMessage, t: uint64)
      requires Valid() && i < |players|
      modifies this`players, this`pending, this`pendingQueue, round`snakes
      ensures Valid()
      ensures players == old(players)[i := Refreshed(old(players)[i], e, t)]
      ensures pendingQueue == Enqueue(old(pendingQueue), old(players)[i].innerId)
      ensures round.snakes == Directed(old(round.snakes), old(players)[i], e.turnDirection, round.Progress().1)
    {
      var p := players[i];
      players := players[i := Refreshed(p, e, t)];
      if !p.lurking && round.Progress().1 {
        Int32RoundTrip(e.turnDirection);
        round.Direction(p.snakeId, ToUint32(e.turnDirection));
      }
      NotifyPlayer(p);
    }

    /** `update_game_state_on_player_message()`. */
    method UpdateGameStateOnPlayerMessage() returns (r: RoundCheck)
      requires Valid()
      modifies this`players, round`gameOverRaised
      ensures Valid()
      ensures old(round.Progress()).1 ==> r == RoundRunning
      ensures !round.active ==> r == NoActiveRound
      ensures round.active && !old(round.Progress()).1 ==>
        if old(round.gameOverRaised) then r == GameOverCleared && players == ArrowsCleared(old(players))
        else r == (if CountReady(players) >= 2 then StartRound else Waiting)
      ensures r != GameOverCleared ==> players == old(players) && round.gameOverRaised == old(round.gameOverRaised)
      ensures r == GameOverCleared ==> !round.gameOverRaised
    {
      if round.Progress().1 {
        return RoundRunning;
      }
      if !round.active {
        return NoActiveRound;
      }
      if round.gameOverRaised {
        round.gameOverRaised := false;
        ClearArrows();
        return GameOverCleared;
      }
      var two := TwoReady();
      return if two then StartRound else Waiting;
    }

    /** Every player's arrow flag reset, after a game over. */
    method ClearArrows()
      requires Valid()
      modifies this`players
      ensures Valid() && players == ArrowsCleared(old(players))
    {
      var i := 0;
      while i < |players|
        invariant Valid() && 0 <= i <= |players| == |old(players)|
        invariant forall j :: 0 <= j < i ==> players[j] == old(players)[j].(pressedArrow := false)
        invariant forall j :: i <= j < |players| ==> players[j] == old(players)[j]
      {
        players := players[i := players[i].(pressedArrow := false)];
        i := i + 1;
      }
    }

    /** The counting loop: stops at the second ready player. */
    method TwoReady() returns (two: bool)
      ensures two <==> CountReady(players) >= 2
    {
      var counter := 0;
      var i := 0;
      while i < |players|
        invariant 0 <= i <= |players|
        invariant counter == CountReady(players[..i]) && counter < 2
      {
        assert players[..i + 1][..i] == players[..i];
        if Ready(players[i]) {
          counter := counter + 1;
          if counter >= 2 {
            CountReadyPrefix(players, i + 1);
            return true;
          }
        }
        i := i + 1;
      }
      assert players[..i] == players;
      return false;
    }

    /** The round-start check with the cast guarded: with no active round
        there is no game over to acknowledge, and the ready players are
        counted as for a finished round. */
    method UpdateGameStateGuarded() returns (r: RoundCheck)
      requires Valid()
      modifies this`players, round`gameOverRaised
      ensures Valid()
      ensures r != NoActiveRound
      ensures !round.active ==> players == old(players) && r == (if CountReady(players) >= 2 then StartRound else Waiting)
      ensures old(round.Progress()).1 ==> r == RoundRunning
      ensures round.active && !old(round.Progress()).1 ==>
        if old(round.gameOverRaised) then r == GameOverCleared && players == ArrowsCleared(old(players))
        else r == (if CountReady(players) >= 2 then StartRound else Waiting)
      ensures r != GameOverCleared ==> players == old(players) && round.gameOverRaised == old(round.gameOverRaised)
    {
      if !round.active {
        var two := TwoReady();
        return if two then StartRound else Waiting;
      }
      r := UpdateGameStateOnPlayerMessage();
    }

    /** `got_message(buffer, addr, rec_time)`: a datagram that does not parse
        is dropped (`None`); otherwise the inactive players go, the sender is
        registered or updated, and the round-start rule runs, whose outcome is
        returned. `NoActiveRound` stands for the `std::bad_cast` that leaves
        `got_message` uncaught when no round is active. */
    method GotMessage(parsed: Option<ClientMessage>, addr: SockAddr, t: uint64) returns (r: Option<RoundCheck>)
      requires Valid()
      modifies this`players, this`innerCounter, this`issued, this`pending, this`pendingQueue, round`snakes, round`gameOverRaised
      ensures Valid()
      ensures r.None? <==> parsed.None?
      ensures parsed.None? ==> players == old(players) && pendingQueue == old(pendingQueue)
                               && innerCounter == old(innerCounter) && round.snakes == old(round.snakes)
      ensures r == Some(NoActiveRound) <==> parsed.Some? && !round.active
      ensures parsed.Some? && old(round.Progress()).1 ==> r == Some(RoundRunning)
      ensures parsed.Some? && round.active && !old(round.Progress()).1 ==>
        if old(round.gameOverRaised) then r == Some(GameOverCleared) && !round.gameOverRaised
        else r == Some(if CountReady(players) >= 2 then StartRound else Waiting)
      ensures parsed.Some? ==> exists kept: seq<Player>, registered: seq<Player> ::
        && Arrived(old(players), old(innerCounter), old(pendingQueue), old(round.snakes), parsed.value, addr, t, tolerance,
                   old(round.Progress()).1, kept, registered, innerCounter, pendingQueue, round.snakes)
        && players == (if r == Some(GameOverCleared) then ArrowsCleared(registered) else registered)
    {
      if parsed.None? {
        return None;
      }
      var e := parsed.value;
      Arrive(e, addr, t);
      ghost var kept: seq<Player>, registered: seq<Player> :|
        Arrived(old(players), old(innerCounter), old(pendingQueue), old(round.snakes), e, addr, t, tolerance,
                old(round.Progress()).1, kept, registered, innerCounter, pendingQueue, round.snakes);
      var check := UpdateGameStateOnPlayerMessage();
      r := Some(check);
    }

    /** `disconnect_inactive(rec_time)` followed by
        `connect_or_update_player(e, addr, rec_time)`: the sender is registered
        into some order of the players still active. */
    method Arrive(e: ClientMessage, addr: SockAddr, t: uint64)
      requires Valid()
      modifies this`players, this`innerCounter, this`issued, this`pending, this`pendingQueue, round`snakes
      ensures Valid()
      ensures exists kept: seq<Player> ::
        Arrived(old(players), old(innerCounter), old(pendingQueue), old(round.snakes), e, addr, t, tolerance,
                old(round.Progress()).1, kept, players, innerCounter, pendingQueue, round.snakes)
    {
      DisconnectInactive(t);
      ghost var kept := players;
      ConnectOrUpdatePlayer(e, addr, t);
      assert Arrived(old(players), old(innerCounter), old(pendingQueue), old(round.snakes), e, addr, t, tolerance,
                     old(round.Progress()).1, kept, players, innerCounter, pendingQueue, round.snakes);
    }
  }

  /** The first well-formed datagram a fresh server receives: as written the
      round is still the plain `Round`, so the cast throws; with the cast
      guarded, the lone player is registered and the server waits. */
  method FirstDatagramAsWritten(seed: uint32, tolerance: uint64, host: Wire.Endianness, crc: seq<byte> -> uint32,
                                e: ClientMessage, addr: SockAddr, t: uint64)
    returns (written: Option<RoundCheck>, guarded: RoundCheck)
    ensures written == Some(NoActiveRound)
    ensures guarded == Waiting
  {
    var g := new GameState(seed, tolerance, host, crc);
    ghost var p0, c0, q0, s0, running := g.players, g.innerCounter, g.pendingQueue, g.round.snakes, g.round.Progress().1;
    written := g.GotMessage(Some(e), addr, t);
    ghost var kept: seq<Player>, registered: seq<Player> :|
      Arrived(p0, c0, q0, s0, e, addr, t, tolerance, running, kept, registered, g.innerCounter, g.pendingQueue, g.round.snakes)
      && g.players == registered;
    assert p0 == [] && c0 == 0;
    assert |kept| == |multiset(kept)| == 0;
    assert |g.players| == 1;
    guarded := g.UpdateGameStateGuarded();
  }
}
