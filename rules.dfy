/** The rules of the two-player arena game served by server.js, on values.
    A roster is the ordered list of players; each operation of the server is
    a function from the roster before to the roster after, and the lemmas
    below state what the server promises about them. */
module Rules {

  /** A connection arriving when this many players are present is refused. */
  const MaxPlayers := 2
  /** The game loop does nothing while fewer players than this are present. */
  const PlayersToPlay := 2
  /** The arena is the closed square [0, ArenaSize] x [0, ArenaSize]. */
  const ArenaSize := 400
  /** Every tick moves a player by this many times its velocity. */
  const Speed := 2
  /** Every player starts on this horizontal line. */
  const StartY := 200

  datatype Option<T> = None | Some(value: T)

  /** One player as the server holds it (the connection itself is left out). */
  datatype PlayerState = PlayerState(id: nat, x: int, y: int, dx: int, dy: int, alive: bool)

  /** One entry of the broadcast state message. */
  datatype Entry = Entry(id: nat, x: int, y: int, alive: bool)

  /** A position is inside the arena, both edges included. */
  predicate InArena(x: int, y: int) {
    0 <= x <= ArenaSize && 0 <= y <= ArenaSize
  }

  /** The roster invariant: at most two players, each at the slot equal to its id. */
  predicate WellFormed(roster: seq<PlayerState>) {
    |roster| <= MaxPlayers && forall k :: 0 <= k < |roster| ==> roster[k].id == k
  }

  /** The start column of the player admitted into `slot`. */
  function StartX(slot: nat): int {
    if slot == 0 then 50 else 350
  }

  /** The player admitted into `slot`: moving right, alive. */
  function Joiner(slot: nat): PlayerState {
    PlayerState(slot, StartX(slot), StartY, 1, 0, true)
  }

  /** A new connection: None when the roster is full and the connection is
      refused, otherwise the roster with the new player appended. */
  function Admit(roster: seq<PlayerState>): (r: Option<seq<PlayerState>>)
    ensures r.None? <==> |roster| >= MaxPlayers
    ensures r.Some? ==> |r.value| == |roster| + 1 && r.value[..|roster|] == roster
  {
    if |roster| >= MaxPlayers then None else Some(roster + [Joiner(|roster|)])
  }

  /** A `move` message for the player in `slot`: its velocity is replaced. */
  function Steer(roster: seq<PlayerState>, slot: nat, dx: int, dy: int): (r: seq<PlayerState>)
    requires slot < |roster|
    ensures |r| == |roster|
    ensures forall k :: 0 <= k < |roster| && k != slot ==> r[k] == roster[k]
  {
    roster[slot := roster[slot].(dx := dx, dy := dy)]
  }

  /** One tick for one player: a dead player is left as it is; a live one
      moves by Speed times its velocity and dies if it leaves the arena. */
  function Step(p: PlayerState): (r: PlayerState)
    ensures r.id == p.id && r.dx == p.dx && r.dy == p.dy
    ensures r.alive ==> p.alive
  {
    if !p.alive then p
    else
      var x, y := p.x + p.dx * Speed, p.y + p.dy * Speed;
      p.(x := x, y := y, alive := InArena(x, y))
  }

  /** Step applied to every player, in roster order. */
  function Advance(roster: seq<PlayerState>): (r: seq<PlayerState>)
    ensures |r| == |roster|
  {
    if roster == [] then [] else [Step(roster[0])] + Advance(roster[1..])
  }

  /** One run of the game loop on the roster. */
  function Tick(roster: seq<PlayerState>): (r: seq<PlayerState>)
    ensures |r| == |roster|
  {
    if |roster| < PlayersToPlay then roster else Advance(roster)
  }

  /** The state message: id, position and alive flag of every player, in roster order. */
  function Snapshot(roster: seq<PlayerState>): (r: seq<Entry>)
    ensures |r| == |roster|
  {
    if roster == [] then []
    else [Entry(roster[0].id, roster[0].x, roster[0].y, roster[0].alive)] + Snapshot(roster[1..])
  }

  /** `n` runs of the game loop. */
  function Ticks(roster: seq<PlayerState>, n: nat): seq<PlayerState> {
    if n == 0 then roster else Tick(Ticks(roster, n - 1))
  }

  // ---------------------------------------------------------------------
  // Admission

  /** Admission keeps the roster invariant: never more than two players,
      and the newcomer's id is the roster size before admission. */
  lemma AdmitKeepsWellFormed(roster: seq<PlayerState>)
    requires WellFormed(roster)
    ensures Admit(roster).Some? ==> WellFormed(Admit(roster).value)
  {
  }

  /** The admitted player is appended at the end, with id equal to the old
      roster size, at x = 50 if first and 350 if second, y = 200, velocity
      (1, 0), alive. */
  lemma AdmittedPlayer(roster: seq<PlayerState>)
    requires |roster| < MaxPlayers
    ensures var r := Admit(roster);
      r.Some? && |r.value| == |roster| + 1 &&
      var p := r.value[|roster|];
      p.id == |roster| && p.x == (if |roster| == 0 then 50 else 350) &&
      p.y == 200 && p.dx == 1 && p.dy == 0 && p.alive
  {
  }

  /** The two players of a full roster start mirrored about the vertical
      centre line of the arena, on the same row, with the same velocity. */
  lemma StartsMirrored()
    ensures Admit([]).Some? && Admit(Admit([]).value) == Some(Opening())
    ensures var r := Opening();
      |r| == 2 && r[0].x + r[1].x == ArenaSize && r[0].y == r[1].y == ArenaSize / 2 &&
      r[0].dx == r[1].dx && r[0].dy == r[1].dy
  {
    assert Admit([]).value == [Joiner(0)];
    assert [Joiner(0)] + [Joiner(1)] == Opening();
  }

  // ---------------------------------------------------------------------
  // Move messages

  /** A move replaces the velocity of the addressed player only; its id,
      position and alive flag and every other player are unchanged. */
  lemma SteerChangesOnlyVelocity(roster: seq<PlayerState>, slot: nat, dx: int, dy: int, k: nat)
    requires slot < |roster| && k < |roster|
    ensures |Steer(roster, slot, dx, dy)| == |roster|
    ensures var q := Steer(roster, slot, dx, dy)[k];
      if k == slot
      then q.dx == dx && q.dy == dy && q.id == roster[k].id && q.x == roster[k].x &&
           q.y == roster[k].y && q.alive == roster[k].alive
      else q == roster[k]
  {
  }

  /** A move keeps the roster invariant. */
  lemma SteerKeepsWellFormed(roster: seq<PlayerState>, slot: nat, dx: int, dy: int)
    requires WellFormed(roster) && slot < |roster|
    ensures WellFormed(Steer(roster, slot, dx, dy))
  {
  }

  // ---------------------------------------------------------------------
  // The game loop

  /** The k-th player after Advance is the k-th player stepped. */
  lemma {:induction false} AdvanceAt(roster: seq<PlayerState>, k: nat)
    requires k < |roster|
    ensures |Advance(roster)| == |roster|
    ensures Advance(roster)[k] == Step(roster[k])
  {
    if k > 0 {
      AdvanceAt(roster[1..], k - 1);
    }
  }

  /** A tick with fewer than two players changes nothing. */
  lemma TickIdle(roster: seq<PlayerState>)
    requires |roster| < PlayersToPlay
    ensures Tick(roster) == roster
  {
  }

  /** A tick keeps the roster length and the id of every player. */
  lemma TickKeepsWellFormed(roster: seq<PlayerState>)
    requires WellFormed(roster)
    ensures |Tick(roster)| == |roster|
    ensures WellFormed(Tick(roster))
  {
    forall k | 0 <= k < |roster| ensures Tick(roster)[k].id == k {
      AdvanceAt(roster, k);
    }
  }

  /** A tick never changes a player that is already dead. */
  lemma TickFreezesDead(roster: seq<PlayerState>, k: nat)
    requires k < |roster| && !roster[k].alive
    ensures |Tick(roster)| == |roster| && Tick(roster)[k] == roster[k]
  {
    if |roster| >= PlayersToPlay {
      AdvanceAt(roster, k);
    }
  }

  /** With two players present, a tick moves every live player by twice its
      velocity and keeps its id and velocity. */
  lemma TickMoves(roster: seq<PlayerState>, k: nat)
    requires |roster| >= PlayersToPlay && k < |roster| && roster[k].alive
    ensures |Tick(roster)| == |roster|
    ensures var p, q := roster[k], Tick(roster)[k];
      q.x == p.x + 2 * p.dx && q.y == p.y + 2 * p.dy &&
      q.dx == p.dx && q.dy == p.dy && q.id == p.id
  {
    AdvanceAt(roster, k);
  }

  /** With two players present, a player alive before a tick is dead after it
      exactly when its new position is outside 0 <= x <= 400, 0 <= y <= 400. */
  lemma TickEliminates(roster: seq<PlayerState>, k: nat)
    requires |roster| >= PlayersToPlay && k < |roster| && roster[k].alive
    ensures |Tick(roster)| == |roster|
    ensures var q := Tick(roster)[k];
      !q.alive <==> (q.x < 0 || q.x > 400 || q.y < 0 || q.y > 400)
  {
    AdvanceAt(roster, k);
  }

  /** A tick never brings a dead player back: alive after implies alive before. */
  lemma TickNeverRevives(roster: seq<PlayerState>, k: nat)
    requires k < |roster| && Tick(roster)[k].alive
    ensures roster[k].alive
  {
    if |roster| >= PlayersToPlay {
      AdvanceAt(roster, k);
    }
  }

  // ---------------------------------------------------------------------
  // The state message

  /** The state message has one entry per player, in roster order, carrying
      that player's id, position and alive flag. */
  lemma {:induction false} SnapshotAt(roster: seq<PlayerState>, k: nat)
    requires k < |roster|
    ensures |Snapshot(roster)| == |roster|
    ensures Snapshot(roster)[k] == Entry(roster[k].id, roster[k].x, roster[k].y, roster[k].alive)
  {
    if k > 0 {
      SnapshotAt(roster[1..], k - 1);
    }
  }

  /** For a well-formed roster the ids in the state message are 0, 1, ... in order. */
  lemma SnapshotIds(roster: seq<PlayerState>, k: nat)
    requires WellFormed(roster) && k < |roster|
    ensures |Snapshot(roster)| == |roster| && Snapshot(roster)[k].id == k
  {
    SnapshotAt(roster, k);
  }

  // ---------------------------------------------------------------------
  // A whole match from the opening position

  /** The roster once both players are admitted (see StartsMirrored). */
  function Opening(): seq<PlayerState> {
    [Joiner(0), Joiner(1)]
  }

  /** For the first 25 ticks both players run right side by side, two units
      a tick, and stay alive (the second reaches x = 400, still in bounds). */
  lemma {:induction false} OpeningRun(n: nat)
    requires n <= 25
    ensures Ticks(Opening(), n) == [Joiner(0).(x := 50 + 2 * n), Joiner(1).(x := 350 + 2 * n)]
  {
    if n > 0 {
      OpeningRun(n - 1);
      var before := [Joiner(0).(x := 50 + 2 * (n - 1)), Joiner(1).(x := 350 + 2 * (n - 1))];
      AdvanceAt(before, 0);
      AdvanceAt(before, 1);
    }
  }

  /** On the 26th tick the second player crosses x = 400 and is eliminated,
      while the first goes on. */
  lemma SecondPlayerHitsWall()
    ensures Ticks(Opening(), 26) ==
      [Joiner(0).(x := 102), Joiner(1).(x := 402, alive := false)]
  {
    OpeningRun(25);
    var before := [Joiner(0).(x := 100), Joiner(1).(x := 400)];
    AdvanceAt(before, 0);
    AdvanceAt(before, 1);
  }
}
