/** The server's in-memory game state (server.js): the module-level roster of
    player objects, the handlers that admit a connection, apply a `move`
    message and react to a closed connection, and the game loop. Each
    handler is proved against the roster function of the same name in Rules. */
module Server {
  import opened Rules

  /** A player object. Its id is fixed at admission; position, velocity and
      alive flag are updated in place by the handlers and the game loop. */
  class Player {
    const id: nat
    var x: int
    var y: int
    var dx: int
    var dy: int
    var alive: bool

    /** The player object built for a connection admitted into `slot`. */
    constructor (slot: nat)
      ensures State() == Joiner(slot)
    {
      id := slot;
      x := StartX(slot);
      y := StartY;
      dx := 1;
      dy := 0;
      alive := true;
    }

    /** The value this object holds. */
    function State(): PlayerState
      reads this
    {
      PlayerState(id, x, y, dx, dy, alive)
    }
  }

  /** A decoded message from a client; only `move` has an effect. */
  datatype Message = Move(dx: int, dy: int) | Other

  /** The server's roster of players. */
  class Game {
    var players: seq<Player>

    /** The roster invariant on the values, and no object listed twice. */
    ghost predicate Valid()
      reads this, players
    {
      WellFormed(View()) &&
      forall i, j :: 0 <= i < j < |players| ==> players[i] != players[j]
    }

    /** The roster as values. */
    function View(): seq<PlayerState>
      reads this, players
    {
      seq(|players|, k reads this, players requires 0 <= k < |players| => players[k].State())
    }

    /** The server starts with an empty roster. */
    constructor ()
      ensures Valid() && View() == []
    {
      players := [];
    }

    /** A new connection. Refused (null) when two players are present, with
        the roster unchanged; otherwise a fresh player object is appended. */
    method Connect() returns (p: Player?)
      requires Valid()
      modifies this
      ensures Valid()
      ensures p == null <==> |old(players)| >= MaxPlayers
      ensures p == null ==> players == old(players)
      ensures p != null ==> fresh(p) && players == old(players) + [p]
      ensures Admit(old(View())).Some? ==> View() == Admit(old(View())).value
      ensures Admit(old(View())).None? ==> View() == old(View())
    {
      if |players| >= MaxPlayers {
        return null;
      }
      p := new Player(|players|);
      ghost var before := View();
      players := players + [p];
      assert View() == before + [Joiner(|before|)];
    }

    /** A message on the connection of player object `p`. A `move` overwrites
        that object's velocity; if a closed connection has since wiped the
        roster, `p` is no longer listed and the roster does not change. */
    method Receive(p: Player, msg: Message)
      requires Valid()
      modifies p
      ensures Valid()
      ensures msg.Move? ==> p.dx == msg.dx && p.dy == msg.dy
      ensures msg.Move? && p in players ==>
        p.id < |old(View())| && View() == Steer(old(View()), p.id, msg.dx, msg.dy)
      ensures msg.Other? || p !in players ==> View() == old(View())
      ensures p.x == old(p.x) && p.y == old(p.y) && p.alive == old(p.alive)
      ensures msg.Other? ==> unchanged(p)
    {
      if msg.Move? {
        ghost var before := View();
        p.dx := msg.dx;
        p.dy := msg.dy;
        if p in players {
          ghost var k :| 0 <= k < |players| && players[k] == p;
          assert before[k].id == k;
          assert View() == Steer(before, k, msg.dx, msg.dy);
        } else {
          assert View() == before;
        }
      }
    }

    /** Any admitted connection closing empties the whole roster. */
    method Close()
      requires Valid()
      modifies this
      ensures Valid() && players == [] && View() == []
    {
      players := [];
    }

    /** One run of the game loop. With fewer than two players nothing
        happens and no state message is produced; otherwise every live player
        moves and is eliminated if it leaves the arena, and the state message
        describes the new roster. No player object comes back to life. */
    method Tick() returns (state: Option<seq<Entry>>)
      requires Valid()
      modifies players
      ensures Valid() && players == old(players)
      ensures View() == Rules.Tick(old(View()))
      ensures state.None? <==> |players| < PlayersToPlay
      ensures state.Some? ==> state.value == Snapshot(View())
      ensures forall k :: 0 <= k < |players| && players[k].alive ==> old(players[k].alive)
    {
      if |players| < PlayersToPlay {
        return None;
      }
      ghost var before := View();
      var i := 0;
      while i < |players|
        invariant 0 <= i <= |players|
        invariant forall k :: 0 <= k < i ==> players[k].State() == Step(before[k])
        invariant forall k :: i <= k < |players| ==> players[k].State() == before[k]
      {
        var p := players[i];
        if p.alive {
          p.x := p.x + p.dx * Speed;
          p.y := p.y + p.dy * Speed;
          if p.x < 0 || p.x > ArenaSize || p.y < 0 || p.y > ArenaSize {
            p.alive := false;
          }
        }
        i := i + 1;
      }
      forall k | 0 <= k < |players| ensures View()[k] == Rules.Tick(before)[k] {
        AdvanceAt(before, k);
      }
      forall k | 0 <= k < |players| && players[k].alive ensures old(players[k].alive) {
        TickNeverRevives(before, k);
      }
      state := Some(Snapshot(View()));
    }
  }
}
