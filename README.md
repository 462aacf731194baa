# Two-player arena server: verified model of its game state

`server.js` is a small WebSocket game server. Besides the network plumbing it
keeps one in-memory roster of at most two players and runs a game loop on it:

- a new connection is admitted while fewer than two players are present and
  gets a fixed slot (id = roster size, x = 50 or 350, y = 200, velocity
  (1, 0), alive); a third connection is closed and the roster is untouched;
- a `move` message overwrites the sending player's velocity;
- closing any admitted connection empties the whole roster;
- every tick of the game loop does nothing unless two players are present;
  otherwise each live player moves by twice its velocity and is eliminated
  when it leaves the closed square [0,400] x [0,400]; the loop then builds a
  state message of `{id, x, y, alive}` per player, in roster order.

The model has two modules:

- `Rules` (`rules.dfy`) describes the roster as a sequence of `PlayerState`
  values. Each server operation is a function from roster to roster:
  `Admit`, `Steer`, `Step`/`Advance`/`Tick`, and `Snapshot` for the state
  message. The lemmas state what the server promises about them. These
  promises are the capacity bound, slot assignment, the movement equations,
  the boundary rule, frozen dead players, no revival and the shape of the
  state message. They also cover a whole match from the opening position:
  the second player hits the right wall on the 26th tick.
- `Server` (`server.dfy`) is the imperative form of `server.js`.
  `Player` is a class whose fields are updated in place, and `Game` holds
  the roster as a `seq<Player>`. Its methods `Connect`, `Receive`, `Close`
  and `Tick` are proved against the `Rules` functions through
  `Game.View()`. `Tick` runs the same in-place loop over the player objects
  as the source. A `move` is applied to the player object captured by the
  connection, as in the source. So a move from a connection whose player was
  dropped by an earlier close changes only that orphaned object and leaves
  the roster as it is.

Velocities and coordinates are mathematical integers. The source takes `dx`
and `dy` from parsed JSON, so restricting them to integers is a modelling
assumption.

## Model

| member | source | states |
|---|---|---|
| `Rules.Admit` | server.js:9-24 | a connection is refused exactly when two or more players are present; otherwise the roster grows by one and keeps its old players as a prefix |
| `Rules.AdmitKeepsWellFormed` | server.js:9-24 | admission never takes the roster past two players, and every player's id stays equal to its position in the roster |
| `Rules.AdmittedPlayer` | server.js:14-24 | the newcomer is appended at the end with id = old roster size, x = 50 if first and 350 if second, y = 200, dx = 1, dy = 0, alive |
| `Rules.StartsMirrored` | server.js:14-24 | two admissions from an empty roster give the opening roster, whose players start mirrored about x = 200 on the row y = 200 with equal velocity |
| `Rules.SteerChangesOnlyVelocity` | server.js:28-31 | a move sets the addressed player's dx and dy and changes no other field of it and no other player |
| `Rules.SteerKeepsWellFormed` | server.js:28-31 | a move keeps the roster size and ids |
| `Rules.Steer` | server.js:28-31 | a move keeps the roster length and every player other than the addressed one; what it does to that player is stated by `Rules.SteerChangesOnlyVelocity` |
| `Rules.Step` | server.js:43-50 | one player's tick keeps its id and velocity and never turns a dead player alive; the movement and boundary rule are stated by `Rules.TickMoves` and `Rules.TickEliminates` |
| `Rules.Advance` | server.js:42-51 | the loop over the players keeps the roster length; its effect on each player is stated by `Rules.AdvanceAt` |
| `Rules.Tick` | server.js:39-51 | a game-loop run keeps the roster length; the idle case, movement, elimination and frozen dead players are stated by `Rules.TickIdle`, `Rules.TickMoves`, `Rules.TickEliminates` and `Rules.TickFreezesDead` |
| `Rules.Snapshot` | server.js:53-61 | the state message has one entry per player; its entries are stated by `Rules.SnapshotAt` |
| `Rules.AdvanceAt` | server.js:42-51 | the per-player update reaches every player: the k-th player after the loop is the k-th player stepped |
| `Rules.TickIdle` | server.js:40 | a tick with fewer than two players changes nothing |
| `Rules.TickKeepsWellFormed` | server.js:42-51 | a tick keeps the roster size and every id |
| `Rules.TickFreezesDead` | server.js:43 | a tick never changes a player that is already dead |
| `Rules.TickMoves` | server.js:45-46 | with two players, each live player gets x' = x + 2*dx and y' = y + 2*dy, and its dx, dy and id are unchanged |
| `Rules.TickEliminates` | server.js:48-50 | with two players, a live player is dead after the tick exactly when its new position has x < 0, x > 400, y < 0 or y > 400 (edges 0 and 400 are in bounds) |
| `Rules.TickNeverRevives` | server.js:42-51 | alive after a tick implies alive before it: the tick only ever assigns false |
| `Rules.SnapshotAt` | server.js:53-61 | the state message has one entry per player, in roster order, with that player's id, x, y and alive |
| `Rules.SnapshotIds` | server.js:55-60 | for a well-formed roster the ids in the state message read 0, 1 in order |
| `Rules.OpeningRun` | server.js:39-51 | from the opening roster, for n <= 25 ticks both players are alive at x = 50 + 2n and 350 + 2n |
| `Rules.SecondPlayerHitsWall` | server.js:45-50 | the 26th tick takes the second player to x = 402 and eliminates it, while the first player reaches x = 102 alive |
| `Server.Player.constructor` | server.js:14-22 | a new player object holds the admitted player's values for its slot |
| `Server.Game.constructor` | server.js:6 | the server starts with an empty roster |
| `Server.Game.Connect` | server.js:8-24 | refuses (null) with the roster unchanged when two players are present; otherwise appends a fresh player object, and the roster becomes `Admit` of the old one |
| `Server.Game.Receive` | server.js:26-32 | a `move` overwrites the captured player's dx, dy only. If that player is in the roster, the roster becomes `Steer` of the old one; otherwise the roster is unchanged. Any other message changes nothing: neither the roster nor the captured player object |
| `Server.Game.Close` | server.js:34-36 | the roster becomes empty |
| `Server.Game.Tick` | server.js:39-61 | the roster becomes `Tick` of the old one, updated in place over the same objects. No state message is built when fewer than two players are present. Otherwise the message is `Snapshot` of the new roster, and no player object goes from dead to alive |

## Left out

- The WebSocket server, the `connection`/`message`/`close` event wiring and `ws.send`/`ws.close` (server.js:1-4, 8, 26, 34, 63-65): network I/O through a library outside the model. A refused connection is represented by `Connect` returning null, and a produced state message by `Tick` returning it.
- `JSON.parse` and `JSON.stringify` (server.js:27, 64): wire serialisation. A decoded message is the `Message` datatype, with `Move(dx, dy)` for a message of type `move` and `Other` for any other type.
- Malformed messages: a parse failure, or non-integer or missing `dx`/`dy`. JavaScript doubles, `NaN` and `undefined` arithmetic fall outside an integer model, so coordinates do not round once they pass 2^53.
- `setInterval` timing, `console.log` and `PORT` handling (server.js:3, 68, 70): scheduling and process start-up. A game-loop run is a call to `Game.Tick`.
- Handlers running concurrently: Node runs them one at a time on a single thread, and the model calls the methods one after another.
