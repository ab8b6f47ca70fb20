# Light-cycle bot: safety-mode move decision

This project models the move-decision core of the `BotClient` light-cycle bot (`src/client/client_sebastian_perilla.cpp`).
On every tick the bot receives a snapshot of the game:
- a width × height occupancy grid, where 0 means empty and anything else is a wall, a trail or a head;
- the list of players.

The bot first finds its own player by name. It then scores each legal move (target inside the grid and empty), in the order north, east, south, west; illegal moves get no entry. The score is the size of the territory the target cell can still reach. It sends the best-scored move, or north when no move is legal, and records that move's code as the previous direction.

Modules:
- `Geometry` (geometry.dfy): cells, directions, their unit vectors (y grows downwards, so north is (0,-1)), 4-adjacency and the direction codes.
- `Board` (board.dfy): the grid, players and the game snapshot, plus the bounds test, passability and the sets of grid cells and free cells with their sizes.
- `Territory` (territory.dfy): `calculateAccessibleArea`, as the method `AccessibleArea`. It is a breadth-first flood fill with a FIFO queue (`seq`) and a visited set (`set`). It is proved against the specification function `Area`, the size of the start cell's 4-connected component of empty cells, which is defined through paths.
- `Selection` (selection.dfy): `findBestMove` on an `array` of (direction, score) pairs, sorted in place.
- `Bot` (bot.dfy): the class `BotClient` with the fields `name`, `state`, `myPlayer` and `previousDirection`, and the operations `is_valid_move`, `findSafeDirection`, `decideMove`, `receiveGameState` and `sendMove`.

The grid is `width`, `height` and a total function from cells to markers. The source only reads a marker after the bounds test.

`isInsideGrid`, `getGridCell`, `getDirectionVector` and `getDirectionValue` come from `api.h` and `utils.h`, which are not part of this model. They are given assumed definitions:
- `Inside`: 0 ≤ x < width and 0 ≤ y < height.
- `Grid.cell`: the occupancy marker of a cell (`getGridCell`).
- `Delta`: the unit vectors north (0,-1), east (1,0), south (0,1) and west (-1,0).
- `DirectionValue`: the codes 0..3. Nothing relies on these values except that they are distinct.
- The ordering `std::set<sf::Vector2i>` uses for the visited set (`operator<` on vectors) is assumed to treat two cells as the same exactly when both coordinates are equal; the model's `set<Cell>` rests on that, and so do `area == |Reachable|` and every cell being counted once.

Behaviour worth knowing, as the code has it:
- Ties: `std::sort` is not stable, so the model promises only that the chosen move has a maximal score. Its selection sort is unstable too.
- Missing identity: when no player has the bot's name, the code keeps the previous `my_player`, and so does `ReceiveGameState`.
- Only safety mode exists: `decideMove` calls `findSafeDirection` directly.

## Model

| member | source | states |
|---|---|---|
| Geometry.Delta | src/client/client_sebastian_perilla.cpp:78-79 | each direction's vector is a unit step (one coordinate changes by exactly 1) |
| Geometry.Step | src/client/client_sebastian_perilla.cpp:31 | position + direction vector is a 4-neighbour of the position |
| Geometry.DirectionValue | src/client/client_sebastian_perilla.cpp:105 | the code of a direction lies in 0..3 and indexes that direction in the order N, E, S, W, so distinct directions get distinct codes |
| Board.GridCells | src/client/client_sebastian_perilla.cpp:32 | the set of cells passing the bounds test, of size width × height |
| Board.FreeCells | src/client/client_sebastian_perilla.cpp:71 | the set of cells that are inside and hold 0; it has at most width × height members |
| Territory.ClosedSetContainsReachable | src/client/client_sebastian_perilla.cpp:77-81 | a set holding a passable start and every passable neighbour of its members contains the start's whole component |
| Territory.SkipKeepsInvariant | src/client/client_sebastian_perilla.cpp:68-73 | dequeuing a visited, outside or occupied cell keeps the fill invariant |
| Territory.VisitKeepsInvariant | src/client/client_sebastian_perilla.cpp:74-81 | visiting a new empty cell and pushing all four neighbours keeps the fill invariant (visited ⊆ component, queue holds the start or neighbours of visited cells, no passable neighbour of a visited cell is lost) |
| Territory.FinishedFillIsComponent | src/client/client_sebastian_perilla.cpp:67-83 | when the queue is empty the visited set is exactly the component of the start |
| Territory.AccessibleArea | src/client/client_sebastian_perilla.cpp:60-84 | the flood fill returns the number of distinct empty cells 4-connected to the start through empty cells: 0 for a blocked or outside start, at most the number of free cells; the ghost counters tie pushes to the queue (pushes = pops + queue length in every iteration), so exactly 1 + 4 × area cells are pushed and every one of them is popped; termination is proved by the number of unvisited free cells and the queue length; it changes nothing, and its result is a function of grid and start, so two calls on one snapshot agree |
| Territory.EmptyAreaIffBlockedStart | src/client/client_sebastian_perilla.cpp:63-72 | the territory is empty if and only if the start is outside the grid or non-zero |
| Territory.AreaBounds | src/client/client_sebastian_perilla.cpp:71-75 | 0 ≤ territory ≤ number of zero cells ≤ width × height |
| Territory.EmptyGridArea | src/client/client_sebastian_perilla.cpp:67-83 | on an all-zero grid the territory of any inside cell is width × height |
| Territory.AreaIsLocal | src/client/client_sebastian_perilla.cpp:67-82 | changing cells that are occupied, are not the start and do not border the start's component (to any marker, even 0) leaves the component and the territory unchanged; relabelling one non-zero marker as another never changes the territory |
| Selection.FrontOfSortedIsTop | src/client/client_sebastian_perilla.cpp:38-41 | the front of a score-descending permutation of a list is an entry of that list whose score no entry exceeds |
| Selection.IndexOfTop | src/client/client_sebastian_perilla.cpp:38-40 | finds the position of a highest-scored entry of a suffix (the selection step of the sort) |
| Selection.Swap | src/client/client_sebastian_perilla.cpp:38-40 | exchanges two entries, leaves the others and the multiset of entries unchanged |
| Selection.SortByScore | src/client/client_sebastian_perilla.cpp:38-40 | the array ends sorted by score, highest first, and is a permutation of its input |
| Selection.FindBestMove | src/client/client_sebastian_perilla.cpp:36-42 | an empty list gives north; otherwise the list ends sorted non-increasing by score, is a permutation of the input, and the result is the front entry's direction, the direction of an input entry with maximal score |
| Bot.FindPlayer | src/client/client_sebastian_perilla.cpp:94-99 | the index of the first player whose name matches, or none exactly when no player matches |
| Bot.ScoredMovesEntries | src/client/client_sebastian_perilla.cpp:46-54 | the candidate list holds only legal moves, each scored by its target's territory, and holds every legal move |
| Bot.TopCandidateIsLegalAndMaximal | src/client/client_sebastian_perilla.cpp:49-56 | a top-scored entry of such a list is a legal move whose territory no legal move exceeds |
| Bot.TopCandidateIsSafest | src/client/client_sebastian_perilla.cpp:45-57 | the direction findBestMove returns on the candidate list is north when no move is legal, and otherwise a legal move of maximal territory |
| Bot.BotClient.constructor | src/client/client_sebastian_perilla.cpp:111 | the bot keeps its name, and previousDirection starts at -1 (its initialiser on line 24) |
| Bot.BotClient.IsValidMove | src/client/client_sebastian_perilla.cpp:30-33 | a move is valid exactly when its target is one of the grid's free cells |
| Bot.BotClient.FindSafeDirection | src/client/client_sebastian_perilla.cpp:45-57 | scores the legal moves N, E, S, W by territory and returns north when none is legal, else a legal move whose territory is maximal |
| Bot.BotClient.DecideMove | src/client/client_sebastian_perilla.cpp:87-89 | the decision is the safety-mode one |
| Bot.BotClient.ReceiveGameState | src/client/client_sebastian_perilla.cpp:92-100 | stores the snapshot; my_player becomes the first player with the bot's name, or keeps its previous value when there is none; previousDirection is unchanged |
| Bot.BotClient.SendMove | src/client/client_sebastian_perilla.cpp:103-107 | returns the decided (safest) move and sets previousDirection to its code; state and my_player are unchanged |

## Left out

- `Connection`: connecting, `isActive`, receiving the snapshot and sending the move are network I/O. The snapshot is a parameter of `ReceiveGameState`, and the sent move is the result of `SendMove`.
- The `run` loop (lines 123-128) is left out because it only alternates receive and send while the connection is active. The constructor's exit on connection failure (lines 114-119) is left out because it is process control.
- `main` (argument parsing and logging set-up, lines 131-144) is process plumbing.
- `rng`, its seeding and `fallbackCounter` (lines 23, 25, 112-113) are never used by the decision.
- The internals of `api.h` and `utils.h` are not part of this model. They get the assumed definitions described above. Overflow of `int` coordinates and of the area counter is not modelled, because grids are small.
- `Player` keeps only the name and the head position. The other fields of the source's player type are not modelled, because the decision reads only these two.
- Before the first snapshot, the `state` and `my_player` fields hold placeholder values (an empty grid, a nameless player at (0,0)). The C++ default values come from `api.h` and are not modelled.
- Bot.BotClient.FindSafeDirection: does not promise which of several equally scored moves wins, because `std::sort` is not stable.
- Selection.SortByScore: a selection sort stands in for `std::sort`; only its contract (sorted, a permutation) is modelled, not its algorithm.
