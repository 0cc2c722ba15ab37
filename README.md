# Magical Labyrinth: a verified model of the game core

This project models the core of a grid-dungeon game, written in Java, in Dafny.
The player walks a rectangular labyrinth of rooms from the start cell (0, 0) to
an exit.

The core has these parts:

- **Labyrinth generation.** A depth-first search turns every cell of the grid
  into a room. Special rooms then replace regular ones: a tenth of the cells
  become puzzle rooms, an eighth treasure rooms, a sixth monster rooms and an
  eighth trap rooms. The start cell is never replaced. The exit goes to the
  regular cell farthest from the start.
- **Rooms.** Regular, treasure, puzzle, monster, trap and exit rooms, built
  through the room factory. Each reacts when the player enters and when the
  player types an action.
- **The enemy's behaviour machine** (Sleeping, Hunting, Fleeing) and the
  **trap's machine** (Hidden, Active, Disabled).
- **The player**: health, levels, inventory, move budget, position and the
  "trapped by a riddle" state. Also the riddle puzzle, artifacts and positions.

## How the model is built

The form follows the Java code:

- Objects whose fields change become classes with `modifies` and `reads`
  frames: `Labyrinth` (its room grid is an `array2`), `Player`, `Enemy`,
  `Trap`, `Room` and each room variant.
- Immutable values become datatypes with functions: `Position`, `Artifact`,
  `RiddlePuzzle`, and the state machines as pure transition functions.
- Loops stay loops, proved with invariants against specification functions:
  - the maze search
  - the room counting
  - the special-room placement
  - the farthest-cell scan
  - the enemy listing
  - the artifact generation
  - the looting
  - the observer notification
  - the fight

Every `Random` or `Math.random()` draw the Java code makes is an explicit
parameter:

- a `bool` coin for a threshold draw;
- a bounded index (`Below3` … `Below6`) for `nextInt(n)`;
- a function from turn number to value for draws made inside a loop.

So each contract holds for every possible outcome of the draws.

The search's neighbour choice is an oracle `pick` reduced modulo the number of
candidates. Each room's own draws come from a function of its position.

Java's `int` division truncates towards zero; `JavaLang.Div` models it for the
negative case. Java's string operations are modelled on ASCII: `trim`,
`toLowerCase`, `equalsIgnoreCase` and `startsWith`.

Some behaviour follows from the code as written:

- **A 1×1 labyrinth puts the exit on the start cell.** The start is the only
  cell, so the farthest-cell scan finds nothing and the fallback corner
  (width-1, height-1) is (0, 0).
  - On any larger grid the exit is never the start, and the start stays a
    regular room.
- **The fight never tells the enemy it was attacked.** The combat loop only
  lowers health, so an enemy that was asleep when the fight began stays asleep
  through it. Its only possible reaction is to low health, and a sleeping
  enemy ignores that.
- **A bare "solve" in a puzzle room always fails.** It submits the empty
  answer. Only a lower-case "answer " prefix submits text.

## Model

| member | source | states |
|---|---|---|
| Positions.Position.Adjacent | src/main/java/game/model/Position.java:75-88 | each direction moves exactly one coordinate by one (north is y-1) |
| Positions.Position.WithX | src/main/java/game/model/Position.java:47-49 | the new position has the new x and keeps y |
| Positions.Position.WithY | src/main/java/game/model/Position.java:65-67 | the new position has the new y and keeps x |
| Positions.Position.DistanceTo | src/main/java/game/model/Position.java:96-98 | Manhattan distance: zero exactly for the same cell, at least each coordinate gap |
| Positions.Copy | src/main/java/game/model/Position.java:28-31 | the copy equals the original |
| Positions.EqualsIsEquality | src/main/java/game/model/Position.java:101-106 | `equals` holds exactly when both coordinates agree |
| Positions.DistanceSymmetric | src/main/java/game/model/Position.java:96-98 | distance is symmetric |
| Positions.DistanceTriangle | src/main/java/game/model/Position.java:96-98 | distance obeys the triangle inequality |
| Positions.AdjacentIsOneStep | src/main/java/game/model/Position.java:75-88 | a neighbour is at distance one, differs from the cell, and the opposite step returns |
| Positions.AdjacentInjective | src/main/java/game/model/Position.java:75-88 | the four neighbours of a cell are pairwise distinct |
| Positions.DistanceOneIsAdjacent | src/main/java/game/model/Position.java:75-98 | every cell at distance one is a neighbour in some direction |
| Artifacts.StatItem | src/main/java/game/model/Artifact.java:24-32 | a stat item is well formed, not a key, has no key id and carries the given bonuses |
| Artifacts.KeyItem | src/main/java/game/model/Artifact.java:41-49 | a key has zero bonuses, is flagged as a key and opens exactly its lock id |
| Artifacts.ToString | src/main/java/game/model/Artifact.java:91-105 | the text starts with "name: description"; a key's text then ends in " (Key)"; a stat item's text is then one clause per non-zero bonus, in the order HP, ATK, DEF, each tag followed by the bonus's decimal form |
| Artifacts.BonusTextsRender | src/main/java/game/model/Artifact.java:98-102 | the three conditional appends produce exactly the rendering of the non-zero clauses, in order, each with its value |
| Artifacts.BonusText | src/main/java/game/model/Artifact.java:99-101 | a bonus clause is empty exactly for a zero bonus, and otherwise is its tag followed by the bonus in Java's decimal form, which reads back as the bonus |
| Artifacts.PlainItemText | src/main/java/game/model/Artifact.java:91-105 | a stat item with no bonus renders as its header alone |
| Artifacts.FirstBonusClause | src/main/java/game/model/Artifact.java:98-102 | after the header comes the first non-zero bonus, in the order HP, ATK, DEF |
| Artifacts.KeyTextEndsWithMarker | src/main/java/game/model/Artifact.java:96-97 | a key's text is its header plus " (Key)" and shows no bonus |
| EnemyStates.OnPlayerDetected | src/main/java/game/model/entities/SleepingState.java:20-28 | a sleeping enemy wakes exactly on the 70% draw; a hunting or fleeing enemy ignores detection |
| EnemyStates.OnPlayerAttack | src/main/java/game/model/entities/HuntingState.java:26-34 | an attack always wakes a sleeper; a hunter flees exactly below a quarter of its maximum health (Java division); a fleer fights back exactly on the 30% draw |
| EnemyStates.OnLowHealth | src/main/java/game/model/entities/HuntingState.java:37-43 | only a hunter reacts, fleeing exactly on the 60% draw |
| EnemyStates.Description | src/main/java/game/model/entities/FleeingState.java:42-44 | every state has a non-empty description |
| EnemyStates.Step | src/main/java/game/model/entities/EnemyState.java:1-36 | no single event puts an awake enemy to sleep |
| EnemyStates.NeverSleepsAgain | src/main/java/game/model/entities/SleepingState.java:20-35 | once awake, no sequence of events makes an enemy sleep again |
| EnemyStates.LowHealthKeepsAvoidable | src/main/java/game/model/entities/FleeingState.java:37-49 | low-health events alone leave a sleeping or fleeing enemy as it was, hence still avoidable (`CanAvoid`, each state's `canAvoid`) |
| EnemyStates.AttackWakes | src/main/java/game/model/entities/SleepingState.java:31-35 | an attacked sleeper is hunting, so `CanAvoid` no longer holds and it cannot be sneaked past |
| Entities.ActualDamage | src/main/java/game/model/entities/Entity.java:49 | landed damage is raw damage less defense/divisor (Java division), and never below one |
| Entities.HealthAfterHit | src/main/java/game/model/entities/Entity.java:50-57 | health drops by the landed damage and is clamped at zero; zero exactly when the hit is at least the health |
| Entities.HealthAfterHeal | src/main/java/game/model/entities/Entity.java:65-67 | healed health never exceeds the maximum and never drops for a non-negative amount |
| Entities.HitsBringDown | src/main/java/game/model/entities/Entity.java:48-58 | as many hits as health points bring any health to zero |
| Entities.Enemy.constructor | src/main/java/game/model/entities/Enemy.java:25-29 | a new enemy is at full health (maximum = starting health), with the given stats, asleep |
| Entities.Enemy.SetState | src/main/java/game/model/entities/Enemy.java:50-52 | the state is replaced and health is untouched |
| Entities.Enemy.PlayerDetected | src/main/java/game/model/entities/Enemy.java:34-36 | the new state is the current state's detection reaction |
| Entities.Enemy.PlayerAttacked | src/main/java/game/model/entities/Enemy.java:41-43 | the new state is the current state's attack reaction, reading the current health |
| Entities.Enemy.EntityTakeDamage | src/main/java/game/model/entities/Entity.java:48-58 | health loses max(1, damage - defense/3), clamped at zero; the result says whether the entity survives; health stays within [0, max] |
| Entities.Enemy.TakeDamage | src/main/java/game/model/entities/Enemy.java:87-96 | the entity's damage rule, then a survivor below a third of its maximum health reacts to low health; otherwise the state is kept |
| Entities.Enemy.Heal | src/main/java/game/model/entities/Entity.java:65-67 | health rises by the amount, capped at the maximum |
| Traps.Trigger | src/main/java/game/model/traps/HiddenTrapState.java:20-24 | springing a hidden or active trap deals its damage and leaves it active; a disabled trap deals nothing |
| Traps.Disarm | src/main/java/game/model/traps/ActiveTrapState.java:26-33 | a hidden trap cannot be disarmed; an active one is disabled exactly on the 70% draw; a disabled one counts as disarmed; success holds exactly when the result is disabled |
| Traps.Description | src/main/java/game/model/traps/DisabledTrapState.java:32-34 | every trap state has a non-empty description |
| Traps.DisabledIsFinal | src/main/java/game/model/traps/DisabledTrapState.java:20-29 | a disabled trap stays disabled and harmless under any sequence of events |
| Traps.NeverHiddenAgain | src/main/java/game/model/traps/ActiveTrapState.java:20-33 | no sequence of events hides a trap that has been seen |
| Traps.Trap.constructor | src/main/java/game/model/traps/Trap.java:20-25 | a new trap has the given name, description and damage, and no state yet |
| Traps.Trap.ExactlyOneState | src/main/java/game/model/traps/Trap.java:62-82 | once a state is set, exactly one of the queries `IsHidden`, `IsActive` and `IsDisabled` holds |
| Traps.Trap.SetHidden | src/main/java/game/model/traps/Trap.java:30-32 | the trap is hidden |
| Traps.Trap.SetActive | src/main/java/game/model/traps/Trap.java:37-39 | the trap is active |
| Traps.Trap.Disable | src/main/java/game/model/traps/Trap.java:44-46 | the trap is disabled |
| Traps.Trap.Reveal | src/main/java/game/model/traps/Trap.java:51-55 | a hidden trap becomes active; any other state is kept |
| Traps.Trap.TriggerCurrent | src/main/java/game/model/traps/HiddenTrapState.java:20-24 | the trap's state and dealt damage follow the current state's trigger |
| Traps.Trap.DisarmCurrent | src/main/java/game/model/traps/ActiveTrapState.java:26-33 | the trap's state and result follow the current state's disarm |
| JavaLang.Div | src/main/java/game/model/entities/HuntingState.java:28 | Java integer division by a positive divisor truncates towards zero |
| JavaLang.DivNegation | src/main/java/game/model/entities/HuntingState.java:28 | truncating division is symmetric around zero |
| JavaLang.Trim | src/main/java/game/model/puzzle/RiddlePuzzle.java:35 | the result has no whitespace at either end, blank text trims to empty, and trimmed text is unchanged |
| JavaLang.EqualsIgnoreCaseIsLowerEquality | src/main/java/game/model/Player.java:63 | comparing ignoring case is equality after lower-casing both sides |
| JavaLang.TrimPadded | src/main/java/game/model/puzzle/RiddlePuzzle.java:35 | a word padded with whitespace trims back to the word |
| JavaLang.NatToStringRoundTrip | src/main/java/game/model/Artifact.java:99-101 | the decimal text of a number reads back as that number |
| JavaLang.IntToString | src/main/java/game/model/Artifact.java:99-101 | Java's decimal form of an int: a minus sign exactly for a negative value, digits otherwise, and the text reads back as the value |
| Riddles.NewRiddlePuzzle | src/main/java/game/model/puzzle/RiddlePuzzle.java:16-26 | the answer is stored lower-cased; the description quotes the question after the fixed prefix; the fixed success, failure and hint texts |
| Riddles.AttemptSolution | src/main/java/game/model/puzzle/RiddlePuzzle.java:29-36 | a missing or empty attempt fails; an accepted attempt lower-cased and trimmed equals the answer |
| Riddles.AcceptedIffEqualsIgnoreCase | src/main/java/game/model/puzzle/RiddlePuzzle.java:16-36 | a non-empty attempt is accepted exactly when its trimmed text equals the answer ignoring case |
| Riddles.AcceptsPaddedAnyCase | src/main/java/game/model/puzzle/RiddlePuzzle.java:29-36 | surrounding whitespace and letter case never matter |
| Riddles.RejectsBlank | src/main/java/game/model/puzzle/RiddlePuzzle.java:29-36 | a blank attempt never answers a riddle with a real answer |
| Players.Player.constructor | src/main/java/game/model/Player.java:25-52 | level 1, no experience, full health, at (0, 0), empty inventory, 30 moves, not trapped |
| Players.Player.SetTrapPuzzle | src/main/java/game/model/Player.java:53-56 | the riddle and answer are set and nothing else changes |
| Players.Player.SetTrapped | src/main/java/game/model/Player.java:90-92 | the trapped flag is set and nothing else changes |
| Players.Player.SolveTrap | src/main/java/game/model/Player.java:62-70 | right exactly when an answer is set and equals the trimmed attempt ignoring case; a right answer frees the player and clears the riddle; a wrong one changes nothing |
| Players.Player.DecrementMoves | src/main/java/game/model/Player.java:76-84 | one move is used exactly while `HasMovesLeft` holds, otherwise the budget stays; the budget never goes below zero; nothing else changes |
| Players.Player.Move | src/main/java/game/model/Player.java:99-114 | the new position is the neighbour in the given direction; nothing else changes |
| Players.Player.TakeDamage | src/main/java/game/model/Player.java:140-153 | health loses max(1, damage - defense/2), clamped at zero; the result says whether the player survives; the other stats are unchanged |
| Players.Player.Heal | src/main/java/game/model/Player.java:160-163 | health rises by the amount, capped at the maximum; nothing else changes |
| Players.Player.LevelUp | src/main/java/game/model/Player.java:183-194 | one level more, +10 maximum health, full health, +2 attack, +1 defense |
| Players.Player.GainExperience | src/main/java/game/model/Player.java:170-178 | experience grows by the amount; reaching the level's threshold (level×100) grants exactly one level, otherwise the stats are unchanged |
| Players.Player.AddArtifact | src/main/java/game/model/Player.java:201-210 | the artifact is appended; its bonuses are added (health and maximum health alike); `HasArtifact` still finds every name it found before and now finds the new one; nothing else changes |
| Players.HoldsNamedAppend | src/main/java/game/model/Player.java:218-221 | a name is found in a joined inventory exactly when it is found in one of the parts |
| Players.HoldsNamedIgnoresCase | src/main/java/game/model/Player.java:218-221 | name lookup gives the same answer for names that differ only in case |
| RoomCore.Room.constructor | src/main/java/game/model/rooms/Room.java:21-25 | a new room has its type and position and is not visited |
| RoomCore.Room.MarkVisited | src/main/java/game/model/rooms/Room.java:47-58 | the room is visited, as `IsVisited` then reports |
| RoomCore.Room.GetType | src/main/java/game/model/rooms/Room.java:74-76 | the room's type |
| RoomCore.Room.GetPosition | src/main/java/game/model/rooms/Room.java:65-67 | the room's position |
| RegularRooms.RegularRoom.constructor | src/main/java/game/model/rooms/RegularRoom.java:16-19 | a new regular room with the torch-lit description, not visited |
| RegularRooms.RegularRoom.OnEnter | src/main/java/game/model/rooms/RegularRoom.java:22-25 | the room is visited and the reply is "You enter " plus its description |
| RegularRooms.RegularRoom.OnInteract | src/main/java/game/model/rooms/RegularRoom.java:28-36 | look or examine gives "You examine the room more closely. " + the description + " There's nothing particularly interesting here."; search (when not a look) gives the fixed search reply; any other action gets "There's nothing to <action> here." |
| TreasureRooms.GenerateArtifacts | src/main/java/game/model/rooms/TreasureRoom.java:35-94 | one to three common items in draw order, then the rare item if drawn, then the key if drawn: one to five harmless artifacts with exactly as many keys as key draws |
| TreasureRooms.TreasureRoom.constructor | src/main/java/game/model/rooms/TreasureRoom.java:23-28 | a new room, not looted, holds exactly the generated list: the drawn commons in order, then the rare item and the key if drawn, one to five harmless artifacts with as many keys as key draws |
| TreasureRooms.TreasureRoom.OnEnter | src/main/java/game/model/rooms/TreasureRoom.java:97-105 | the room is visited; it lists its artifacts unless it has been looted |
| TreasureRooms.TreasureRoom.OnInteract | src/main/java/game/model/rooms/TreasureRoom.java:108-136 | the first loot hands every artifact over in order and adds all their bonuses; after that every action is refused and the player's stats and inventory do not change; level, experience, position, moves and the trap state never change |
| TreasureRooms.TreasureRoom.GetArtifacts | src/main/java/game/model/rooms/TreasureRoom.java:152-154 | the room's artifact list |
| PuzzleRooms.CreatePuzzle | src/main/java/game/model/rooms/PuzzleRoom.java:41-54 | the riddle of the drawn index, answer included |
| PuzzleRooms.RemoveFirst | src/main/java/game/model/rooms/PuzzleRoom.java:140-142 | removal drops one occurrence of the player if present and keeps everything else |
| PuzzleRooms.RemoveFirstNoDuplicates | src/main/java/game/model/rooms/PuzzleRoom.java:133-142 | in a list without duplicates, removal takes the player out entirely and keeps every other player |
| PuzzleRooms.SubmittedAnswer | src/main/java/game/model/rooms/PuzzleRoom.java:100-101 | "answer X" submits X, a bare "solve" (any case) submits the empty answer, and anything else submits nothing |
| PuzzleRooms.BareSolveAlwaysFails | src/main/java/game/model/rooms/PuzzleRoom.java:100-103 | a bare "solve" never solves the riddle |
| PuzzleRooms.AnswerPrefixIsCaseSensitive | src/main/java/game/model/rooms/PuzzleRoom.java:100-101 | "Answer echo" submits nothing while "answer echo" submits "echo" |
| PuzzleRooms.PuzzleRoom.constructor | src/main/java/game/model/rooms/PuzzleRoom.java:27-34 | a new room is unsolved, has no observers, and holds the drawn riddle and reward |
| PuzzleRooms.PuzzleRoom.AddObserver | src/main/java/game/model/rooms/PuzzleRoom.java:133-137 | a player is registered once: appended if absent, otherwise the list is unchanged |
| PuzzleRooms.PuzzleRoom.RemoveObserver | src/main/java/game/model/rooms/PuzzleRoom.java:140-142 | the player is removed and the list keeps having no duplicates |
| PuzzleRooms.PuzzleRoom.NotifyObservers | src/main/java/game/model/rooms/PuzzleRoom.java:145-149 | one notification per observer, in registration order |
| PuzzleRooms.PuzzleRoom.OnEnter | src/main/java/game/model/rooms/PuzzleRoom.java:83-92 | the room is visited and the player ends up registered exactly once |
| PuzzleRooms.PuzzleRoom.OnInteract | src/main/java/game/model/rooms/PuzzleRoom.java:95-121 | a right answer solves the room, adds the reward once and notifies every observer; once solved, everything is refused; a wrong answer, hint or look leaves the player's stats and inventory as they were; level, experience, position, moves and the trap state never change |
| PuzzleRooms.NotifiedOnce | src/main/java/game/model/rooms/PuzzleRoom.java:133-149 | with no duplicate registrations, each observer is notified exactly once |
| MonsterRooms.GenerateRandomEnemy | src/main/java/game/model/rooms/MonsterRoom.java:40-71 | an enemy of the drawn kind with that kind's stats, at full positive health, asleep |
| MonsterRooms.Alternation | src/main/java/game/model/rooms/MonsterRoom.java:126-150 | the sides strike in strict alternation |
| MonsterRooms.FightEnds | src/main/java/game/model/rooms/MonsterRoom.java:126-151 | a fight between two living sides ends with exactly one at zero, neither gaining health; the side at zero is the one struck on the last turn; the fight lasts fewer turns than the two healths add up to; a fight that cannot start changes nothing |
| MonsterRooms.OneBlowVictory | src/main/java/game/model/rooms/MonsterRoom.java:126-137 | a player striking first with at least the enemy's health plus a third of its defense wins in one turn, unhurt |
| MonsterRooms.OneBlowDefeat | src/main/java/game/model/rooms/MonsterRoom.java:126-150 | an enemy striking first with at least the player's health plus half the player's defense wins in one turn |
| MonsterRooms.MonsterRoom.constructor | src/main/java/game/model/rooms/MonsterRoom.java:27-33 | a new room holds a sleeping living enemy of the drawn kind and the drawn reward, undefeated |
| MonsterRooms.MonsterRoom.OnEnter | src/main/java/game/model/rooms/MonsterRoom.java:100-111 | the room is visited; an undefeated enemy reacts to detection |
| MonsterRooms.MonsterRoom.Fight | src/main/java/game/model/rooms/MonsterRoom.java:126-151 | both healths and the number of turns are exactly what `FightFrom` computes from the healths before the fight; strikes alternate from the first striker; a sleeping enemy stays asleep; the player's other fields do not change |
| MonsterRooms.MonsterRoom.Exchange | src/main/java/game/model/rooms/MonsterRoom.java:129-148 | one turn: the striker's blow takes the other side's health to what `FightFrom` applies on that turn, and the fight is over exactly when a side is at zero |
| MonsterRooms.MonsterRoom.OnInteract | src/main/java/game/model/rooms/MonsterRoom.java:114-176 | once defeated, nothing changes; a fight's length and winner are those of `FightFrom`, the player striking first on an even row; a lost fight leaves the player at `FightFrom`'s health with nothing won; a won fight clears the room, gains the enemy's experience and adds the reward once; the player levels up exactly when the old experience plus the enemy's reaches level×100, and then ends with level+1, maxHealth+10, full health, attack+2 and defense+1, otherwise keeps `FightFrom`'s health and the old stats; the reward's bonuses are added on top; looking and sneaking leave the player unchanged, and sneaking is detected exactly when `CanAvoid` fails |
| TrapRooms.GenerateRandomTrap | src/main/java/game/model/rooms/TrapRoom.java:36-62 | a trap of the drawn kind with positive damage, hidden on the 70% draw and active otherwise |
| TrapRooms.TrapRoom.constructor | src/main/java/game/model/rooms/TrapRoom.java:22-29 | the room's trap starts hidden or active, never disabled, and the description tells which |
| TrapRooms.TrapRoom.OnEnter | src/main/java/game/model/rooms/TrapRoom.java:65-107 | an active trap always springs, a hidden one on the draw: it becomes active, the player is trapped with the drawn riddle and takes the damage; a disabled trap never does anything; the player's other stats, experience, position and moves never change |
| TrapRooms.TrapRoom.OnInteract | src/main/java/game/model/rooms/TrapRoom.java:110-183 | look reveals a hidden trap on the draw (Discovered), and otherwise reports nothing noticed, the active trap or the disabled trap by state without changing it; disarm may disable an active trap or costs full damage; avoid springs an unseen trap, or costs half damage (Java division) on a failed draw; a disabled trap stays disabled; only the player's health can change |
| ExitRooms.ExitRoom.constructor | src/main/java/game/model/rooms/ExitRoom.java:18-27 | the door is locked exactly on the draw, and then names one of the three locks |
| ExitRooms.ExitRoom.OnEnter | src/main/java/game/model/rooms/ExitRoom.java:29-38 | the room is visited and the reply tells whether the door is locked |
| ExitRooms.ExitRoom.OnInteract | src/main/java/game/model/rooms/ExitRoom.java:41-98 | the reply starts with "VICTORY" exactly when an unlocked door is opened; the matching key unlocks a locked door; without it the door stays locked and the reply names the key |
| ExitRooms.KeyName | src/main/java/game/model/rooms/ExitRoom.java:53-67 | golden, crystal and runic locks name the Golden, Crystal and Runic Key, each name exactly for its lock; any other lock asks for the "special key" |
| ExitRooms.LockType | src/main/java/game/model/rooms/ExitRoom.java:76-89 | the three locks are described as golden, crystal and runic, each kind exactly for its lock; any other lock is "peculiar" |
| ExitRooms.NamedKeyOpens | src/main/java/game/model/rooms/ExitRoom.java:53-67 | the key a locked door names is the treasure key that opens it |
| ExitRooms.ExitRoom.Unlock | src/main/java/game/model/rooms/ExitRoom.java:121-123 | the door is unlocked |
| ExitRooms.LockedMessageOpening | src/main/java/game/model/rooms/ExitRoom.java:69-72 | the locked-door reply is never mistaken for the victory |
| RoomFactory.CreateRoom | src/main/java/game/model/rooms/RoomFactory.java:18-35 | the new room has the requested type and reports it, stands at the requested position, and is unvisited |
| Maze.Labyrinth.constructor | src/main/java/game/model/Labyrinth.java:25-33 | a complete labyrinth: every cell holds a room, the four special counts are width×height divided by 10, 8, 6 and 8, exactly one exit at the farthest regular cell (first in row-major order on ties), and on two or more cells the start stays regular and is not the exit |
| Maze.Labyrinth.GenerateLabyrinth | src/main/java/game/model/Labyrinth.java:38-47 | the same guarantees, for the three phases in sequence |
| Maze.Labyrinth.CreateMazeStructure | src/main/java/game/model/Labyrinth.java:52-101 | every cell of the grid becomes a regular room at its own position |
| Maze.Labyrinth.ClearGrid | src/main/java/game/model/Labyrinth.java:54-58 | every cell becomes a wall |
| Maze.Labyrinth.SearchStep | src/main/java/game/model/Labyrinth.java:79-100 | one search step keeps the bookkeeping and visits a new cell or pops the stack |
| Maze.Labyrinth.GetUnvisitedNeighbors | src/main/java/game/model/Labyrinth.java:107-126 | the in-grid unvisited neighbours, probed north, east, south, west |
| Maze.UnvisitedMembers | src/main/java/game/model/Labyrinth.java:107-126 | a cell is listed exactly when it is an in-grid unvisited neighbour |
| Maze.PushStep | src/main/java/game/model/Labyrinth.java:85-96 | pushing an unvisited neighbour keeps every visited cell in the grid and visits one new cell |
| Maze.PopStep | src/main/java/game/model/Labyrinth.java:97-99 | popping a cell with no unvisited neighbour leaves it closed |
| Maze.Reach | src/main/java/game/model/Labyrinth.java:79-100 | a set closed under neighbours that contains one grid cell contains them all, so the search reaches every cell |
| Maze.RectSize | src/main/java/game/model/Labyrinth.java:131-140 | the grid has width×height cells |
| Maze.Labyrinth.CountRooms | src/main/java/game/model/Labyrinth.java:131-140 | the loop counts the non-wall cells |
| Maze.Labyrinth.FullGridCount | src/main/java/game/model/Labyrinth.java:131-140 | in a full grid the count is width×height |
| Maze.Labyrinth.AssignRoomTypes | src/main/java/game/model/Labyrinth.java:131-159 | the grid stays full; puzzle, treasure, monster and trap rooms number n/10, n/8, n/6 and n/8; no exit yet; the start is regular |
| Maze.SpecialBudget | src/main/java/game/model/Labyrinth.java:142-159 | the four counts never exceed the cells other than the start, and leave one over from two cells up |
| Maze.Labyrinth.PlaceRooms | src/main/java/game/model/Labyrinth.java:164-187 | exactly k eligible regular cells (never the start) get the type; no other cell and no other type's count changes |
| Maze.PlaceStep | src/main/java/game/model/Labyrinth.java:164-187 | one more placement on an eligible cell adds one to the type's count and removes one eligible cell |
| Maze.AssignedAfter | src/main/java/game/model/Labyrinth.java:142-159 | the four placements in sequence give exactly the four counts |
| Maze.Labyrinth.FindFarthest | src/main/java/game/model/Labyrinth.java:193-207 | the regular non-start cell with the largest x+y, the first in row-major order on ties; none when there is no such cell |
| Maze.ScanEnd | src/main/java/game/model/Labyrinth.java:197-207 | after the scan the best cell has maximal distance and comes first among equals |
| Maze.Labyrinth.PlaceExitRoom | src/main/java/game/model/Labyrinth.java:192-221 | the exit replaces the farthest regular cell, or the corner when there is none |
| Maze.ExitSite | src/main/java/game/model/Labyrinth.java:192-221 | the exit lands on a regular cell, and not on the start when there are two or more cells |
| Maze.ExitPlaced | src/main/java/game/model/Labyrinth.java:210-220 | placing the exit keeps the special counts and makes it the only exit |
| Maze.Labyrinth.GetRoomAt | src/main/java/game/model/Labyrinth.java:229-238 | no room off the grid or at a wall; a room found stands at the asked position and has its cell's type |
| Maze.Labyrinth.ValidMoveInGrid | src/main/java/game/model/Labyrinth.java:246-249 | in a generated labyrinth `IsValidMove` holds exactly for the cells of the grid |
| Maze.Labyrinth.AtExitIsExitRoom | src/main/java/game/model/Labyrinth.java:277-279 | where `IsAtExit` holds, the move is valid and leads onto the exit room |
| Maze.Labyrinth.GetAllEnemies | src/main/java/game/model/Labyrinth.java:256-269 | the enemies of the monster rooms, row by row |
| Maze.EnemiesCount | src/main/java/game/model/Labyrinth.java:256-269 | one enemy is listed per monster room |
| Maze.EnemiesMembers | src/main/java/game/model/Labyrinth.java:256-269 | an enemy is listed exactly when some monster room holds it |
| Maze.Labyrinth.EnemyTotal | src/main/java/game/model/Labyrinth.java:256-269 | the list is as long as there are monster-type cells |
| Maze.Labyrinth.EnemiesListed | src/main/java/game/model/Labyrinth.java:256-269 | an enemy is listed exactly when a monster room of the grid holds it |

## Left out

- Combat strategies are left out. They use floating-point multipliers and
  random rolls. The attack values a fight uses are parameters, one per turn.
- The `Random` generator and `Math.random()` are not modelled. Every draw is
  a parameter.
- `placeRooms` draws random cells until one fits. The model picks any
  eligible cell instead, so it does not model the retries. The Java loop
  never ends when no cell fits. `Maze.Labyrinth.PlaceRooms` therefore
  requires that enough eligible cells exist, which `assignRoomTypes` always
  ensures.
- Message text is modelled word for word only where the game depends on it:
  the exit room, whose "VICTORY" prefix ends the game, and the regular room.
  Elsewhere the replies are outcome values.
- Reading an answer from the user is not modelled.
- `toString` of positions, rooms and players is not modelled. Artifact
  rendering is.
- String handling covers ASCII only: case folding of ASCII letters, and
  `trim` of characters up to the space. Java's Unicode case mapping is not
  modelled.
- Null strings are not modelled, except the missing riddle attempt and the
  unset trap answer, which are `Option`s.
- Integers are unbounded. 32-bit overflow of health, experience and
  attack sums is not modelled.
- `Position` is a value. Java's `setX`/`setY` mutate a shared object, and the
  aliasing that allows is not captured: `Player.Move` assigns a new position.
- Java throws when a labyrinth has zero or negative width or height. The
  model states positive dimensions as the constructor's precondition instead.
- These members are left out:
  - `Player.setCombatStrategy`, `Player.attack` and `Player.defend`
  - `Player.update`, which only prints the notification
  - `Player.setPosition`
  - plain getters (`getWidth`, `getHeight`, `getRooms`, `isLooted`,
    `isSolved`, `isLocked`, `getKeyRequired`, `getEnemy`, `isDefeated`,
    `getTrap`), which the model reads as fields
- `Direction` is not part of this model as a Java file. It is the four-value
  enum `Positions.Direction`.
- Out of scope: the game controller, the console and Swing views, and the
  entry point.
- `Entities.Enemy.constructor` starts the enemy Sleeping. Java leaves the
  state unset, but the only place that creates an enemy sets it to Sleeping
  right away.
