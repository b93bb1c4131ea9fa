# Maze game, Tux line discipline, kernel tables and blink list: a verified model

This project models the stateful cores of the repository in Dafny and proves what they keep.

* **The maze game (`mp2`).** `MazeLattice` and `MazeConnect` see the flat maze array as a graph of lattice
  points. `MazeGen` has `mark_maze_area` and `make_maze` as they work on that array: worms dig, the joining
  loop breaks walls, and at its end every lattice point is joined to (1,1). `MazeWorms` and `WormRun` have the
  worms on values, as a machine that consumes one random number a step; from every state it can still end. `ModeX` is the planar scroll
  buffer of `modex.c`: one byte array with integer offsets, in which the window slides and overlapping parts
  are moved. `MazeImage` and `MazeView` relate the two: the buffer is a cache that always holds, pixel by
  pixel, what `find_block` gives. `Motion` is the tick state machine on values and `MazeGame` performs it on
  the maze and the buffer, for any key input. `MazeWorld` is a level as one value, and `MazeWin` joins the
  generator with the motion: in every state of every level there are keys that eat all fruits and reach the exit.
* **The Tux line discipline (`mp2/module/tuxctl-ld.c`).** `TuxFrames` defines the packets of a byte stream;
  `TuxLine` has the two rings and the framer with its carried bytes.
* **The kernel (`mp3/student-distrib`).** `ProcessTable` and `Processes` have execute, halt, the shell of a new
  terminal and the scheduler on one process table. `TextCanvas` and `Terminals` have the three terminals that
  share one video page, and `TerminalRuns` whole sessions on them. `FileImage` and `Vfs` have the file system
  image, opening, closing and reading.
* **The blink list (`mp1/mp1.S`).** `BlinkTimes` has the values and their timing, `BlinkList` the linked list
  and the text screen.

Code that updates state in place is modelled by classes over arrays, fields and linked nodes; each method's
contract ties the new state to a function or predicate on values, and the lemmas are about those.

## How the code is read

* `random()`: the worm phase consumes a finite stream `rnd` and says whether it ends within it. Loops that draw
  until a condition holds yield any outcome that meets the condition. Registers, program loading and memory
  allocation are parameters (`Context`, `loads`, `memory`, `copied`).
* Integers are unbounded; widths are written out where they matter (16-bit countdowns, 32-bit read sizes and
  positions, bytes). `x >> 2` and `x & 3` are division and remainder by 4, also for negative coordinates.
* Where the code and its documentation disagree, the code is followed:
  * `make_maze` says that (even,even) points are always walls and draws the maze so, but the build sets
    `GOD_MODE` to 1 and then removes every wall inside the border (mp2/maze.c:401-407). The model takes
    `godMode` as a parameter and proves both: with it exactly the interior is open; without it only lattice
    points and passages between them are, and every (even,even) cell is a wall.
  * The comment on the array calls (0,1) the upper left boundary, and `MAZE_INDEX` uses `b + 1`
    (mp2/maze.c:91), which the model keeps.
  * `tuxctl_ldisc_write_wakeup` tests `n <= room` (mp2/module/tuxctl-ld.c:179) and so may hand over `room + 1`
    bytes. `TuxLine.HandedOver` is the exact number, and `TuxLine.RoomRespectedIff` says when it is no more
    than the room.
  * The framer looks at twelve bytes a call, the carried ones included (mp2/module/tuxctl-ld.c:266), and the
    receive ring drops what does not fit. Longer deliveries can leave bytes for the next call;
    `TuxLine.Ldisc.RcvBuf` has the exact condition, and `ReceiveAll` the runs in which nothing is lost or late.
  * `vidmap` always maps the physical screen (mp3/student-distrib/syscalls.c:350). `Terminals.Console.Vidmap`
    proves that this shows the caller's terminal if and only if that terminal is displayed. `halt` does not
    clear the mapping, so a later process in the slot inherits it (`TerminalRuns.ShowsOwnIff`).
  * `init_terminals` means to clear the video pages but adds the base address twice
    (mp3/student-distrib/terminal.c:66-67), so the pages hold whatever was there. What a terminal shows is
    therefore stated from its first clearing on.
  * `terminal_read` with a negative count compares it as unsigned and takes all that is waiting
    (mp3/student-distrib/terminal.c:169-171); a negative size of a file read takes the rest of the file
    (mp3/student-distrib/vfs.c:166, 365).
  * `file_read` adds the result to the position even when it is -1 (mp3/student-distrib/vfs.c:167), so a failed
    read moves the position back by one.
  * A length of 0 in a blink structure lasts 65536 ticks, since the 16-bit countdown goes round
    (mp1/mp1.S:63-66). The timing law is proved for all lengths.
* Preconditions taken from the callers: `mp1_ioctl_add` gets a location on the screen (the code links the node
  before it checks); a read buffer is as large as what may be copied; a file image is well-formed (63 entries,
  1023 block numbers an inode, 4096 bytes a block), while missing blocks and inodes are error cases of the model.
* `next_dir == DIR_STOP` reads one past `open[]` (mp2/mazegame.c:531). Either outcome leaves the player stopped
  or going on as before; the model tests for it.

## Model

| member | source | states |
|---|---|---|
| MazeLattice.IndexInRange | mp2/maze.c:68-91 | every position the code touches around a displayed one is inside the array, although rows -1 and 2*y_dim+1 are used |
| MazeLattice.PointInjective | mp2/maze.c:91 | distinct lattice points have distinct indices in the flat array with its wrapped columns |
| MazeLattice.PointCount | mp2/maze.c:250 | there are x_dim * y_dim lattice points, the number `remaining` starts from |
| MazeLattice.PointBounds | mp2/maze.c:144-163 | around a lattice point all four looks of the search stay in the array, and no lattice point lies one row away |
| MazeLattice.LatticeStep | mp2/maze.c:279-289 | two cells or two rows further is the neighbouring lattice point, whenever the lattice goes on there |
| MazeLattice.ShapeIsFenced | mp2/maze.c:133-137 | in a maze under construction an open cell beside a point leads to another point, which is what the search relies on |
| MazeLattice.ReachClosed | mp2/maze.c:129-164 | induction principle of reachability: what contains the start and is closed under open steps contains all that is reached |
| MazeLattice.JoinableExists | mp2/maze.c:338-379 | a partly marked lattice always has an unmarked point beside a marked one, so the scan cannot get stuck |
| MazeLattice.NewEdge | mp2/maze.c:366-373 | knocking down the wall between two points adds no other connection |
| MazeLattice.JoinKeepsComponent | mp2/maze.c:366-380 | breaking one wall and marking what becomes reachable keeps "marked = joined to the root" |
| MazeConnect.AllWalls | mp2/maze.c:237-250 | filling with walls starts the digging invariant with all points walled |
| MazeConnect.DigPoint | mp2/maze.c:319-322 | emptying a point keeps the digging invariant, and lowers the count exactly if the point was a wall |
| MazeConnect.DigPassage | mp2/maze.c:300-317 | opening the cell between two open points keeps the invariant and the count, and touches no point |
| MazeConnect.FirstMark | mp2/maze.c:336-337 | marking from (1,1) starts the joining invariant: marked set = component, remaining = unmarked points |
| MazeConnect.JoinStep | mp2/maze.c:366-380 | a successful turn of the joining loop keeps that invariant and lowers remaining by a positive number |
| MazeConnect.AreaIsNew | mp2/maze.c:380 | what is newly marked was not marked before, so nothing is counted twice |
| MazeConnect.Unfinished | mp2/maze.c:381 | remaining is 0 exactly when all points are marked, otherwise an unmarked point exists |
| MazeConnect.ScanAdvance | mp2/maze.c:346-350 | each turn of the cyclic scan comes closer to any given lattice point, or is there |
| MazeGen.FrontierComplete | mp2/maze.c:129-170 | when the queue is exhausted it holds exactly the unmarked points reachable from the start without passing a marked one |
| MazeGen.QueueHasRoom | mp2/maze.c:118 | the queue never overflows: its entries are distinct lattice points |
| MazeGen.Enqueue | mp2/maze.c:144-163 | a point found behind an open cell was never enqueued before, and marking and enqueuing it keeps the search invariant |
| MazeGen.Maze.Explore | mp2/maze.c:144-148 | one look of the search: marks and enqueues the point behind an open cell if it is new |
| MazeGen.Maze.Expand | mp2/maze.c:144-163 | after the four looks all that the entry leads to is marked |
| MazeGen.Maze.Search | mp2/maze.c:118-170 | the search marks exactly the reachable area, nothing else, and returns its size |
| MazeGen.Maze.MarkMazeArea | mp2/maze.c:104-171 | the same for the maze at hand: marks and count equal the area of unmarked points reachable from (x,y) |
| MazeGen.Maze.DirectionWeight | mp2/maze.c:278-290 | the weight of one direction, 0 when it would leave the lattice |
| MazeGen.Maze.ChooseDirection | mp2/maze.c:278-292 | a worm's direction never leaves the lattice, and is the one whose share of the cumulated weights holds the random number |
| MazeGen.Maze.DigTo | mp2/maze.c:300-322 | only the passage and the new point are opened, and `remaining` stays the number of walled points |
| MazeGen.Maze.Dig | mp2/maze.c:299-322 | the worm moves one lattice step in its direction and digs its way |
| MazeGen.Maze.Worm | mp2/maze.c:262-323 | a whole worm goes through the steps of the machine, every point it opens is joined to its start, and it ends by turning round or with the random numbers used up |
| MazeGen.Maze.WormPhase | mp2/maze.c:250-329 | the phase is done if and only if the random numbers suffice to end it; then the maze is that of the machine and no point is a wall |
| MazeWorms.WormsGoStraight | mp2/maze.c:223-290 | a worm goes straight on into a wall with four chances in five or more |
| MazeWorms.WormsPreferWalls | mp2/maze.c:223-290 | it turns aside three times as readily as back if there is a wall to eat, a third as readily if not, and prefers neither side |
| WormRun.Draws | mp2/maze.c:254-255 | every odd coordinate of the maze can be drawn |
| WormRun.EveryStartIsPossible | mp2/maze.c:252-262 | a worm can start on every point that is still a wall and in every direction, and empties that point only |
| WormRun.EveryWayIsPossible | mp2/maze.c:278-322 | wherever the lattice goes on, some random number makes the worm end there (the way back) or move there and leave the passage and the point open |
| WormRun.RunSound | mp2/maze.c:250-329 | whatever numbers come, after every step the maze has its shape, `remaining` is the number of walled points, and it is 0 at the end |
| WormRun.MoreSuffices | mp2/maze.c:250-329 | further numbers change neither the end of the phase nor its maze |
| WormRun.EveryPhaseCanEnd | mp2/maze.c:250-329 | for every valid size and whatever numbers have come, there are numbers that end the phase |
| MazeGen.Maze.ScanNext | mp2/maze.c:346-350 | the scan goes through the points row by row and round again, never leaving them |
| MazeGen.FirstMarkedJoins | mp2/maze.c:366-375 | the four tests find a marked lattice neighbour if and only if there is one, and the cell opened lies towards it |
| MazeGen.Maze.OpenTowards | mp2/maze.c:366-375 | the first marked neighbour in the order up, left, right, down decides which one cell is opened |
| MazeGen.Maze.BreakWall | mp2/maze.c:366-375 | a wall is broken if and only if some lattice neighbour is marked, and then exactly the one cell towards a marked neighbour |
| MazeGen.Maze.Connect | mp2/maze.c:351-380 | a turn lowers remaining exactly when the point is joinable, and otherwise changes nothing |
| MazeGen.Maze.ConnectAll | mp2/maze.c:336-381 | the second phase ends for every maze and every outcome of the picks, with every point joined to (1,1) |
| MazeGen.Maze.ClearMarks | mp2/maze.c:387-389 | clearing the marks leaves no mark at all and changes no wall |
| MazeGen.Maze.RemoveWalls | mp2/maze.c:401-407 | GOD_MODE opens exactly the interior and keeps the border closed |
| MazeGen.Maze.AddAFruitInternal | mp2/maze.c:678-699 | one point without fruit gets one, and the count stays the number of fruited cells |
| MazeGen.Maze.Furnish | mp2/maze.c:409-412 | the first fruits stand on distinct lattice points, each with the number drawn for it, and are counted |
| MazeGen.Maze.PlaceExit | mp2/maze.c:414-421 | the exit is put on one lattice point without fruit |
| MazeGen.Maze.MakeMaze | mp2/maze.c:217-424 | sizes out of range are refused without change; every other size is made if and only if the random numbers end the worm phase, and then all points are joined, border closed, fruits counted, one exit, and both forms of the interior |
| MazePlay.ShapeIsBordered | mp2/maze.c:182-193 | a maze under construction is open only inside its border |
| MazePlay.HorizontalPassageRow | mp2/maze.c:182-193 | a cell between two horizontal neighbours lies in an odd row |
| MazePlay.EvenCellsAreWalls | mp2/maze.c:176-193 | without GOD_MODE every (even,even) cell, border included, is a wall |
| MazePlay.UnfruitedExists | mp2/maze.c:685-688 | a point without fruit exists as long as fruits are fewer than points, so the draw can succeed |
| MazePlay.FruitAdded | mp2/maze.c:690-694 | adding a fruit adds one to the number of fruited cells |
| MazePlay.FruitRemoved | mp2/maze.c:632-635 | removing one takes one off |
| ModeX.AddrInBuffer | mp2/modex.c:52-72 | every pixel of a window that passes the range test has its byte inside the buffer, between the fences |
| ModeX.AddrInjective | mp2/modex.c:52-72 | no two pixels of a window share a byte, although planes are reversed and some are shifted by one |
| ModeX.RepositionedFits | mp2/modex.c:426-470 | after a repositioning the window always passes the range test |
| ModeX.CommonPixelMoved | mp2/modex.c:434-469 | the bytes moved include every pixel of both windows |
| ModeX.PlanePixel | mp2/modex.c:499-516 | byte 80*r+k of display plane i is the byte of pixel (show_x+4k+i, show_y+r) |
| ModeX.PlaneInBuffer | mp2/modex.c:511-516 | the four plane copies read only inside the buffer |
| ModeX.Screen.constructor | mp2/modex.c:296-307 | the window starts at (0,0) with both fences filled |
| ModeX.Screen.Move | mp2/modex.c:472-484 | an overlapping move has the effect of copying through a second array, in both directions |
| ModeX.Screen.KeepOverlap | mp2/modex.c:430-484 | pixels common to the old and new window arrive at their new addresses with their values |
| ModeX.Screen.SetViewWindow | mp2/modex.c:390-485 | for all positions: pixels in both windows keep their value, the new window is inside the buffer, the fences are not written |
| ModeX.Screen.Store | mp2/modex.c:990-995 | writing one pixel changes that pixel of the window only |
| ModeX.Screen.StoreVertLine | mp2/modex.c:969-1001 | a vertical line sets exactly that column of the window |
| ModeX.Screen.StoreHorizLine | mp2/modex.c:1016-1050 | a horizontal line sets exactly that row of the window |
| ModeX.Screen.DrawFullBlock | mp2/modex.c:660-712 | exactly the part of the block that lies in the window is drawn, with the right pixel of the picture |
| ModeX.Screen.CopyImage | mp2/modex.c:1332-1345 | one plane is copied and the rest of video memory stays |
| ModeX.Screen.ShowScreen | mp2/modex.c:496-517 | plane i, byte 80*r+k, receives logical pixel (show_x+4k+i, show_y+r) |
| MazeImage.FindBlock | mp2/maze.c:445-480 | the picture number is always one of the pictures that exist (which one: the rows below) |
| MazeImage.PictureShowsCell | mp2/maze.c:452-475 | the exit picture shows exactly on the exit with no fruit left; otherwise mist exactly if the cell is unseen, with a bump exactly if it holds a fruit; a seen cell shows a wall or plain floor exactly if it is one without fruit |
| MazeImage.WallPictureShowsNeighbours | mp2/maze.c:475-479 | bits 0 to 3 of a wall picture say whether the neighbours above, right, below and left are walls |
| MazeImage.FruitsLookDifferent | mp2/maze.c:449-471 | two positions show the same fruit picture exactly if both are seen and hold the same fruit |
| MazeImage.SquareShowsPicture | mp2/maze.c:433-442 | a square shows its picture row by row from the top left |
| MazeImage.IndexInjective | mp2/maze.c:91 | the only two positions of a row pair that share a cell are column 2*x_dim and column 0 one row down |
| MazeImage.BordersNeverTogether | mp2/maze.c:586-589 | those two columns never appear in the same window |
| MazeImage.OneCellChanged | mp2/maze.c:445-480 | changing fruit, exit or mark of a cell changes the picture only where that cell is displayed |
| MazeImage.CountChanged | mp2/maze.c:452-454 | the fruit count matters to the exit only, and only whether it is 0 |
| MazeView.View.FillHorizBuffer | mp2/maze.c:493-521 | the line image equals find_block pixel by pixel, starting anywhere in a block |
| MazeView.View.FillVertBuffer | mp2/maze.c:534-565 | the same for a vertical line |
| MazeView.View.DrawVertLine | mp2/modex.c:969-1001 | a column of the window becomes right and the others stay; out of range: -1 and no change |
| MazeView.View.DrawHorizLine | mp2/modex.c:1016-1050 | the same for a row |
| MazeView.View.Setup | mp2/mazegame.c:148-151 | setting the view and drawing every row makes the whole window agree with find_block, whatever the buffer held |
| MazeView.View.Pan | mp2/mazegame.c:171-178 | a pan by one pixel and the one line drawn keep the whole window in agreement |
| MazeView.View.Show | mp2/modex.c:496-517 | with window and maze in agreement, video memory shows the maze |
| MazeView.View.DrawCell | mp2/mazegame.c:560 | drawing the picture of a position makes its pixels right and no others wrong |
| MazeView.View.UnveilSpace | mp2/maze.c:577-606 | exactly the mark of the cell is set and the window still agrees, although a border cell is displayed twice |
| MazeView.View.CheckForFruit | mp2/maze.c:619-647 | the fruit number is returned, the fruit and nothing else goes, the count follows, and the window still agrees, the exit included |
| MazeView.View.CheckForWin | mp2/maze.c:659-666 | the level is won exactly on the exit with no fruit left |
| MazeView.View.AddAFruit | mp2/maze.c:712-723 | one lattice point that had none gets the fruit and nothing else changes, it is counted, and the window still agrees, the disappearing exit included |
| MazeView.View.UnveilAround | mp2/mazegame.c:276-283 | exactly the cells of the thirteen squares around the player are marked, none of these squares shows mist any more, and the window still agrees |
| MazeView.SeesTwoSteps | mp2/mazegame.c:276-283 | the thirteen squares are those two steps away or less |
| MazeView.MistLifts | mp2/mazegame.c:276-283 | marking them lifts the mist two steps around the player and changes no other cell |
| MazeView.OthersUnchanged | mp2/maze.c:580-605 | with the alias out of view, a change at one position leaves the rest of the window's picture alone |
| MazeView.FruitChange | mp2/maze.c:632-642 | when a fruit comes or goes only its own position changes, and the exit with the last or first fruit |
| MazeView.EatingKeepsPlayable | mp2/maze.c:632-635 | eating keeps the count equal to the number of fruited cells and the maze playable |
| Motion.OpenIsInside | mp2/mazegame.c:527-533 | an open neighbour is inside: the closed border keeps the player off it |
| Motion.DecideOnTrack | mp2/mazegame.c:518-549 | the decision on a square sends the player only into open squares |
| Motion.MoveOnTrack | mp2/mazegame.c:553-574 | one pixel of motion keeps the player aligned and between open squares |
| Motion.MoveFramed | mp2/mazegame.c:165-253 | the pans keep the display on the map and the pan border around the player |
| Motion.TickSound | mp2/mazegame.c:501-574 | whatever key arrives, a tick keeps the player on track and the display framed |
| Motion.BackwardsTurnsAtOnce | mp2/mazegame.c:502-516 | between two squares a backwards key turns the player in the same tick: one pixel the other way, with as many pixels to go as had been gone |
| Motion.OtherKeysWait | mp2/mazegame.c:501-574 | between two squares any other key changes nothing |
| Motion.OnSquareTakesKey | mp2/mazegame.c:518-549 | on a square the player takes the key's direction if it is open, goes straight on if that is open and the key is not for the way back, and stops otherwise |
| Motion.ForthAndBack | mp2/mazegame.c:501-574 | whatever key has moved the player, a backwards key brings the player back to the same pixel |
| Motion.PansOnlyAtBorder | mp2/mazegame.c:165-253 | the display pans by at most one pixel, the way the player moves, and only with the player at the pan border |
| Motion.RunSound | mp2/mazegame.c:463-585 | the same over every run with any keys |
| Motion.TouchedSquaresOpen | mp2/mazegame.c:501-574 | every square the player's 12x12 block touches is open, mid-square reversals included |
| Motion.PlayerOnScreen | mp2/mazegame.c:165-253 | the player's block is completely on the screen and the window on the map |
| MazeGame.AliasesOutOfView | mp2/maze.c:580-589 | wherever the player is, a border square he can unveil has its alias out of view |
| MazeGame.VisibleAliasHidden | mp2/maze.c:586-589 | if a border column is in view, the other position of that column is not |
| MazeGame.LevelSize | mp2/mazegame.c:125-133 | every level from 1 on has a valid size with more points than fruits, and no other level has |
| MazeGame.LevelsGrow | mp2/mazegame.c:125-133 | each level has two columns and two rows more than the one before, up to the limits, and every other level a fruit more, up to six |
| MazeGame.Game.FindOpenDirections | mp2/maze.c:812-817 | the four directions are open exactly when the neighbouring cells are |
| MazeGame.Game.UnveilAroundPlayer | mp2/mazegame.c:268-287 | the fruit on the square is eaten, exactly the thirteen squares around are marked, agreement is kept, and the result says whether the level is won |
| MazeGame.Game.TurnBack | mp2/mazegame.c:502-516 | a key for the way back is taken at once and the pixels to go become those gone; any other key changes nothing |
| MazeGame.Game.ChooseDirection | mp2/mazegame.c:527-548 | implements the decision on a square |
| MazeGame.Game.MoveUp | mp2/mazegame.c:165-179 | one pixel up with its pan, agreement kept |
| MazeGame.Game.MoveRight | mp2/mazegame.c:189-204 | one pixel right with its pan, agreement kept |
| MazeGame.Game.MoveDown | mp2/mazegame.c:214-229 | one pixel down with its pan, agreement kept |
| MazeGame.Game.MoveLeft | mp2/mazegame.c:239-253 | one pixel left with its pan, agreement kept |
| MazeGame.Game.Tick | mp2/mazegame.c:501-584 | maze and player after a tick are exactly what the tick on values gives; a backwards key between two squares turns the player at once; agreement, walls and fences are kept |
| MazeGame.Game.Settle | mp2/mazegame.c:518-549 | the first part of a tick: look around and decide on a square, nothing between two |
| MazeGame.Game.Continue | mp2/mazegame.c:553-584 | the rest of a tick: one pixel, and look around |
| MazeGame.Game.PlayLevel | mp2/mazegame.c:463-585 | a level in play is won by a key sequence exactly when the run on values is; until then the player moves as the state machine, and the level can still be won |
| MazeGame.Game.PlayKeys | mp2/mazegame.c:463-585 | for any key sequence maze and player are those of the run on values, with window and maze in agreement throughout |
| MazeGame.Game.StartLevel | mp2/mazegame.c:118-155 | a level begins, from level 1 on and if and only if the random numbers end the worm phase, with a joined maze of its size, window and maze in agreement and the player on (1,1), and it can be won |
| MazeGame.Game.CanStillBeWon | mp2/mazegame.c:441-594 | in every state of a level in play there is a key sequence that wins it |
| MazeWorld.LookKeeps | mp2/mazegame.c:268-287 | looking around moves no wall, and takes the fruit on the square and no other |
| MazeWorld.LookLiftsMist | mp2/mazegame.c:276-283 | after looking around no position two steps away or less shows mist |
| MazeWorld.TickSees | mp2/mazegame.c:518-584 | a tick shows what is around the square the player stands on and around the square he is rolling on, eats the fruit there, and forgets nothing |
| MazeWorld.LooksAhead | mp2/mazegame.c:575-581 | rolling up or left the player looks around on the square ahead from half-way on, rolling right or down when it is reached, and on the square behind before that |
| MazeWorld.WinsOnExit | mp2/mazegame.c:518-526 | a tick wins the level if and only if the player stands on the exit and no fruit is left anywhere else |
| MazeWorld.TickFollows | mp2/mazegame.c:501-584 | until the level is won a tick moves the player as the state machine does, and a player who stands has eaten the fruit of his square |
| MazeWorld.RunFollows | mp2/mazegame.c:463-585 | the same over every run |
| MazeWin.OneSquare | mp2/mazegame.c:518-574 | twelve ticks with a key held take the player to the next square, if that is open |
| MazeWin.EdgeDirection | mp2/maze.c:144-163 | an edge of the lattice graph is a direction in which the player can go |
| MazeWin.FollowWalk | mp2/mazegame.c:501-574 | the player can follow any walk through the lattice graph |
| MazeWin.GoTo | mp2/maze.c:331-335 | the joined maze lets the player walk from any lattice point to any other |
| MazeWin.ToPoint | mp2/maze.c:182-193 | from any open square, in both forms of the maze, one or two squares lead to a lattice point |
| MazeWin.WinFromPoint | mp2/mazegame.c:441-594 | from a lattice point: keys that eat every fruit and reach the exit |
| MazeWin.AlwaysWinnable | mp2/mazegame.c:441-594 | wherever the player is, between two squares included, the level can be won |
| TuxFrames.ScanFindsWindows | mp2/module/tuxctl-ld.c:270-281 | skipping a packet as a whole finds exactly the well-framed three-byte windows, in order and once each |
| TuxFrames.FramedIsBit7 | mp2/module/tuxctl-ld.c:270-281 | three bytes are a packet exactly if bit 7 is clear in the first and set in the other two |
| TuxFrames.ScanExtends | mp2/module/tuxctl-ld.c:268-286 | scanning a longer stream agrees with scanning its beginning up to the bytes kept back |
| TuxFrames.ParseInChunks | mp2/module/tuxctl-ld.c:255-287 | parsing a stream in two chunks is parsing it whole |
| TuxFrames.AnyChunking | mp2/module/tuxctl-ld.c:255-287 | on sequences: scanning chunks of any length one after the other, carrying the rest over, finds the well-framed windows of their concatenation |
| TuxLine.RingPut | mp2/module/tuxctl-ld.c:96-100 | the full test holds exactly when there is no room, and otherwise a byte is appended |
| TuxLine.RingGet | mp2/module/tuxctl-ld.c:96-100 | the first byte is taken from the front, across the wrap |
| TuxLine.RoomRespectedIff | mp2/module/tuxctl-ld.c:175-185 | the driver is given no more than its room exactly when all that is buffered fits, and otherwise one byte more |
| TuxLine.OneByteTooMany | mp2/module/tuxctl-ld.c:175-185 | with room for 5 bytes and 6 buffered, 6 are handed over |
| TuxLine.Ldisc.RcvBuf | mp2/module/tuxctl-ld.c:141-162 | bytes are received until 63 wait and the framer looks at up to twelve; everything is taken and looked at if and only if the waiting bytes and the chunk together fit beside the carried ones |
| TuxLine.Ldisc.ReceiveAll | mp2/module/tuxctl-ld.c:141-287 | over a run of deliveries: whether a byte was dropped; with chunks of at most 10 bytes none is, the framer never falls further behind, and if it was not behind, the packets handled are the well-framed windows of all bytes received |
| TuxLine.Ldisc.Get | mp2/module/tuxctl-ld.c:200-215 | the first bytes of the ring are handed over in order and the rest stays |
| TuxLine.Ldisc.HandlePackets | mp2/module/tuxctl-ld.c:270-281 | the loop over the packet buffer is the scan of its bytes and leaves at most two |
| TuxLine.Ldisc.DataCallback | mp2/module/tuxctl-ld.c:255-287 | over any run of callbacks the handled packets and carried bytes are those of the stream looked at so far |
| TuxLine.Ldisc.HandledAreWindows | mp2/module/tuxctl-ld.c:255-287 | in every state the packets handled are the well-framed windows of the bytes looked at |
| TuxLine.Ldisc.WriteWakeup | mp2/module/tuxctl-ld.c:168-190 | the bytes handed over are the next accepted ones, in order, exactly as many as the loop lets through |
| TuxLine.Ldisc.Put | mp2/module/tuxctl-ld.c:223-240 | bytes are accepted until 63 wait, the number that did not fit is returned, and accepted = handed over + buffered |
| ProcessTable.BootChained | mp3/student-distrib/syscalls.c:170-284 | the table after the first shell satisfies the chain invariant |
| ProcessTable.Free | mp3/student-distrib/syscalls.c:182-193 | the lowest free slot, and 0 exactly if all are taken |
| ProcessTable.ExecuteChained | mp3/student-distrib/syscalls.c:181-284 | execute puts one new process on the running terminal's chain, or changes nothing |
| ProcessTable.HaltChained | mp3/student-distrib/syscalls.c:116-161 | halt takes the top off that chain, or leaves a root shell |
| ProcessTable.SwitchChained | mp3/student-distrib/terminal.c:356-460 | switching starts at most a new chain on an idle terminal and touches no other |
| ProcessTable.NextLiveFound | mp3/student-distrib/scheduler.c:30-37 | the search ends on a live terminal and passes none |
| ProcessTable.ScheduleChained | mp3/student-distrib/scheduler.c:16-62 | a tick keeps the chains and runs the top process of the terminal it comes to |
| ProcessTable.RunChained | mp3/student-distrib/syscalls.c:116-284 | in every run the parent links form disjoint finite chains that hold exactly the active slots, and a live terminal stays live |
| ProcessTable.ScheduleResumes | mp3/student-distrib/scheduler.c:21-58 | the context restored is the one last saved for that terminal, or its shell's entry |
| ProcessTable.RunResumes | mp3/student-distrib/scheduler.c:16-62 | the same after every run, although process blocks are reused |
| ProcessTable.RunSuspended | mp3/student-distrib/scheduler.c:16-62 | after any run every other live terminal will go on where it was last stopped, or at its shell's entry |
| ProcessTable.HaltHandsBack | mp3/student-distrib/syscalls.c:116-284 | after any run a process that halts hands back exactly the context its caller saved in the execute that started it; a root shell has none |
| ProcessTable.LiveIsScheduled | mp3/student-distrib/scheduler.c:30-37 | a live terminal is scheduled within three ticks, whatever happens in between |
| ProcessTable.HaltUndoesExecute | mp3/student-distrib/syscalls.c:116-284 | halting what was just executed restores the table, and the parent's context is the one saved |
| ProcessTable.StackFindsPcb | mp3/student-distrib/syscalls.c:405-417 | masking a stack address gives the block of pid if and only if the address lies in pid's 8 kB |
| Processes.Kernel.FindFree | mp3/student-distrib/syscalls.c:182-193 | the loop finds the first slot that is not active, and 0 exactly if all are active |
| Processes.Kernel.Execute | mp3/student-distrib/syscalls.c:170-284 | a program that can be loaded is started if and only if some slot is free: in the lowest one, on top of its caller and on its terminal; otherwise nothing changes |
| Processes.Kernel.Halt | mp3/student-distrib/syscalls.c:116-161 | performs halt: the slot is freed, the parent is on top again and its saved context returned; a root shell stays |
| Processes.Kernel.SwitchTerminal | mp3/student-distrib/terminal.c:356-460 | another terminal is shown if something runs on it or some slot is free; in the second case a shell starts in the lowest free slot, and otherwise the table stays |
| Processes.Kernel.Schedule | mp3/student-distrib/scheduler.c:16-62 | performs schedule: the running process is saved with its context and the top process of the terminal come to goes on; its search terminates |
| Processes.Kernel.Boot | mp3/student-distrib/syscalls.c:170-284 | the first shell puts the kernel into a state whose parent links form chains |
| Processes.Kernel.Do | mp3/student-distrib/syscalls.c:116-284 | on such a state every operation may be called, does in place what the step on values does, and leaves such a state |
| Processes.Kernel.Perform | mp3/student-distrib/syscalls.c:116-284 | any run in place: the table of the run on values, chains, live terminals and suspended contexts |
| TextCanvas.PutShown | mp3/student-distrib/terminal.c:104-139 | one character keeps "the screen shows the last 25 lines of the page" |
| TextCanvas.NewLineShowsNothing | mp3/student-distrib/terminal.c:104-120 | line feed and carriage return, and no other character, start a new line and show nothing |
| TextCanvas.ScreenIsEndOfPage | mp3/student-distrib/terminal.c:79-140 | from a cleared screen, after any output the 25x80 screen is exactly the last 25 lines of the unbounded page wrapped at 80 |
| TextCanvas.LinesHoldOutput | mp3/student-distrib/terminal.c:104-120 | the page's lines hold the printed characters, in order, with nothing lost |
| Terminals.Console.constructor | mp3/student-distrib/terminal.c:42-69 | terminal 0 is displayed, positions and buffers are empty |
| Terminals.Console.Scroll | mp3/student-distrib/terminal.c:122-134 | the in-place loop moves every row up and blanks the last, on one terminal's page only |
| Terminals.Console.Putc | mp3/student-distrib/terminal.c:104-140 | one character on one terminal; the other terminals' screens stay, wherever they are stored |
| Terminals.Console.Write | mp3/student-distrib/terminal.c:200-215 | a string is its characters one after the other |
| Terminals.Console.Clear | mp3/student-distrib/terminal.c:79-91 | one terminal becomes blank with its cursor at the top left; the others stay |
| Terminals.Console.CopyPage | mp3/student-distrib/terminal.c:368-369 | one page is copied and the others stay |
| Terminals.Console.Remap | mp3/student-distrib/terminal.c:374-388 | exactly the mapped entries of the two terminals that change places are redirected |
| Terminals.Console.ShowTerminal | mp3/student-distrib/terminal.c:366-372 | after the two copies every terminal has its own page, the new one at 0xB8000 |
| Terminals.Console.Switch | mp3/student-distrib/terminal.c:356-460 | every terminal keeps its screen and input, and every mapped user page goes on showing the same terminal |
| Terminals.RedirectKeeps | mp3/student-distrib/terminal.c:374-388 | redirecting an entry moves it along with its terminal and keeps its flags |
| Terminals.Console.Vidmap | mp3/student-distrib/syscalls.c:328-369 | the caller's page shows the caller's terminal if and only if that terminal is displayed |
| Terminals.Console.KeyPress | mp3/student-distrib/terminal.c:337-345 | a key is shown and kept when there is room; the last place is kept for a newline |
| Terminals.Console.Backspace | mp3/student-distrib/terminal.c:291-308 | the last waiting character is taken back and the cell before the cursor blanked |
| Terminals.EraseUndoesPut | mp3/student-distrib/terminal.c:294-308 | backspace after a character brings the cursor back and blanks the character's cell, one row up if the screen has scrolled, and touches no other cell |
| Terminals.EraseAtTopLeft | mp3/student-distrib/terminal.c:295-297 | backspace leaves the screen alone exactly at the top left |
| Terminals.Console.Read | mp3/student-distrib/terminal.c:167-187 | the waiting characters are handed over in order, up to the count, and the rest stay waiting |
| Terminals.Console.Run | mp3/student-distrib/terminal.c:79-460 | any interleaving of output, clearing and switching acts as on three separate screens, and user pages keep showing their terminal |
| Terminals.ClearedTerminalShowsItsOutput | mp3/student-distrib/terminal.c:79-140 | in every run a terminal shows the last 25 lines of its own output since it was cleared |
| TerminalRuns.Handle | mp3/student-distrib/terminal.c:79-460 | each input does to the console what it does to the separate machines |
| TerminalRuns.Perform | mp3/student-distrib/terminal.c:79-460 | any session of output, typing, backspace, reading, clearing, switching and vidmap: screens, waiting characters and video pages are those of three separate machines |
| TerminalRuns.ShowsOwnIff | mp3/student-distrib/syscalls.c:328-369 | the page of a slot shows its process's own terminal if and only if that terminal was displayed when vidmap was last called from the slot, by whatever process |
| TerminalRuns.ReusedSlotShowsAnother | mp3/student-distrib/syscalls.c:116-161 | halt does not clear the page: a program on another terminal that reuses the slot sees the earlier one's terminal |
| FileImage.PiecesAreConsecutive | mp3/student-distrib/vfs.c:156-169 | any run of reads returns consecutive pieces and stops at the end of the file |
| FileImage.RunGetsAsFarAsAsked | mp3/student-distrib/vfs.c:156-169 | the position after a run is the sum of the sizes, or the end of the file |
| FileImage.ReadsReturnTheFile | mp3/student-distrib/vfs.c:156-169 | however a file is cut into reads, their concatenation is the file's beginning, and all of it when enough is asked |
| FileImage.EmptyOnlyAtEnd | mp3/student-distrib/vfs.c:335-338 | a read of a positive size returns nothing only at the end of the file, and otherwise min(size, bytes left) |
| FileImage.NegativeSizeTakesTheRest | mp3/student-distrib/vfs.c:365 | a negative size reads all that is left |
| FileImage.OwnNameOnly | mp3/student-distrib/vfs.c:270-281 | an entry answers to its own name, and another entry does only if it has the same name |
| FileImage.AnswersCharByChar | mp3/student-distrib/lib.c:438-452 | an entry answers exactly to the names that agree with it character by character, up to the NUL of both or 32 characters |
| FileImage.FileIsItsBlocks | mp3/student-distrib/vfs.c:340-387 | a file is its data blocks one after the other, in the order of its list, cut to its length |
| Vfs.Strncmp | mp3/student-distrib/lib.c:438-452 | the comparison is 0 exactly when the names agree up to 32 characters or to the NUL of both |
| Vfs.ReadDentryByName | mp3/student-distrib/vfs.c:257-286 | the first entry that answers to the name; the empty name and unknown names fail |
| Vfs.CopyFromBlock | mp3/student-distrib/vfs.c:363-370 | the inner loop copies until the length, the block or the file ends |
| Vfs.ReadData | mp3/student-distrib/vfs.c:318-387 | -1 exactly for a missing inode or a missing block among those looked at; otherwise the file's bytes from the offset, as many as asked and left, and nothing beyond |
| Vfs.FailsOnMissingBlock | mp3/student-distrib/vfs.c:350-358 | a read of an existing file fails exactly if the block of its position, or of a byte it is to copy, does not exist |
| Vfs.FileTable.constructor | mp3/student-distrib/vfs.c:414-434 | standard input and output are open, all other slots blank |
| Vfs.FileTable.FileOpen | mp3/student-distrib/vfs.c:69-128 | the lowest free slot gets the first entry with that name, with the operations and the position of its file type; the exact conditions of failure, which changes nothing |
| Vfs.FileTable.FileClose | mp3/student-distrib/vfs.c:137-147 | an open slot becomes blank; any other descriptor fails without change |
| Vfs.FileTable.OpenAndClose | mp3/student-distrib/vfs.c:69-147 | closing undoes opening: the whole table is as it was |
| Vfs.FileTable.FileRead | mp3/student-distrib/vfs.c:156-169 | the bytes at the position, which moves by the result; a failed read moves it back by one |
| Vfs.FileTable.ReadRun | mp3/student-distrib/vfs.c:156-169 | a run of reads returns the consecutive pieces and touches no other slot |
| Vfs.FileTable.OpenAndRead | mp3/student-distrib/vfs.c:69-169 | opening a regular file and reading it in any chunks returns its beginning, as far as asked |
| BlinkTimes.PhaseMoves | mp1/mp1.S:63-90 | a tick moves a structure on by one in its on and off period |
| BlinkTimes.OnAtTick | mp1/mp1.S:50-102 | k ticks after its addition a structure is on if and only if k mod (on + off) < on, for all 16-bit lengths |
| BlinkTimes.RunLeavesAlone | mp1/mp1.S:50-344 | in every run, a structure that is neither removed nor synchronized ticks once a tick and changes in no other way |
| BlinkTimes.OnInEveryRun | mp1/mp1.S:50-344 | so from its addition on, in any run, it shows its on character exactly in the on part of its period |
| BlinkTimes.RunDistinct | mp1/mp1.S:126-344 | in every run of allowed additions no location is ever listed twice |
| BlinkTimes.GoneUntilAdded | mp1/mp1.S:126-344 | in every such run a location that has been removed is not listed until it is added again |
| BlinkTimes.SyncedStayInStep | mp1/mp1.S:307-315 | two synchronized structures, ticked alone, stay in step for ever |
| BlinkTimes.SyncedInEveryRun | mp1/mp1.S:286-344 | two listed structures that have been synchronized are on and off together in every run, until one is removed or synchronized again |
| BlinkList.List.Search | mp1/mp1.S:353-375 | the first node with the location, or null if there is none |
| BlinkList.List.TickNode | mp1/mp1.S:63-90 | one node ticks and is poked exactly when its status changes |
| BlinkList.List.Tick | mp1/mp1.S:50-102 | every listed structure ticks once, only its character cell may change, and what is shown stays right |
| BlinkList.List.Add | mp1/mp1.S:126-180 | a started structure comes to the front, its on character is shown, and failures change nothing |
| BlinkList.List.Unlink | mp1/mp1.S:202-225 | one node leaves the chain, which stays free of cycles |
| BlinkList.List.Remove | mp1/mp1.S:188-237 | the first structure with the location, and nothing else, is taken out and the order of the others kept; -1 without change if there is none; locations that are distinct leave the removed one unlisted |
| BlinkList.List.Sync | mp1/mp1.S:286-344 | the second structure gets lengths, countdown and status of the first, keeps its place and characters, and is shown; -1 without change if either is missing |
| BlinkList.List.Perform | mp1/mp1.S:50-344 | in every run the list stays acyclic, holds what the events say, and every listed location shows the character of its status |

## Left out

- VGA registers, palette, fonts, port I/O and `mmap`: hardware. `copy_image` is a 14560-byte copy.
- The player overlay (`draw_refill_block`, `undraw`): it draws over the cell image, so agreement is stated for the layer below it.
- `show_status`, `text.c`, `blocks.s`: the pictures are uninterpreted 12x12 byte tables.
- Threads, terminal settings, tick accounting and the Tux ioctls: `next_dir` may be anything at every tick.
- MazeGen.Maze.WormPhase: does not state that a random stream ends the phase, which is only probable; the phase ends exactly if the numbers suffice (`WormRun.Suffices`), and from every state some numbers do.
- MazeGen.Maze.PickUnmarked: yields any unmarked point and does not model the draws that missed.
- The release build without memory fences: the model has fences of 256 bytes.
- Ldisc locking, and what the serial driver does with the bytes handed to it.
- Argument parsing, program loading and page directories of `execute`; closing of files in `halt`.
- Early returns of `execute`, `vidmap` and `switch_terminal` that leave interrupts disabled.
- The waiting loop of `terminal_read`, keyboard scancodes and modifiers.
- Process control blocks and terminals are values in array or sequence fields, so aliases of a block are not modelled.
- `file_read` into a buffer smaller than what may be copied, block numbers that are negative as 32-bit integers, and NULL pointers.
- `directory_read`, and `open`, which takes two descriptors for an RTC entry.
- `mp1_ioctl_find`, the unpacking of ioctl arguments, and adding a location of 2000 or more.
- BlinkList.List.Add: shows the right characters only for a location that is not listed yet; a second structure at one location is in the list but overwrites the cell.
- IDT, GDT, paging set-up, interrupt controller, RTC driver, context-switch assembly and user programs.
