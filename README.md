# Replay viewer core, modelled in Dafny

This project models the logic of a replay viewer for a turn-based snake game. It has three parts:

- **Frame normaliser** (`normalizer.dfy`, module `Normalizer`). It turns one engine snapshot into the frame the board renders: turn, food, snakes, death records, and the type and direction of each body segment. The implementation file `src/utils/game-state.js` is not part of this model. Its contract is taken from the fixtures in `src/utils/game-state.test.js`. All three fixtures are proved as lemmas.
- **Playback controller** (`playback.dfy`, module `Playback`). The class `Controller` holds the store state that the thunks of `src/actions/index.js` use: the frames appended so far, the current frame, `paused`, the game status, the engine options and the highlighted snake. Its methods are the transitions behind the action creators, and the thunks built from them: frame ingestion, one run of `playFromFrame`, reload, pause toggle, and step forward and back.
- **Scoreboard** (`scoreboard.dfy`, module `Scoreboard`). It covers `orderSnakes` and the highlight toggle of `src/components/scoreboard.jsx`.

`wrappers.dfy` defines `Option`. `None` stands for `undefined` or `null`.

Modelling choices:

- **Current frame as a position.** The current frame is stored as a position in `frames`, or `None` for `undefined`. The source finds frame objects with `indexOf`, which compares identity, so a position is exactly what identifies a frame.
- **Thrown exceptions.** Some thunks read `currentFrame.turn` while the current frame is `undefined`, and `playFromFrame` can read `lastFrame.gameOver` when its slice is empty. In the source both throw before anything is dispatched. The model therefore changes nothing in those cases.
- **Behaviour kept as coded.** In three places the code behaves in a way that may look unintended. The model follows the code each time:
  - The target-turn jump is re-applied on every ingested frame, not once.
  - The jump fires when `gameTurn <= frames.length`. Because it indexes `frames[gameTurn]`, a target equal to the number of frames makes the current frame `undefined`.
  - `reloadGame` assigns the turn-0 lookup result even when no frame has turn 0.
- **Assumptions about code outside the model:**
  - `getFrameByTurn` returns the first frame whose turn is `n`, or `undefined`.
  - The reducers act as follows:
    - RECEIVE_FRAME appends the normalised frame. Whether that frame is terminal comes from the reducer and is given as `GameInfo.finished`.
    - PAUSE_GAME and RESUME_GAME set `paused`.
    - SET_CURRENT_FRAME, SET_GAME_STATUS, SET_ENGINE_OPTIONS and HIGHLIGHT_SNAKE assign their field.
    - GAME_OVER and REQUEST_FRAMES are only counted.
  - Before the first action the store has no frames and no current frame, and it is paused. The game status is the empty string (so it is not `"stopped"`), the engine options are empty with no turn and no autoplay, and no snake is highlighted.

## Model

| member | source | states |
|---|---|---|
| `Normalizer.DirectionOf` | src/utils/game-state.test.js:58-63 | the direction rule on an axis-aligned delta: x>0 right, x<0 left, y>0 down, y<0 up, no movement up |
| `Normalizer.DirectionOfStep` | src/utils/game-state.test.js:41-45 | the rule inverts the one-cell move of each direction (y grows downwards) |
| `Normalizer.FormatFrameTurn` | src/utils/game-state.test.js:117-135 | `turn` is `Turn` when present and 0 when absent; the normaliser never marks a frame terminal |
| `Normalizer.FormatFrameFood` | src/utils/game-state.test.js:27-34 | one food point per input point, in order, with `X`/`Y` renamed and a missing coordinate read as 0 |
| `Normalizer.FormatFrameSnakes` | src/utils/game-state.test.js:36-51 | snakes map one for one in order: `ID` becomes the id; name, health and colour are copied; the body keeps its length and each snake is `FormatSnake` of its raw snake; the four rendering hints stay unset; `URL` is dropped |
| `Normalizer.FormatSnakeDeath` | src/utils/game-state.test.js:98-114 | `isDead` iff `Death` is present; the `death` record exists exactly then, with the cause copied and the turn defaulted to 0 |
| `Normalizer.FormatBodyShape` | src/utils/game-state.test.js:41-45 | the body has the input's length and order, missing coordinates read as 0, every segment renders, and the type is head at index 0, tail at the last index of a longer body, and body in between |
| `Normalizer.TrailingSegmentFacesAhead` | src/utils/game-state.test.js:58-63 | a segment after the head that is one step `d` behind the segment ahead of it faces `d` |
| `Normalizer.HeadFacesAwayFromNeck` | src/utils/game-state.test.js:103-107 | a head one step `d` ahead of the second segment faces `d` |
| `Normalizer.HeadMatchesNeck` | src/utils/game-state.test.js:58-60 | with two or more segments, the head and the second segment face the same way |
| `Normalizer.SingleSegmentIsUpwardHead` | src/utils/game-state.test.js:146 | a one-segment body is a head facing up at its (defaulted) coordinates |
| `Normalizer.StraightBodyFacesTravel` | src/utils/game-state.test.js:41-45 | a straight body in which each segment is one step `d` behind the next faces `d` along its whole length |
| `Normalizer.PlaceSnakesFixture` | src/utils/game-state.test.js:3-70 | the "valid board" fixture yields exactly the expected frame, including directions left, left, up, left |
| `Normalizer.DeadSnakeFixture` | src/utils/game-state.test.js:72-115 | the "dead snakes" fixture yields exactly the expected frame, including the death record |
| `Normalizer.UndefinedNumbersFixture` | src/utils/game-state.test.js:117-154 | the "undefined numbers" fixture yields turn 0, food (0,0), and an upward head at (0,0) with death turn 0 |
| `Scoreboard.LessTotal` | src/components/scoreboard.jsx:13-18 | any two different names are ordered one way or the other by string `<` |
| `Scoreboard.NameCompareAtMostZero` | src/components/scoreboard.jsx:10-20 | the alive comparator lets `a` stay before `b` exactly when `b`'s lower-cased name is not smaller |
| `Scoreboard.NameCompareIsTotalPreorder` | src/components/scoreboard.jsx:10-20 | the alive comparator is total and transitive, as `sort` needs |
| `Scoreboard.DeathTurnCompareIsTotalPreorder` | src/components/scoreboard.jsx:25 | the dead comparator is total and transitive |
| `Scoreboard.SortPermutes` | src/components/scoreboard.jsx:10 | sorting returns a permutation of its input |
| `Scoreboard.SortSorted` | src/components/scoreboard.jsx:25 | sorting with a total-preorder comparator leaves every pair in comparator order |
| `Scoreboard.ReverseDescending` | src/components/scoreboard.jsx:25-26 | reversing an ascending order by death turn gives a descending one |
| `Scoreboard.OrderSnakesPermutes` | src/components/scoreboard.jsx:6-29 | `orderSnakes` returns a permutation of its input: same length, same multiset |
| `Scoreboard.OrderSnakesAliveFirst` | src/components/scoreboard.jsx:8-28 | the output is every alive snake followed by every dead snake |
| `Scoreboard.OrderSnakesAliveByName` | src/components/scoreboard.jsx:8-20 | alive snakes appear in non-decreasing order of lower-cased name |
| `Scoreboard.OrderSnakesDeadByTurn` | src/components/scoreboard.jsx:22-26 | dead snakes appear in non-increasing order of `death.turn` |
| `Scoreboard.NextHighlight` | src/components/scoreboard.jsx:62-64 | clicking the highlighted snake clears the highlight; any other snake becomes highlighted |
| `Scoreboard.ToggleTwiceClears` | src/components/scoreboard.jsx:61-71 | clicking the same snake twice from no highlight ends with no highlight |
| `Scoreboard.Scoreboard.constructor` | src/components/scoreboard.jsx:57-59 | the component starts with no highlighted snake |
| `Scoreboard.Scoreboard.ToggleHighlight` | src/components/scoreboard.jsx:61-71 | the store receives the next highlight, and the component state becomes that same value |
| `Playback.FrameByTurn` | src/actions/index.js:151 | the lookup returns the first frame with the asked-for turn, or `undefined` when no frame has it |
| `Playback.FrameByTurnFindsTurn` | src/actions/index.js:151-155 | the lookup finds a frame iff some stored frame has that turn |
| `Playback.FrameByTurnOfUnique` | src/actions/index.js:163 | with unique turns, looking up a stored frame's turn finds that very frame |
| `Playback.At` | src/actions/index.js:90 | `frames[i]` is the frame at `i` inside the sequence and `undefined` outside it |
| `Playback.Controller.SetEngineOptions` | src/actions/index.js:8-11 | the engine options are replaced |
| `Playback.Controller.GameOver` | src/actions/index.js:13-15 | one more game-over signal is recorded |
| `Playback.Controller.RequestFrames` | src/actions/index.js:17-19 | one more frame request is recorded |
| `Playback.Controller.ReceiveFrame` | src/actions/index.js:21-25 | the normalised frame is appended and nothing already stored changes |
| `Playback.Controller.SetCurrentFrame` | src/actions/index.js:27-30 | the current frame becomes the given stored frame or `undefined` |
| `Playback.Controller.SetGameStatus` | src/actions/index.js:32-35 | the game status is replaced |
| `Playback.Controller.PauseGame` | src/actions/index.js:37-39 | the game is paused |
| `Playback.Controller.ResumeGame` | src/actions/index.js:41-43 | the game is unpaused |
| `Playback.Controller.HighlightSnake` | src/actions/index.js:45-48 | the highlighted snake id is replaced |
| `Playback.Controller.FetchFrames` | src/actions/index.js:55-66 | captures autoplay and the parsed target turn, and requests frames once |
| `Playback.Controller.Ingest` | src/actions/index.js:68-93 | sets the status, appends the frame with its turn defaulted to 0. On turn 0 it shows and posts the first frame ever stored, and with autoplay it unpauses and starts playback from that frame. On every frame where the target is non-zero and at most the frame count, it jumps to position `gameTurn`, which is `undefined` at the count |
| `Playback.Controller.PlayRun` | src/actions/index.js:97-116 | one run leaves `frames` unchanged and shows the slice from the start frame onward (from the last frame for `undefined`). If `paused` is seen at a loop head, it stops there and shows nothing further. Otherwise it ends on the last frame, then signals game over once if that frame is terminal and the game is unpaused, or restarts from that frame |
| `Playback.Controller.ReloadGame` | src/actions/index.js:118-126 | changes nothing when playing; when paused, shows the turn-0 lookup result even when that is `undefined` |
| `Playback.Controller.TogglePause` | src/actions/index.js:128-145 | When paused, it re-fetches only for status "stopped", unpauses and resumes from the current frame. When playing, it posts the current turn + 1 and pauses. With no current frame, the playing branch changes nothing |
| `Playback.Controller.StepForward` | src/actions/index.js:147-157 | moves to and posts the frame of turn current + 1 if one exists, else changes nothing; frames never change |
| `Playback.Controller.StepBackward` | src/actions/index.js:159-169 | moves to and posts the frame of turn current - 1 if one exists, else changes nothing; frames never change |
| `Playback.StepForwardThenBack` | src/actions/index.js:147-169 | with unique turns, a step forward followed by a step back returns to the original frame |
| `Playback.StepBackThenForward` | src/actions/index.js:147-169 | with unique turns, a step back followed by a step forward returns to the original frame |
| `Playback.JumpMissesOnlyAtLength` | src/actions/index.js:87-92 | once the target jump fires, a positive target lands on no frame exactly when it equals the number of frames |
| `Playback.StoredFrameTurn` | src/actions/index.js:71-73 | the stored frame's turn is `Turn`, or 0 when absent, and its terminal mark is the reducer's |

## Left out

- Rendering is not modelled: `src/components/mediaControls.jsx` (its key bindings and `disabled` tests), the styled components, and `render` in `scoreboard.jsx`. They are presentation only.
- `windowPostMessage` is cross-frame I/O. The turns it would post are recorded in the ghost log `posted`.
- The engine client (`streamAllFrames`, `fetchGameStart`, `delay`) is network and timer code and is not part of this model. Frames arrive as calls to `Ingest`. The 50 ms delay takes no time. A failing `fetchGameStart` is not modelled, and `TogglePause` ignores its `await`.
- Playback does not interleave with ingestion or pausing. `PlayRun` reads `paused` from the oracle `observe`, which stands for what other handlers set while the run waits. The model covers one run; the outcome `Restart` names the frame the next run starts from, and unbounded recursion is not modelled.
- The reducers are not part of this model; their effect is assumed as listed above.
- `parseInt` is not modelled. The target turn arrives already parsed; absent or not a number is `None`.
- `Scoreboard.Lower`: only ASCII letters are lower-cased, and strings compare by Dafny `char`. JavaScript lower-cases all of Unicode and compares UTF-16 code units.
- `Scoreboard.OrderSnakesAliveByName`, `Scoreboard.OrderSnakesDeadByTurn`: the order among equal keys depends on the engine's sort and is left open. The model sorts by insertion.
- `Scoreboard.DeathTurn`: a dead snake without a death record reads as turn 0. The source would throw if the comparator were called on it. The normaliser never produces such a snake (`Normalizer.FormatSnakeDeath`).
- `Normalizer.DirectionOf`: the contract leaves a diagonal delta open, since no fixture covers one. The body picks the x axis.
- `Scoreboard.Scoreboard.ToggleHighlight`: the source computes the dispatched id from `this.state` and the new state from the updater's state. The model treats them as the same state, because updates are not interleaved.
