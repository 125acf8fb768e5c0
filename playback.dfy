/**
 * The playback controller of src/actions/index.js: the store state the
 * thunks read and write, the transitions the action creators stand for,
 * and the thunks themselves.
 *
 * The current frame is kept as a position in `frames` (`None` for
 * `undefined`): the source passes frame objects around and finds them again
 * with `indexOf`, which compares identity, so a position is what identifies
 * a frame. Turns posted to the host page are kept in the ghost log `posted`.
 *
 * The reducers are not part of this model. The transitions below assume
 * that RECEIVE_FRAME appends the normalised frame (marked terminal or not by
 * the reducer, given here as `GameInfo.finished`), PAUSE_GAME / RESUME_GAME
 * set `paused`, SET_CURRENT_FRAME assigns the current frame,
 * SET_GAME_STATUS assigns the status, SET_ENGINE_OPTIONS assigns the
 * options, HIGHLIGHT_SNAKE assigns the highlighted id, and GAME_OVER and
 * REQUEST_FRAMES are only counted.
 */
module Playback {
  import opened Wrappers
  import opened Normalizer

  /** Options the viewer was opened with; `turn` is the already parsed target turn, `None` when absent or not a number. */
  datatype EngineOptions = EngineOptions(engine: string, game: string, turn: Option<int>, autoplay: bool)

  /** What the engine reports with each frame: the game's status, and whether the store marks this frame as the last. */
  datatype GameInfo = GameInfo(status: string, finished: bool)

  /** What `fetchFrames` reads before streaming: `gameTurn` is 0 when there is no target turn. */
  datatype Session = Session(autoplay: bool, gameTurn: int)

  /** A `playFromFrame(frame)` started by a handler, `frame` given as a position or `undefined`. */
  datatype PlayRequest = NoPlay | PlayFrom(start: Option<nat>)

  /** How one run of `playFromFrame` ends. */
  datatype RunOutcome =
    | PausedAt(read: nat)    // `paused` was seen at the loop head of this iteration
    | NoLastFrame            // the slice was empty: reading `lastFrame.gameOver` throws
    | SignalledGameOver      // the last frame is terminal and the game was not paused
    | OverWhilePaused        // the last frame is terminal but the game was paused by then
    | Restart(from: nat)     // playback is started again from the last frame

  /** `parseInt(turn)`, where `NaN` and 0 both mean "no target turn". */
  function ParseTurn(turn: Option<int>): int {
    OrZero(turn)
  }

  /**
   * `getFrameByTurn(frames, n)` (its module is not part of this model): the
   * first frame whose turn is `n`, if any.
   */
  function FrameByTurn(frames: seq<Frame>, n: int): (r: Option<nat>)
    ensures r.Some? ==> r.value < |frames| && frames[r.value].turn == n
    ensures r.Some? ==> forall j :: 0 <= j < r.value ==> frames[j].turn != n
    ensures r.None? ==> forall j :: 0 <= j < |frames| ==> frames[j].turn != n
  {
    if |frames| == 0 then None
    else if frames[0].turn == n then Some(0)
    else match FrameByTurn(frames[1..], n)
      case None => None
      case Some(i) => Some(i + 1)
  }

  /** `frames[i]`: the frame at position `i`, `undefined` outside the sequence. */
  function At(frames: seq<Frame>, i: int): (r: Option<nat>)
    ensures r.Some? <==> 0 <= i < |frames|
    ensures r.Some? ==> r.value == i
  {
    if 0 <= i < |frames| then Some(i) else None
  }

  /**
   * Where `frames.slice(frames.indexOf(frame))` starts: at the frame itself,
   * or, for `undefined` (`indexOf` gives -1), at the last frame.
   */
  function SliceStart(start: Option<nat>, length: nat): nat {
    if start.Some? then start.value
    else if length == 0 then 0
    else length - 1
  }

  /** The positions from `lo` up to but excluding `hi`. */
  function Range(lo: nat, hi: nat): seq<nat>
    requires lo <= hi
  {
    seq(hi - lo, k requires 0 <= k < hi - lo => lo + k)
  }

  /** The target-turn jump fires when the target is set and no more than the frames stored. */
  predicate JumpFires(gameTurn: int, length: nat) {
    gameTurn != 0 && gameTurn <= length
  }

  /** The frame the store keeps for a received snapshot. */
  function Stored(raw: RawFrame, game: GameInfo): Frame {
    FormatFrame(raw).(gameOver := game.finished)
  }

  /** The raw frame after the ingestion callback's `frame.Turn = frame.Turn || 0`. */
  function DefaultTurn(raw: RawFrame): RawFrame {
    raw.(Turn := Some(OrZero(raw.Turn)))
  }

  /** No two frames share a turn. */
  ghost predicate UniqueTurns(frames: seq<Frame>) {
    forall i, j :: 0 <= i < j < |frames| ==> frames[i].turn != frames[j].turn
  }

  class Controller {
    var frames: seq<Frame>
    var current: Option<nat>
    var paused: bool
    var gameStatus: string
    var options: EngineOptions
    var highlighted: Option<string>
    ghost var posted: seq<int>
    ghost var frameRequests: nat
    ghost var gameOvers: nat

    /** The current frame, when defined, is one of the stored frames. */
    ghost predicate Valid()
      reads this
    {
      current.Some? ==> current.value < |frames|
    }

    /** The store as it is before the first action. */
    constructor ()
      ensures Valid()
      ensures frames == [] && current == None && paused && gameStatus == ""
      ensures options == EngineOptions("", "", None, false) && highlighted == None
      ensures posted == [] && frameRequests == 0 && gameOvers == 0
    {
      frames, current, paused, gameStatus := [], None, true, "";
      options, highlighted := EngineOptions("", "", None, false), None;
      posted, frameRequests, gameOvers := [], 0, 0;
    }

    // -------------------------------------------------------------------
    // Action creators, as the transitions they cause
    // -------------------------------------------------------------------

    method SetEngineOptions(o: EngineOptions)
      modifies this`options
      ensures options == o
    {
      options := o;
    }

    method GameOver()
      modifies this`gameOvers
      ensures gameOvers == old(gameOvers) + 1
    {
      gameOvers := gameOvers + 1;
    }

    method RequestFrames()
      modifies this`frameRequests
      ensures frameRequests == old(frameRequests) + 1
    {
      frameRequests := frameRequests + 1;
    }

    method ReceiveFrame(game: GameInfo, raw: RawFrame)
      requires Valid()
      modifies this`frames
      ensures Valid()
      ensures frames == old(frames) + [Stored(raw, game)]
    {
      frames := frames + [Stored(raw, game)];
    }

    method SetCurrentFrame(frame: Option<nat>)
      requires frame.Some? ==> frame.value < |frames|
      modifies this`current
      ensures Valid()
      ensures current == frame
    {
      current := frame;
    }

    method SetGameStatus(status: string)
      modifies this`gameStatus
      ensures gameStatus == status
    {
      gameStatus := status;
    }

    method PauseGame()
      modifies this`paused
      ensures paused
    {
      paused := true;
    }

    method ResumeGame()
      modifies this`paused
      ensures !paused
    {
      paused := false;
    }

    method HighlightSnake(snakeId: Option<string>)
      modifies this`highlighted
      ensures highlighted == snakeId
    {
      highlighted := snakeId;
    }

    // -------------------------------------------------------------------
    // Thunks
    // -------------------------------------------------------------------

    /**
     * The part of `fetchFrames` before the stream starts: read autoplay and
     * the target turn, and request frames. The stream then calls `Ingest`
     * with the returned session once per frame.
     */
    method FetchFrames() returns (session: Session)
      modifies this`frameRequests
      ensures session == Session(options.autoplay, ParseTurn(options.turn))
      ensures frameRequests == old(frameRequests) + 1
    {
      session := Session(options.autoplay, ParseTurn(options.turn));
      RequestFrames();
    }

    /**
     * The stream callback of `fetchFrames`: record the status, default a
     * missing turn to 0 and store the frame; on turn 0 show (and post) the
     * first frame ever stored and, with autoplay, start playing from it; then,
     * on every frame, jump to position `gameTurn` if the target is set and no
     * more than the frames stored (which is `undefined` when it equals their
     * number).
     */
    method Ingest(session: Session, game: GameInfo, raw: RawFrame) returns (play: PlayRequest)
      requires Valid()
      modifies this`gameStatus, this`frames, this`current, this`paused, this`posted
      ensures Valid()
      ensures gameStatus == game.status
      ensures frames == old(frames) + [Stored(DefaultTurn(raw), game)]
      ensures frames[|frames| - 1].turn == OrZero(raw.Turn)
      ensures var turn0 := OrZero(raw.Turn) == 0;
        && posted == (if turn0 then old(posted) + [frames[0].turn] else old(posted))
        && paused == (if turn0 && session.autoplay then false else old(paused))
        && play == (if turn0 && session.autoplay then PlayFrom(Some(0)) else NoPlay)
        && current == (if JumpFires(session.gameTurn, |frames|) then At(frames, session.gameTurn)
                       else if turn0 then Some(0)
                       else old(current))
    {
      SetGameStatus(game.status);
      var frame := DefaultTurn(raw);
      ReceiveFrame(game, frame);
      play := NoPlay;
      if frame.Turn == Some(0) {
        var first := 0;
        posted := posted + [frames[first].turn];
        SetCurrentFrame(Some(first));
        if session.autoplay {
          ResumeGame();
          play := PlayFrom(Some(first));
        }
      }
      if session.gameTurn != 0 && session.gameTurn <= |frames| {
        SetCurrentFrame(At(frames, session.gameTurn));
      }
    }

    /**
     * One run of `playFromFrame(frame)` over the frames stored when it
     * starts. `observe(k)` is the value of `paused` at its k-th read: the
     * k-th loop head, or, after the loop, the game-over check; it stands for
     * what other handlers set while the run waited, and becomes the store's
     * value at that read. The 50 ms delay takes no time here.
     */
    method PlayRun(start: Option<nat>, observe: nat -> bool) returns (visited: seq<nat>, outcome: RunOutcome)
      requires Valid()
      requires start.Some? ==> start.value < |frames|
      modifies this`current, this`paused, this`gameOvers
      ensures Valid()
      ensures frames == old(frames)
      ensures var from := SliceStart(start, |frames|);
        && (outcome.PausedAt? <==> exists k :: 0 <= k < |frames| - from && observe(k))
        && (outcome.PausedAt? ==>
             var k := outcome.read;
             && from + k < |frames| && observe(k)
             && (forall j :: 0 <= j < k ==> !observe(j))
             && visited == Range(from, from + k)
             && current == (if k == 0 then old(current) else Some(from + k - 1))
             && paused && gameOvers == old(gameOvers))
        && (outcome == NoLastFrame <==> from == |frames|)
        && (outcome == NoLastFrame ==>
             visited == [] && current == old(current) && paused == old(paused) && gameOvers == old(gameOvers))
        && (!outcome.PausedAt? && outcome != NoLastFrame ==>
             var last := |frames| - 1;
             && visited == Range(from, |frames|)
             && current == Some(last)
             && (frames[last].gameOver ==>
                  && paused == observe(|frames| - from)
                  && outcome == (if paused then OverWhilePaused else SignalledGameOver))
             && (!frames[last].gameOver ==> !paused && outcome == Restart(last))
             && gameOvers == old(gameOvers) + (if outcome == SignalledGameOver then 1 else 0))
    {
      var from := SliceStart(start, |frames|);
      var i := from;
      visited := [];
      while i < |frames|
        invariant from <= i <= |frames|
        invariant Valid()
        invariant visited == Range(from, i)
        invariant forall j :: 0 <= j < i - from ==> !observe(j)
        invariant current == (if i == from then old(current) else Some(i - 1))
        invariant paused == (if i == from then old(paused) else false)
        invariant gameOvers == old(gameOvers)
      {
        paused := observe(i - from);
        if paused {
          outcome := PausedAt(i - from);
          return;
        }
        SetCurrentFrame(Some(i));
        visited := visited + [i];
        i := i + 1;
      }
      if from == |frames| {
        outcome := NoLastFrame;
        return;
      }
      var last := |frames| - 1;
      if frames[last].gameOver {
        paused := observe(|frames| - from);
        if !paused {
          GameOver();
          outcome := SignalledGameOver;
        } else {
          outcome := OverWhilePaused;
        }
      } else {
        outcome := Restart(last);
      }
    }

    /** `reloadGame`: while paused, show the turn-0 frame, `undefined` if there is none. */
    method ReloadGame()
      requires Valid()
      modifies this`current
      ensures Valid() && frames == old(frames)
      ensures current == if paused then FrameByTurn(frames, 0) else old(current)
    {
      if paused {
        SetCurrentFrame(FrameByTurn(frames, 0));
      }
    }

    /**
     * `toggleGamePause`. Paused: a stopped game is started again and
     * re-fetched (the returned session), then playback resumes from the
     * current frame. Playing: post the next turn and pause; with no current
     * frame, reading its turn throws and nothing changes.
     */
    method TogglePause() returns (refetch: Option<Session>, play: PlayRequest)
      requires Valid()
      modifies this`paused, this`posted, this`frameRequests
      ensures Valid() && frames == old(frames)
      ensures old(paused) ==>
        && !paused && play == PlayFrom(current) && posted == old(posted)
        && (refetch.Some? <==> gameStatus == "stopped")
        && (refetch.Some? ==> refetch.value == Session(options.autoplay, ParseTurn(options.turn))
                              && frameRequests == old(frameRequests) + 1)
        && (refetch.None? ==> frameRequests == old(frameRequests))
      ensures !old(paused) ==> refetch == None && play == NoPlay && frameRequests == old(frameRequests)
      ensures !old(paused) && current.Some? ==> paused && posted == old(posted) + [frames[current.value].turn + 1]
      ensures !old(paused) && current.None? ==> !paused && posted == old(posted)
    {
      refetch, play := None, NoPlay;
      if paused {
        if gameStatus == "stopped" {
          var session := FetchFrames();
          refetch := Some(session);
        }
        ResumeGame();
        play := PlayFrom(current);
      } else if current.Some? {
        posted := posted + [frames[current.value].turn + 1];
        PauseGame();
      }
    }

    /** `stepForwardFrame`: show and post the frame of the next turn, if there is one. */
    method StepForward()
      requires Valid()
      modifies this`current, this`posted
      ensures Valid() && frames == old(frames)
      ensures old(current).None? ==> current == old(current) && posted == old(posted)
      ensures old(current).Some? ==>
        var target := FrameByTurn(frames, frames[old(current).value].turn + 1);
        && (target.Some? ==> current == target && posted == old(posted) + [frames[target.value].turn])
        && (target.None? ==> current == old(current) && posted == old(posted))
    {
      if current.Some? {
        var stepTo := FrameByTurn(frames, frames[current.value].turn + 1);
        if stepTo.Some? {
          posted := posted + [frames[stepTo.value].turn];
          SetCurrentFrame(stepTo);
        }
      }
    }

    /** `stepBackwardFrame`: show and post the frame of the previous turn, if there is one. */
    method StepBackward()
      requires Valid()
      modifies this`current, this`posted
      ensures Valid() && frames == old(frames)
      ensures old(current).None? ==> current == old(current) && posted == old(posted)
      ensures old(current).Some? ==>
        var target := FrameByTurn(frames, frames[old(current).value].turn - 1);
        && (target.Some? ==> current == target && posted == old(posted) + [frames[target.value].turn])
        && (target.None? ==> current == old(current) && posted == old(posted))
    {
      if current.Some? {
        var stepTo := FrameByTurn(frames, frames[current.value].turn - 1);
        if stepTo.Some? {
          posted := posted + [frames[stepTo.value].turn];
          SetCurrentFrame(stepTo);
        }
      }
    }
  }

  // ---------------------------------------------------------------------
  // Properties relating several operations
  // ---------------------------------------------------------------------

  /** A step lands on a frame of exactly the asked-for turn, and a missing turn leaves it a no-op. */
  lemma {:induction false} FrameByTurnFindsTurn(frames: seq<Frame>, n: int)
    ensures FrameByTurn(frames, n).Some? <==> exists j :: 0 <= j < |frames| && frames[j].turn == n
  {
    if FrameByTurn(frames, n).None? {
      assert forall j :: 0 <= j < |frames| ==> frames[j].turn != n;
    }
  }

  /** With unique turns, looking up a stored frame's turn finds that very frame. */
  lemma FrameByTurnOfUnique(frames: seq<Frame>, i: nat)
    requires UniqueTurns(frames)
    requires i < |frames|
    ensures FrameByTurn(frames, frames[i].turn) == Some(i)
  {
  }

  /**
   * With unique turns, stepping forward from the frame at `i` and then back
   * returns to `i`.
   */
  lemma StepForwardThenBack(frames: seq<Frame>, i: nat)
    requires UniqueTurns(frames)
    requires i < |frames|
    requires FrameByTurn(frames, frames[i].turn + 1).Some?
    ensures var next := FrameByTurn(frames, frames[i].turn + 1).value;
      FrameByTurn(frames, frames[next].turn - 1) == Some(i)
  {
    FrameByTurnOfUnique(frames, i);
  }

  /**
   * With unique turns, stepping back from the frame at `i` and then forward
   * returns to `i`.
   */
  lemma StepBackThenForward(frames: seq<Frame>, i: nat)
    requires UniqueTurns(frames)
    requires i < |frames|
    requires FrameByTurn(frames, frames[i].turn - 1).Some?
    ensures var prev := FrameByTurn(frames, frames[i].turn - 1).value;
      FrameByTurn(frames, frames[prev].turn + 1) == Some(i)
  {
    FrameByTurnOfUnique(frames, i);
  }

  /**
   * The target-turn jump, once it fires, lands on no frame exactly when the
   * target equals the number of frames stored (for a positive target).
   */
  lemma JumpMissesOnlyAtLength(frames: seq<Frame>, gameTurn: int)
    requires gameTurn > 0
    requires JumpFires(gameTurn, |frames|)
    ensures At(frames, gameTurn).None? <==> gameTurn == |frames|
  {
  }

  /** The frame stored for a snapshot carries its defaulted turn and the reducer's terminal mark. */
  lemma StoredFrameTurn(raw: RawFrame, game: GameInfo)
    ensures Stored(DefaultTurn(raw), game).turn == (if raw.Turn.Some? then raw.Turn.value else 0)
    ensures Stored(DefaultTurn(raw), game).gameOver == game.finished
  {
  }
}
