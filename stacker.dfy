/** The game state machine of the 3D stacker: a tower of placed cubes, the drop
    key latch, the game-over flag and the fall animation that ends in a reset.

    The frame is specified on values (datatype Game, functions HandleKey, Fall,
    Next and Run); the class StackerGame holds the same state as mutable fields,
    as the script's globals do, and its Step and Play methods are proved against
    Next and Run. Properties of the game are lemmas about the value-level spec. */
module Stacker {

  /** Width of a cube; a drop further than this from the top cube misses. */
  const CubeWidth: real := 1.0
  /** What the fall offset loses in every frame of the game-over animation. */
  const FallStep: real := 0.1
  /** The fall animation ends (and the game resets) once the offset is below this. */
  const FallLimit: real := -5.0

  /** A cube placed on the tower: horizontal offset and stack height. */
  datatype Cube = Cube(x: real, layer: int)

  /** The colour the active cube is drawn in. */
  datatype Colour = Yellow | Green | Red

  /** One frame's inputs: where the oscillating cube is, and whether the drop key is down. */
  datatype Input = Input(activeX: real, keyDown: bool)

  /** The whole game state: the placed cubes, the next layer to fill, the key
      latch, the game-over flag and the fall offset of the missed cube. */
  datatype Game = Game(cubes: seq<Cube>, layer: int, latched: bool, over: bool, fallY: real)

  /** The state the game starts in, and the one it resets to. */
  const Start: Game := Game([], 0, false, false, 0.0)

  function Abs(r: real): real {
    if r < 0.0 then -r else r
  }

  /** A drop with the cube at activeX misses the tower: the stack is not empty
      and the cube is more than a cube width away from the top cube. */
  predicate IsMiss(cubes: seq<Cube>, activeX: real) {
    |cubes| > 0 && Abs(activeX - cubes[|cubes| - 1].x) > CubeWidth
  }

  /** A frame's key state triggers a drop: the key is down and not latched. */
  predicate Fires(g: Game, keyDown: bool) {
    keyDown && !g.latched
  }

  /** The drop itself: a miss ends the game, anything else places the cube. It
      never touches the latch or the fall offset, keeps every earlier cube, and
      adds one cube exactly when it is not a miss. */
  function Drop(g: Game, activeX: real): (r: Game)
    ensures r.latched == g.latched && r.fallY == g.fallY
    ensures |r.cubes| == |g.cubes| + (if IsMiss(g.cubes, activeX) then 0 else 1)
    ensures r.cubes[..|g.cubes|] == g.cubes
    ensures r.over <==> g.over || IsMiss(g.cubes, activeX)
  {
    if IsMiss(g.cubes, activeX) then g.(over := true)
    else g.(cubes := g.cubes + [Cube(activeX, g.layer)], layer := g.layer + 1)
  }

  /** Drop handling followed by the latch release. Not guarded by the game-over
      flag: a press during the fall animation still drops. */
  function HandleKey(g: Game, activeX: real, keyDown: bool): (h: Game)
    ensures h.latched == keyDown
    ensures h.fallY == g.fallY
    ensures !Fires(g, keyDown) ==> h.cubes == g.cubes && h.layer == g.layer && h.over == g.over
  {
    var h := if Fires(g, keyDown) then Drop(g.(latched := true), activeX) else g;
    if !keyDown then h.(latched := false) else h
  }

  /** The game-over fall step: the offset drops by FallStep and, below FallLimit,
      everything but the latch returns to the start state. */
  function Fall(g: Game): (r: Game)
    ensures r.latched == g.latched
    ensures !g.over ==> r == g
    ensures g.over ==> (r.over <==> g.fallY - FallStep >= FallLimit)
    ensures r.over ==> r.fallY == g.fallY - FallStep && r.cubes == g.cubes && r.layer == g.layer
    ensures g.over && !r.over ==> r.cubes == [] && r.layer == 0 && r.fallY == 0.0
  {
    if !g.over then g
    else if g.fallY - FallStep < FallLimit then Start.(latched := g.latched)
    else g.(fallY := g.fallY - FallStep)
  }

  /** One frame: key handling first, then the fall step. After the frame the
      latch is set exactly when the key was down; the tower has either been
      cleared by the reset or kept its cubes and gained at most one. */
  function Next(g: Game, i: Input): (r: Game)
    ensures r.latched == i.keyDown
    ensures r.cubes == [] || (|g.cubes| <= |r.cubes| <= |g.cubes| + 1 && r.cubes[..|g.cubes|] == g.cubes)
  {
    Fall(HandleKey(g, i.activeX, i.keyDown))
  }

  /** The frames of inputs applied in order. The score grows by at most one per
      frame, and the latch ends up as the last frame's key left it. */
  function Run(g: Game, inputs: seq<Input>): (r: Game)
    ensures |r.cubes| <= |g.cubes| + |inputs|
    ensures inputs != [] ==> r.latched == inputs[|inputs| - 1].keyDown
    decreases |inputs|
  {
    if inputs == [] then g
    else Next(Run(g, inputs[..|inputs| - 1]), inputs[|inputs| - 1])
  }

  /** How many of those frames fired a drop. */
  function DropCount(g: Game, inputs: seq<Input>): nat
    decreases |inputs|
  {
    if inputs == [] then 0
    else
      var before := Run(g, inputs[..|inputs| - 1]);
      DropCount(g, inputs[..|inputs| - 1]) + if Fires(before, inputs[|inputs| - 1].keyDown) then 1 else 0
  }

  /** The score shown in the HUD and the window title. */
  function Score(g: Game): nat {
    |g.cubes|
  }

  /** The active cube's colour: yellow over an empty stack, green when within
      half a cube width of the top cube, red otherwise. */
  function ActiveColour(cubes: seq<Cube>, activeX: real): (c: Colour)
    ensures c == Yellow <==> cubes == []
    ensures c == Green ==> !IsMiss(cubes, activeX)
  {
    if cubes == [] then Yellow
    else if Abs(activeX - cubes[|cubes| - 1].x) < CubeWidth * 0.5 then Green
    else Red
  }

  /** The invariant every reachable state keeps: one cube per layer below the
      current one, each at its own index; no fall offset while playing; and
      during the fall the offset stays in [FallLimit, 0) and the tower is not
      empty (only a drop on a non-empty tower can miss). */
  ghost predicate Inv(g: Game) {
    && g.layer == |g.cubes|
    && (forall k :: 0 <= k < |g.cubes| ==> g.cubes[k].layer == k)
    && (!g.over ==> g.fallY == 0.0)
    && (g.over ==> FallLimit <= g.fallY < 0.0 && g.cubes != [])
  }

  // ---------------------------------------------------------------------------
  // The stateful game, as the script's globals

  class StackerGame {
    var cubePositions: seq<Cube>
    var currentLayer: int
    var spacePressed: bool
    var gameOver: bool
    var fallY: real

    /** The value the fields stand for. */
    function State(): Game
      reads this
    {
      Game(cubePositions, currentLayer, spacePressed, gameOver, fallY)
    }

    constructor ()
      ensures State() == Start && Inv(State())
    {
      cubePositions := [];
      currentLayer := 0;
      spacePressed := false;
      gameOver := false;
      fallY := 0.0;
    }

    /** One pass of the frame loop, with the oscillating x and the key state as inputs. */
    method Step(activeX: real, keyDown: bool)
      modifies this
      ensures State() == Next(old(State()), Input(activeX, keyDown))
      ensures Inv(old(State())) ==> Inv(State())
    {
      ghost var before := State();
      if keyDown && !spacePressed {
        spacePressed := true;
        if |cubePositions| > 0 {
          var previousX := cubePositions[|cubePositions| - 1].x;
          if Abs(activeX - previousX) > CubeWidth {
            gameOver := true;
          } else {
            cubePositions := cubePositions + [Cube(activeX, currentLayer)];
            currentLayer := currentLayer + 1;
          }
        } else {
          cubePositions := cubePositions + [Cube(activeX, currentLayer)];
          currentLayer := currentLayer + 1;
        }
      }
      if !keyDown {
        spacePressed := false;
      }
      if gameOver {
        fallY := fallY - FallStep;
        if fallY < FallLimit {
          cubePositions := [];
          currentLayer := 0;
          fallY := 0.0;
          gameOver := false;
        }
      }
      if Inv(before) {
        NextKeepsInv(before, Input(activeX, keyDown));
      }
    }

    /** The frame loop over a finite run of frames. */
    method Play(inputs: seq<Input>)
      modifies this
      ensures State() == Run(old(State()), inputs)
      ensures Inv(old(State())) ==> Inv(State())
    {
      ghost var start := State();
      var i := 0;
      while i < |inputs|
        invariant 0 <= i <= |inputs|
        invariant State() == Run(start, inputs[..i])
        invariant Inv(start) ==> Inv(State())
      {
        Step(inputs[i].activeX, inputs[i].keyDown);
        assert inputs[..i + 1][..i] == inputs[..i];
        i := i + 1;
      }
      assert inputs[..i] == inputs;
    }
  }

  // ---------------------------------------------------------------------------
  // Properties of one frame

  lemma StartIsValid()
    ensures Inv(Start) && Score(Start) == 0
  {
  }

  /** Every frame keeps the invariant, including the frames of the fall
      animation in which a press still drops. */
  lemma NextKeepsInv(g: Game, i: Input)
    requires Inv(g)
    ensures Inv(Next(g, i))
  {
  }

  /** Dropping on an empty stack always places the cube at the current layer. */
  lemma FirstDropPlaces(g: Game, activeX: real)
    requires Inv(g) && g.cubes == [] && !g.latched
    ensures Next(g, Input(activeX, true)) == Game([Cube(activeX, 0)], 1, true, false, 0.0)
  {
  }

  /** The drop branch in any state with a non-empty tower, including a press
      during the fall animation (the branch is not guarded by the game-over
      flag): a miss sets game over and leaves the tower, the layer and the fall
      offset alone; a hit appends the cube at the current layer, moves up one
      layer and leaves the game-over flag as it was. */
  lemma DropAnyState(g: Game, activeX: real)
    requires g.cubes != [] && !g.latched
    ensures var h := HandleKey(g, activeX, true);
      && h.latched
      && (Abs(activeX - g.cubes[|g.cubes| - 1].x) > CubeWidth ==>
            h.cubes == g.cubes && h.layer == g.layer && h.over && h.fallY == g.fallY)
      && (Abs(activeX - g.cubes[|g.cubes| - 1].x) <= CubeWidth ==>
            h.cubes == g.cubes + [Cube(activeX, g.layer)] && h.layer == g.layer + 1
            && h.over == g.over && h.fallY == g.fallY)
  {
  }

  /** A hit while the missed cube is still falling stacks a cube and the fall
      goes on, unless that frame's fall step resets the game. */
  lemma HitDuringFall(g: Game, activeX: real)
    requires Inv(g) && g.over && !g.latched && g.fallY - FallStep >= FallLimit
    requires !IsMiss(g.cubes, activeX)
    ensures var r := Next(g, Input(activeX, true));
      && r.over && r.cubes == g.cubes + [Cube(activeX, g.layer)] && Score(r) == Score(g) + 1
      && r.fallY == g.fallY - FallStep
  {
  }

  /** With a non-empty stack and no fall running, a drop misses exactly when the
      cube is further than a cube width from the top cube (exactly a cube width
      is a hit). A miss leaves the tower and the score alone and starts the fall;
      a hit appends the cube at the current layer and moves up one layer. */
  lemma DropOutcome(g: Game, activeX: real)
    requires Inv(g) && !g.over && g.cubes != [] && !g.latched
    ensures var r := Next(g, Input(activeX, true));
      && (r.over <==> Abs(activeX - g.cubes[|g.cubes| - 1].x) > CubeWidth)
      && (r.over ==> r.cubes == g.cubes && r.layer == g.layer && r.fallY == -FallStep && Score(r) == Score(g))
      && (!r.over ==> r.cubes == g.cubes + [Cube(activeX, g.layer)] && r.layer == g.layer + 1 && Score(r) == Score(g) + 1)
      && r.latched
  {
  }

  /** A frame whose key does not fire changes neither the stack nor the layer,
      unless the fall animation resets the game. */
  lemma NoDropNoChange(g: Game, i: Input)
    requires !Fires(g, i.keyDown)
    ensures var r := Next(g, i);
      (r.cubes == g.cubes && r.layer == g.layer) || (r == Start.(latched := r.latched) && g.over)
  {
  }

  /** During the fall (game over after the drop handling) the offset drops by
      exactly FallStep; the reset fires exactly when that takes it below
      FallLimit, and then restores the start state except for the latch. */
  lemma FallFrame(g: Game, i: Input)
    requires HandleKey(g, i.activeX, i.keyDown).over
    ensures var h := HandleKey(g, i.activeX, i.keyDown);
      var r := Next(g, i);
      && (g.fallY - FallStep < FallLimit ==> r == Start.(latched := h.latched))
      && (g.fallY - FallStep >= FallLimit ==> r.over && r.fallY == g.fallY - FallStep && r.cubes == h.cubes && r.layer == h.layer)
  {
  }

  /** The fall offset is zero at the end of every frame that ends in play. */
  lemma PlayingMeansNoFall(g: Game, i: Input)
    requires Inv(g)
    ensures !Next(g, i).over ==> Next(g, i).fallY == 0.0
  {
  }

  /** Score equals the current layer in every reachable state. */
  lemma ScoreIsLayer(g: Game)
    requires Inv(g)
    ensures Score(g) as int == g.layer
  {
  }

  /** Yellow exactly over an empty stack, green exactly within half a cube
      width, red otherwise; and a green cube is always a hit. */
  lemma ColourClassification(cubes: seq<Cube>, activeX: real)
    ensures ActiveColour(cubes, activeX) == Yellow <==> cubes == []
    ensures ActiveColour(cubes, activeX) == Green <==>
      cubes != [] && Abs(activeX - cubes[|cubes| - 1].x) < 0.5 * CubeWidth
    ensures ActiveColour(cubes, activeX) == Red <==>
      cubes != [] && Abs(activeX - cubes[|cubes| - 1].x) >= 0.5 * CubeWidth
    ensures ActiveColour(cubes, activeX) == Green ==> !IsMiss(cubes, activeX)
  {
  }

  // ---------------------------------------------------------------------------
  // Properties of runs of frames

  /** Run over a longer run is Run then the next frame (used by the inductions). */
  lemma {:induction false} RunSnoc(g: Game, inputs: seq<Input>, i: Input)
    ensures Run(g, inputs + [i]) == Next(Run(g, inputs), i)
    ensures DropCount(g, inputs + [i]) == DropCount(g, inputs) + if Fires(Run(g, inputs), i.keyDown) then 1 else 0
  {
  }

  /** Holding the key for any number of frames drops once when the latch was
      open, never when it was already set, and leaves it set. */
  lemma {:induction false} HeldKeyDropsOnce(g: Game, inputs: seq<Input>)
    requires |inputs| > 0
    requires forall k :: 0 <= k < |inputs| ==> inputs[k].keyDown
    ensures DropCount(g, inputs) == if g.latched then 0 else 1
    ensures Run(g, inputs).latched
  {
    var front := inputs[..|inputs| - 1];
    if front == [] {
      assert Run(g, front) == g;
    } else {
      HeldKeyDropsOnce(g, front);
    }
  }

  /** Frames with the key up during the fall move the offset down by FallStep
      each, release the latch and change nothing else, as long as the offset
      stays at or above FallLimit. */
  lemma {:induction false} IdleFall(g: Game, inputs: seq<Input>)
    requires g.over && |inputs| > 0
    requires forall k :: 0 <= k < |inputs| ==> !inputs[k].keyDown
    requires g.fallY - (|inputs| as real) * FallStep >= FallLimit
    ensures Run(g, inputs) == g.(latched := false, fallY := g.fallY - (|inputs| as real) * FallStep)
  {
    var front := inputs[..|inputs| - 1];
    if front != [] {
      IdleFall(g, front);
    }
  }

  /** A miss while playing, followed by key-up frames: the missed cube falls
      for 49 more frames with the tower and the score kept, and the 50th resets
      the game to the start state. */
  lemma {:induction false} MissThenReset(g: Game, activeX: real, idle: seq<Input>)
    requires Inv(g) && !g.over && !g.latched && IsMiss(g.cubes, activeX)
    requires forall k :: 0 <= k < |idle| ==> !idle[k].keyDown
    requires |idle| <= 50
    ensures var r := Run(g, [Input(activeX, true)] + idle);
      && (|idle| < 50 ==> r.over && r.cubes == g.cubes && Score(r) == Score(g))
      && (|idle| == 50 ==> r == Start)
  {
    var miss := Run(g, [Input(activeX, true)]);
    RunSnoc(g, [], Input(activeX, true));
    assert [] + [Input(activeX, true)] == [Input(activeX, true)];
    assert miss == g.(latched := true, over := true, fallY := -FallStep);
    RunAppend(g, [Input(activeX, true)], idle);
    if |idle| == 0 {
      assert [Input(activeX, true)] + idle == [Input(activeX, true)];
    } else if |idle| < 50 {
      IdleFall(miss, idle);
    } else {
      var front := idle[..49];
      assert forall k :: 0 <= k < |front| ==> !front[k].keyDown;
      IdleFall(miss, front);
      assert idle[..|idle| - 1] == front;
    }
  }

  /** Running two runs one after the other is running their concatenation. */
  lemma {:induction false} RunAppend(g: Game, xs: seq<Input>, ys: seq<Input>)
    ensures Run(g, xs + ys) == Run(Run(g, xs), ys)
    decreases |ys|
  {
    if ys == [] {
      assert xs + ys == xs;
    } else {
      var front := ys[..|ys| - 1];
      RunAppend(g, xs, front);
      assert (xs + ys)[..|xs + ys| - 1] == xs + front;
    }
  }

  /** The worked scenario: an empty stack, a drop at 2.0, then a hit at 2.4
      (score 2), or instead a miss at 3.5 (score stays 1). */
  lemma Scenario()
    ensures Next(Start, Input(2.0, true)).cubes == [Cube(2.0, 0)]
    ensures var one := Next(Next(Start, Input(2.0, true)), Input(0.0, false));
      && one.cubes == [Cube(2.0, 0)] && one.layer == 1
      && Next(one, Input(2.4, true)).cubes == [Cube(2.0, 0), Cube(2.4, 1)]
      && Score(Next(one, Input(2.4, true))) == 2
      && Next(one, Input(3.5, true)).over
      && Score(Next(one, Input(3.5, true))) == 1
  {
  }
}
