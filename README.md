# 3D stacker game: frame step and score overlay

A model of the game logic of a small 3D arcade game. A cube swings left and
right above a tower. The player presses the drop key to place it on the cube
below. A drop more than one cube width from the top cube ends the run: the
cube falls for a while, and then the game resets to an empty tower. The score
is the tower height. It is drawn in the top-left corner with a 3 by 5 block
font.

Two modules, one per part of `stackers.py`:

- `stacker.dfy`, module `Stacker`: the frame step. The script's globals
  (`cube_positions`, `current_layer`, `space_pressed`, `game_over`, `fall_y`)
  are the fields of the class `StackerGame`. Its `Step` method does what one
  pass of the frame loop does to them: the drop branch, then the latch release,
  then the fall step with its reset. The same frame is also written on values
  (datatype `Game` and functions `HandleKey`, `Fall`, `Next`, `Run`). `Step` and
  `Play` are proved to agree with those functions. The game's properties are
  lemmas about `Next` and `Run`.
- `hud.dfy`, module `Hud`: the score overlay as pure functions. The score is
  clamped at zero and written in decimal. Each character gets a glyph from the
  table, with `'0'` as the fallback. Every lit bit becomes one cell centre
  `(20 + 22*k + 6*col, 572 - 8*row)`, in the order of the script's three nested
  loops.

Inputs that the script reads from the platform are parameters of the model:

- `activeX` is the swinging cube's position in that frame.
- `keyDown` says whether the space key is down.

Positions and `fall_y` are real numbers.

Three details of the script that the model keeps:

- The drop branch is not guarded by `game_over`. A press during the fall
  animation can still place a cube or set `game_over` again.
- The first cube is placed at `current_layer`, which is 0 in every reachable
  state with an empty tower.
- The reset leaves the key latch `space_pressed` as it is.

## Model

| member | source | states |
|---|---|---|
| `Stacker.StackerGame.constructor` | stackers.py:100-110 | The game starts with an empty tower, layer 0, the latch open, no game over and a fall offset of 0. This start state satisfies the invariant. |
| `Stacker.StackerGame.Step` | stackers.py:222-255 | One frame updates the fields exactly as `Next` does: drop handling, then the latch release, then the fall step and reset. The frame keeps the invariant. |
| `Stacker.StackerGame.Play` | stackers.py:166-255 | Running the frame loop over a sequence of inputs leaves the fields at `Run` of the inputs. If the invariant held before the loop, it holds after it. |
| `Stacker.Drop` | stackers.py:225-234 | The drop never touches the latch or the fall offset. It keeps every earlier cube and adds exactly one cube unless the drop is a miss. Afterwards the game is over iff it already was or the drop missed. |
| `Stacker.HandleKey` | stackers.py:222-237 | After drop handling and latch release, the latch equals the key state and the fall offset is unchanged. A frame whose key does not fire changes neither the tower, the layer nor the game-over flag. |
| `Stacker.Fall` | stackers.py:242-255 | While playing, the fall step changes nothing. During the fall, the game stays over iff `fall_y - 0.1 >= -5`, and then `fall_y` drops by 0.1 with the tower and the layer kept. Otherwise the reset empties the tower and sets the layer and `fall_y` to 0. The latch is never touched. |
| `Stacker.Next` | stackers.py:222-255 | After one frame the latch is set iff the key was down. The tower has either been cleared by the reset, or it kept all its cubes and gained at most one. |
| `Stacker.Run` | stackers.py:166-255 | Over a run of frames the tower grows by at most one cube per frame. The latch ends as the last frame's key left it. |
| `Stacker.ActiveColour` | stackers.py:207-214 | The active cube is yellow iff the tower is empty, and a green cube is never a miss. |
| `Stacker.StartIsValid` | stackers.py:100-110 | The start state satisfies the invariant and has score 0. |
| `Stacker.NextKeepsInv` | stackers.py:222-255 | Every frame preserves four facts: `current_layer == len(cube_positions)`; the cube at index i has layer i; `fall_y` is 0 while playing and in [-5, 0) during the fall; the tower is non-empty during the fall. This includes presses during the fall. |
| `Stacker.FirstDropPlaces` | stackers.py:232-234 | A drop on an empty tower always places the cube at `(active_x, 0)`. The layer becomes 1 and the latch is set. |
| `Stacker.DropOutcome` | stackers.py:225-231 | While playing, with a non-empty tower, a drop misses iff `abs(active_x - previous_x) > cube_width`, so a difference of exactly one cube width is a hit. A miss keeps the tower, the layer and the score, and the fall starts at -0.1. A hit appends `(active_x, current_layer)`, keeps every earlier cube, and adds one to the layer and the score. |
| `Stacker.DropAnyState` | stackers.py:222-231 | In any state with a non-empty tower and an open latch, including a press during the fall animation: a miss sets game over and leaves the tower, the layer and `fall_y` alone. A hit appends `(active_x, current_layer)`, moves up one layer, and leaves `game_over` and `fall_y` as they were. |
| `Stacker.HitDuringFall` | stackers.py:222-250 | A hit while the missed cube is still falling adds a cube and one point to the score, unless that frame's fall step resets the game (`fall_y - 0.1 < -5`). The game stays over, and `fall_y` drops by 0.1 as usual. |
| `Stacker.NoDropNoChange` | stackers.py:222-255 | A frame whose key does not fire leaves the tower and the layer alone. The only exception is the fall animation resetting the game. |
| `Stacker.HeldKeyDropsOnce` | stackers.py:222-237 | Holding the key for any number of frames fires exactly one drop when the latch was open. It fires none when the latch was already set, and the latch stays set. |
| `Stacker.FallFrame` | stackers.py:242-255 | When the game is over after drop handling, the frame lowers `fall_y` by exactly 0.1. The reset fires exactly when the result is below -5. The reset clears the tower, sets the layer and the offset to 0, clears game over, and leaves only the latch untouched. |
| `Stacker.PlayingMeansNoFall` | stackers.py:242-255 | `fall_y` is 0 at the end of every frame that ends with the game not over. |
| `Stacker.IdleFall` | stackers.py:242-255 | During the fall, k key-up frames lower `fall_y` by k times 0.1, clear the latch and change nothing else, as long as the offset stays at or above -5. |
| `Stacker.MissThenReset` | stackers.py:225-255 | After a miss while playing, the next 49 key-up frames keep the game over, the tower and the score. The 50th key-up frame resets the game to the start state. |
| `Stacker.ScoreIsLayer` | stackers.py:259 | The score (`len(cube_positions)`) equals `current_layer` in every reachable state. |
| `Stacker.ColourClassification` | stackers.py:207-214 | The active cube is yellow iff the tower is empty. It is green iff the difference is below half a cube width, and red otherwise. A green cube is always a hit. |
| `Stacker.Scenario` | stackers.py:222-234 | A drop at 2.0 on an empty tower gives `[(2.0, 0)]`. After that, a hit at 2.4 gives two cubes and score 2, and a miss at 3.5 keeps score 1. |
| `Hud.GlyphTable` | stackers.py:123-134 | The font has exactly the ten decimal digits. Each glyph is five rows of three `'0'`/`'1'` characters. |
| `Hud.GlyphFor` | stackers.py:146 | The glyph looked up for any character is well formed. |
| `Hud.DigitUsesOwnGlyph` | stackers.py:146 | A decimal digit is drawn with its own glyph. |
| `Hud.UnknownFallsBack` | stackers.py:146 | A character outside the font gets the glyph of `'0'` and is laid out exactly like `'0'`. |
| `Hud.Clamp` | stackers.py:115 | A negative score is shown as 0. Any other score is shown as it is. |
| `Hud.DecimalString` | stackers.py:122 | The text of the score is non-empty and all digits. It starts with `'0'` only for the score 0, and then it is exactly `"0"`. Reading it back as a decimal number gives the score. |
| `Hud.GlyphsOf` | stackers.py:145-146 | There is one well-formed glyph per character, in order, and it is that character's glyph. |
| `Hud.HudCells` | stackers.py:113-162 | The overlay draws as many cells as there are lit bits, summed over the glyphs of the digits of the clamped score. Which cells they are is `Hud.HudMembers`. |
| `Hud.LayoutHas` | stackers.py:145-153 | Every lit bit (digit position d, row r < 5, column c < 3) has its cell centre in the layout. |
| `Hud.LayoutOnly` | stackers.py:145-153 | Every point in the layout is the centre of some lit bit. |
| `Hud.HudMembers` | stackers.py:145-153 | A point is drawn for a score iff it is `(20 + 22*k + 6*col, 572 - 8*row)` for a lit bit in row `row < 5`, column `col < 3` of the glyph of the k-th digit of the clamped score. |
| `Hud.CellBox` | stackers.py:135-153 | The cells of digit k lie inside `[20 + 22k, 32 + 22k] x [540, 572]`. The cells of neighbouring digits never overlap. |
| `Hud.HudClampedZero` | stackers.py:115-153 | Any score at or below 0 draws what 0 draws: the 12 lit cells of the glyph of `'0'`. |

## Left out

- Window, context and event handling through GLFW; key reading, the window title and buffer swaps. These are platform I/O. The key state is a boolean input of `Step`, and the frame loop runs over a finite list of inputs in `Play` instead of until the window is closed.
- Shader loading and compilation, the cube mesh, its GPU upload and the uniform lookups. These are file I/O and graphics calls with no game behaviour.
- All matrix work: the perspective and orthographic projections, the camera that follows the tower, and the translations and scales of each drawn cube. The draw calls themselves are left out too. The model keeps what decides them: the tower contents, the active-cube colour and the HUD cell centres.
- The swinging motion `sin(time * 2.0) * 3.0`. It depends on the wall clock and on floating-point sine, so `activeX` is an arbitrary real input.
- `fall_y` is a real number, not a double. For the fall that starts at a miss while playing this does not change the frame count. In doubles, 50 subtractions of 0.1 from 0 give -4.999999999999998, which is not below -5. The 51st gives -5.099999999999998. So the script also resets on the 50th key-up frame after the miss, as `Stacker.MissThenReset` states.
- `Stacker.IdleFall`: states the offset after k frames exactly as k times 0.1. The floating-point value can differ in the last bits.
- 64-bit and float ranges: positions and layers are unbounded reals and integers.
- Rounded comparisons: the script compares the double difference `abs(active_x - previous_x)` with `cube_width` for a miss and with `cube_width * 0.5` for the colour. The model compares exact reals. At those boundaries, which `Stacker.DropOutcome` and `Stacker.ColourClassification` state, the rounded result can differ from the exact one. For example, 1.1 - 0.1 rounds to exactly 1.0 in doubles, which is a hit, while the exact difference of those two doubles is slightly above 1, which is a miss in the model.
