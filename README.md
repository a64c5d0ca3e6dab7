# Game of Life engine: a Dafny model

This project models the core of a small Rust Game of Life. On each step a toroidal grid of cells moves to the next generation under Conway's rule. A cell survives with two or three live neighbours, and a cell is born with exactly three.

Cells have three states:
- `Unborn`: never touched;
- `Alive`;
- `Dead`: was alive once.

The model covers these parts of the repository:

- **Two rule engines.** `Gameplay::set_rules` in `gameplay.rs` rewrites the states of a slice of entity rows in place, indexed `[x][y]`. It computes every next state from the grid before the step, and it keeps a cell that was never born `Unborn`. `rule_setter::set_rules` builds a new grid from a grid of states, indexed `[y][x]`, and turns every cell that does not come alive into `Dead`.
  - Both are proved against one reference: the eight Moore neighbours taken modulo the grid's dimensions (module `Grid`).
  - The two engines are proved to agree on which cells are alive.
- **Editing.**
  - A click either toggles a cell once per drag or pastes a pending prefab.
  - Pasting stamps a pattern onto the grid. Cells outside the grid are skipped, and a `Dead` pattern cell never overwrites an `Unborn` one.
  - A resize builds a blank grid of the pending size and pastes the old grid at the centring offset. The old grid is dropped when that offset is negative.
  - One frame of `update`: the drag ends on a left release, Return steps the grid, Space/F1/F2/F10 toggle flags, and a due auto step runs unless Return already stepped.
- **Transpose.** `flip_vector` runs on both sides of save and load. It is proved to be an involution on non-empty rectangular grids, so loading what was saved gives the saved grid back.
- **`Vec2Int`.** i32 vectors with checked component-wise arithmetic and Rust's truncating division.
- **Generational index allocator.** An allocator of reusable slots with a free stack.
- **Input state.** The keyboard and mouse state machines of both `user_input.rs` files. Their shared `record_input` is modelled once, in module `KeyBuffers`.

How the Rust is represented:
- Grids are `seq<seq<State>>`.
- The in-place world `&mut [Vec<Entity>]` is an `array<seq<Entity>>`. Its rows are values, as Rust's owned `Vec`s are.
- `Entity` is a datatype, and `flip_state` returns the updated entity with its new state.
- Objects whose methods update their fields are classes: `Gameplay`, the input structs, the allocator.
- Rust panics are preconditions. Examples: an empty grid or an out-of-range index, i32 overflow in debug builds, a push onto a full `ArrayVec`, and a button slot beyond the five-slot arrays.

## Model

| member | source | states |
|---|---|---|
| Entities.Flipped | src/entity/entity.rs:18-21 | The toggled state is never `Unborn`, and it is `Alive` exactly when the old state was not |
| Entities.Entity.FlipState | src/entity/entity.rs:17-25 | Unborn and Dead become Alive, and Alive becomes Dead; the returned state is the stored one; the position is unchanged |
| Entities.NewEntity | src/entity/entity.rs:10-15 | A new entity sits at the given position and is `Unborn` |
| Entities.FlipTwice | src/entity/entity.rs:17-25 | Two toggles restore an Alive or Dead cell, turn an Unborn one Dead, and keep the position |
| Grid.Reverse | src/ecs/systems/gameplay.rs:366-374 | The reversed move travels the opposite signed distance |
| Grid.ReverseIsInvolution | src/ecs/systems/rule_setter.rs:109-117 | Reversing twice gives the original move |
| Grid.Wrap | src/ecs/systems/gameplay.rs:344-356 | An in-range coordinate stays in range, and `Remain` leaves it unchanged |
| Grid.WrapIsModular | src/ecs/systems/rule_setter.rs:88-100 | For `current < size`, wrap equals `(current + d) % size` and `(current + d + size) % size`, with d in {+1, -1, 0} |
| GameplaySystem.GetEntity | src/ecs/systems/gameplay.rs:308-318 | The probed element is the one at `pos` plus (horizontal delta, reversed vertical delta). x is taken modulo the number of rows and y modulo the first row's length |
| GameplaySystem.EntityIsAlive | src/ecs/systems/gameplay.rs:298-306 | A probe is true exactly when the probed state is `Alive` |
| GameplaySystem.ProbesCoverMoore | src/ecs/systems/gameplay.rs:212-250 | The eight probes reach every non-zero offset in {-1,0,1}², each exactly once |
| GameplaySystem.ReversalOnlyReorders | src/ecs/systems/gameplay.rs:315 | Reading the probes without the vertical reversal gives the same set of offsets, reordered |
| GameplaySystem.ProbeIsLive | src/ecs/systems/gameplay.rs:308-318 | What one probe finds is the reference liveness of the cell at its offset |
| GameplaySystem.ProbeSumCountsProbed | src/ecs/systems/gameplay.rs:210-250 | The first k probes count the live cells at the first k probed offsets |
| GameplaySystem.ProbesCountNeighbours | src/ecs/systems/gameplay.rs:210-250 | All eight probes together count exactly the live Moore neighbours on the torus |
| GameplaySystem.NextState | src/ecs/systems/gameplay.rs:252-266 | Alive stays Alive iff count is 2 or 3; a non-Alive cell becomes Alive iff count is 3. Otherwise Dead stays Dead and Unborn stays Unborn |
| GameplaySystem.GenerationCells | src/ecs/systems/gameplay.rs:205-270 | Every cell of the next generation is the rule applied to its old state and its live-neighbour count on the old grid |
| GameplaySystem.CountLiveNeighbours | src/ecs/systems/gameplay.rs:210-250 | The eight checks, in source order, give exactly the reference neighbour count |
| GameplaySystem.NextRow | src/ecs/systems/gameplay.rs:207-268 | One scratch row holds the next state of every cell of row x, in order |
| GameplaySystem.NextStates | src/ecs/systems/gameplay.rs:205-270 | The scratch grid `ret` is the next generation of the grid's states before any write |
| GameplaySystem.WriteStates | src/ecs/systems/gameplay.rs:272-276 | After the write-back the states are `ret`; shape and positions are unchanged |
| GameplaySystem.SetRules | src/ecs/systems/gameplay.rs:204-277 | The new states are the next generation of the old states; shape and positions are unchanged |
| GameplaySystem.Merge | src/ecs/systems/gameplay.rs:289-293 | A pasted cell is Alive iff the pattern cell is; it is Unborn iff the pattern cell is Unborn, or it was Unborn and the pattern cell is Dead |
| GameplaySystem.PasteCells | src/ecs/systems/gameplay.rs:279-296 | Cells under the pattern and inside the grid take the merged value; every other cell is unchanged; layout is unchanged |
| GameplaySystem.PasteIdempotent | src/ecs/systems/gameplay.rs:279-296 | Pasting the same pattern at the same place twice equals pasting it once |
| GameplaySystem.PasteOntoItself | src/ecs/systems/gameplay.rs:279-296 | Pasting a grid onto itself at the origin changes nothing |
| GameplaySystem.PasteIsDeterministic | src/ecs/systems/gameplay.rs:279-296 | The pasted grid is determined by the grid, the offset and the pattern |
| GameplaySystem.CreateGameWorld | src/ecs/systems/gameplay.rs:320-330 | `size.x` rows of `size.y` entities; entity (i, j) sits at (i, j) and is Unborn |
| GameplaySystem.ToPureStates | src/ecs/systems/gameplay.rs:332-342 | The result is the grid of states of the entities, in the same layout |
| GameplaySystem.CenterComponent | src/ecs/systems/gameplay.rs:134-135 | The offset is `next/2 - old/2` truncated toward zero. It is ≥ 0 exactly when the axis shrinks by at most one cell |
| GameplaySystem.GrowingCentres | src/ecs/systems/gameplay.rs:134-135 | Growing an axis by 2k cells places the old content k cells in |
| GameplaySystem.ResizedWorld | src/ecs/systems/gameplay.rs:131-145 | A fresh grid of the next size holding the old states pasted at the centring offset, or all Unborn when either component is negative |
| GameplaySystem.PasteUnlessNegative | src/ecs/systems/gameplay.rs:137-145 | A non-negative offset pastes the pattern there; a negative component returns the grid unchanged |
| GameplaySystem.AdvanceGrid | src/ecs/systems/gameplay.rs:162-201 | Return or a due auto step advances the grid exactly one generation; with neither key nor a due step the grid is unchanged |
| GameplaySystem.Gameplay.constructor | src/ecs/systems/gameplay.rs:35-61 | The initial settings: not auto stepping, playing, UI, instructions, debug and play control shown, settings hidden, no prefab or size pending, nothing pressed, no flags |
| GameplaySystem.Gameplay.NextGameSize | src/ecs/systems/gameplay.rs:67-72 | The pending size if there is one, else the current size |
| GameplaySystem.Gameplay.SetNextGameSize | src/ecs/systems/gameplay.rs:74-76 | The size becomes pending, and nothing else changes |
| GameplaySystem.Gameplay.ResizeThisFrame | src/ecs/systems/gameplay.rs:78-80 | RESIZE is raised, and nothing else changes |
| GameplaySystem.Gameplay.Select | src/ecs/systems/gameplay.rs:82-126 | A pending prefab in the catalogue is pasted at the click, is cleared, and the click is recorded. Otherwise a click not yet in `coords_pressed` toggles exactly that cell and is recorded. A click already recorded changes nothing |
| GameplaySystem.Gameplay.NewSize | src/ecs/systems/gameplay.rs:128-155 | With RESIZE set and a pending size: the resized world; `game_size` becomes the next size and RESIZE is cleared. Otherwise None, and nothing changes |
| GameplaySystem.Gameplay.Update | src/ecs/systems/gameplay.rs:157-202 | A left release empties `coords_pressed`; Space/F1/F2/F10 toggle their flags; the grid advances one generation iff Return is pressed or an auto step is due while playing |
| GameplaySystem.Gameplay.RespondToKeys | src/ecs/systems/gameplay.rs:158-186 | Each key pressed toggles exactly its flag; a left release empties the drag record |
| RuleSetter.GetEntity | src/ecs/systems/rule_setter.rs:76-86 | The probed state is at row y plus the reversed vertical delta, taken modulo the number of rows, and column x plus the horizontal delta, taken modulo the first row's length |
| RuleSetter.EntityIsAlive | src/ecs/systems/rule_setter.rs:66-74 | A probe is true exactly when the reference cell at its offset is alive |
| RuleSetter.ProbesCoverMoore | src/ecs/systems/rule_setter.rs:12-50 | The eight probes reach every Moore offset exactly once |
| RuleSetter.ProbesCountNeighbours | src/ecs/systems/rule_setter.rs:10-50 | The eight probes count exactly the live Moore neighbours on the torus |
| RuleSetter.RuleNext | src/ecs/systems/rule_setter.rs:52-59 | Alive stays Alive iff count is 2 or 3; a non-Alive cell becomes Alive iff count is 3; the result is never Unborn |
| RuleSetter.CountLiveNeighbours | src/ecs/systems/rule_setter.rs:10-50 | The eight checks give exactly the reference neighbour count |
| RuleSetter.NextRow | src/ecs/systems/rule_setter.rs:7-61 | Row y of the result has row y's length, and each cell is the rule applied to the input cell and its count |
| RuleSetter.SetRules | src/ecs/systems/rule_setter.rs:4-64 | The result has the input's rows and row lengths, and every cell is stepped by the rule; the input is a value and is not changed |
| RuleSetter.StepShape | src/ecs/systems/rule_setter.rs:52-63 | A step keeps the shape and never yields Unborn |
| RuleSetter.EnginesAgree | src/ecs/systems/rule_setter.rs:52-58 | On the same rectangular grid both engines have the same Alive cells. Where they differ, this engine has Dead and `Gameplay::set_rules` has Unborn |
| Serialization.TransposedCells | src/ecs/systems/simple_serialization.rs:21-39 | The transpose has `original[0].len()` rows of `original.len()` cells. Cell [y][x] comes from `original[x][y]`, or is Dead where row x is shorter |
| Serialization.TransposeTwice | src/ecs/systems/simple_serialization.rs:21-39 | On a non-empty rectangular grid the transpose can itself be flipped, and flipping twice gives the grid back |
| Serialization.DeadFilled | src/ecs/systems/simple_serialization.rs:24-30 | The pre-filled grid has the requested shape, with every cell Dead |
| Serialization.FlipVector | src/ecs/systems/simple_serialization.rs:21-39 | The nested copy loops produce exactly the transpose |
| Serialization.Save | src/ecs/systems/simple_serialization.rs:6-11 | What is written is the transpose of the data; for a rectangular grid, flipping it back gives the data |
| Serialization.Load | src/ecs/systems/simple_serialization.rs:13-19 | The loaded grid is the transpose of the parsed one, so loading what was saved returns the saved grid |
| Vec2Ints.IntoRawUsize | src/utilities/vec2_int.rs:37-43 | Err (with its message) iff a component is negative, otherwise both components unchanged |
| Vec2Ints.ToBits | src/utilities/vec2_int.rs:46-48 | For non-negative components, two u32 values equal to them |
| Vec2Ints.Clamped | src/utilities/vec2_int.rs:50-53 | With min ≤ max, each component lies in [min, max]. An in-range component is kept, one below min becomes min, and one above max becomes max (also when min > max) |
| Vec2Ints.ClampIdempotent | src/utilities/vec2_int.rs:50-53 | Clamping twice equals clamping once |
| Vec2Ints.ClampComponents | src/utilities/vec2_int.rs:50-53 | The receiver becomes its clamped value, in [min, max] when min ≤ max |
| Vec2Ints.Add | src/utilities/vec2_int.rs:76-85 | Component-wise sum, when it fits in i32 |
| Vec2Ints.Sub | src/utilities/vec2_int.rs:94-103 | Component-wise difference, when it fits in i32 |
| Vec2Ints.Mul | src/utilities/vec2_int.rs:130-139 | Each component multiplied by the scalar, when it fits in i32 |
| Vec2Ints.AddThenSub | src/utilities/vec2_int.rs:76-103 | `(a + b) - b == a` whenever `a + b` does not overflow |
| Vec2Ints.TruncDiv | src/utilities/vec2_int.rs:117-118 | Rust's `/`: the remainder has the dividend's sign and is smaller than the divisor in magnitude; the quotient is no larger than the dividend in magnitude |
| Vec2Ints.Div | src/utilities/vec2_int.rs:112-121 | Each component divided by a non-zero scalar, truncating toward zero; `i32::MIN / -1` is excluded |
| Vec2Ints.DivFits | src/utilities/vec2_int.rs:112-121 | The truncated quotient fits in i32 except for `i32::MIN / -1` |
| Vec2Ints.AddAssign | src/utilities/vec2_int.rs:87-92 | The receiver becomes `self + rhs` |
| Vec2Ints.SubAssign | src/utilities/vec2_int.rs:105-110 | The receiver becomes `self - rhs` |
| Vec2Ints.DivAssign | src/utilities/vec2_int.rs:123-128 | The receiver becomes `self / rhs` |
| Vec2Ints.MulAssign | src/utilities/vec2_int.rs:141-146 | The receiver becomes `self * rhs` |
| Vec2Ints.FromArray | src/utilities/vec2_int.rs:148-152 | x from `w[0]`, y from `w[1]` |
| Vec2Ints.ToArray | src/utilities/vec2_int.rs:154-158 | `[x, y]` |
| Vec2Ints.ArrayRoundTrip | src/utilities/vec2_int.rs:148-158 | Converting to `[i32; 2]` and back, or the other way round, is the identity |
| KeyBuffers.IndexOf | src/components/user_input.rs:185 | The position of the first occurrence of the key |
| KeyBuffers.RemoveAt | src/components/user_input.rs:186 | The buffer without that element, the rest kept in order |
| KeyBuffers.Recorded | src/components/user_input.rs:167-191 | A press of a key neither pressed last frame nor held is appended to pressed and held, and any other press changes nothing. A release of a held key removes its first occurrence from held and appends it to released, and any other release changes nothing |
| KeyBuffers.RecordKeepsHeldUnique | src/components/user_input.rs:176-179 | `held_keys` never gains a duplicate |
| KeyBuffers.ReleaseEndsHold | src/ecs/systems/user_input.rs:160-165 | After a release the key is no longer held |
| KeyBuffers.PressLeavesHeldOrRepeat | src/ecs/systems/user_input.rs:150-158 | After any press the key is held, or else it was pressed last frame |
| ComponentsUserInput.ButtonIndex | src/components/user_input.rs:249-258 | Left, Right, Middle map to 0, 1, 2, and `Generic(i)` maps to i |
| ComponentsUserInput.NamedButtonsAreDistinct | src/components/user_input.rs:249-258 | The named buttons use three different slots, all inside the five-slot arrays |
| ComponentsUserInput.MouseInput.constructor | src/components/user_input.rs:194-203 | Nothing pressed, held or released; input not taken |
| ComponentsUserInput.MouseInput.MouseDeltaPosition | src/components/user_input.rs:236-238 | The cursor's movement since the last frame |
| ComponentsUserInput.MouseInput.Clear | src/components/user_input.rs:206-216 | Pressed and released slots reset; held kept; zero movement and scroll; input not taken |
| ComponentsUserInput.MouseInput.PressButton | src/components/user_input.rs:74-85 | Sets pressed and held for the button only if it was not pressed last frame; otherwise nothing changes |
| ComponentsUserInput.MouseInput.ReleaseButton | src/components/user_input.rs:96-108 | If the button was pressed or held, clears both and sets released; otherwise nothing changes |
| ComponentsUserInput.MouseInput.IsPressed | src/components/user_input.rs:219-222 | False while the input is taken; otherwise the button's pressed slot |
| ComponentsUserInput.MouseInput.IsHeld | src/components/user_input.rs:225-228 | False while the input is taken; otherwise the button's held slot |
| ComponentsUserInput.MouseInput.IsReleased | src/components/user_input.rs:231-234 | True while the input is taken; otherwise the button's released slot |
| ComponentsUserInput.TakenInputReadsReleased | src/components/user_input.rs:218-234 | While input is taken, every button queries as not pressed, not held, and released |
| ComponentsUserInput.ReleasedButtonReads | src/components/user_input.rs:218-234 | A released button queries as released and neither pressed nor held |
| ComponentsUserInput.KeyboardInput.constructor | src/components/user_input.rs:260-266 | All buffers empty |
| ComponentsUserInput.KeyboardInput.Clear | src/components/user_input.rs:275-279 | Pressed, released and typed characters emptied; held kept |
| ComponentsUserInput.KeyboardInput.ReceiveCharacter | src/components/user_input.rs:147-154 | A typed character is queued unless it is backspace or delete; the key buffers are unchanged |
| ComponentsUserInput.KeyboardInput.IsPressed | src/components/user_input.rs:282-284 | True iff the key occurs somewhere in the pressed buffer |
| ComponentsUserInput.KeyboardInput.IsHeld | src/components/user_input.rs:287-289 | True iff the key occurs somewhere in the held buffer |
| ComponentsUserInput.KeyboardInput.IsReleased | src/components/user_input.rs:292-294 | True iff the key occurs somewhere in the released buffer |
| ComponentsUserInput.HeldKeyOccursOnce | src/components/user_input.rs:176-189 | In a valid keyboard state a key is held iff it occurs exactly once in the held buffer |
| ComponentsUserInput.ClearedKeyboardReads | src/components/user_input.rs:275-294 | After a clear, no key queries as pressed or released, and a key queries as held iff it is still in the held buffer |
| ComponentsUserInput.UserInput.constructor | src/components/user_input.rs:17-24 | No end request, no new frame size, default devices |
| ComponentsUserInput.UserInput.ClearInput | src/components/user_input.rs:160-165 | Window requests are forgotten and both devices are cleared as above. The cursor position is kept and becomes the last frame's position |
| ComponentsUserInput.UserInput.RecordInput | src/components/user_input.rs:167-191 | The key buffers become `Recorded(..)` of the old ones, with no duplicate in held |
| SystemsUserInput.MouseInput.constructor | src/ecs/systems/user_input.rs:170-177 | No flag set, zero scroll |
| SystemsUserInput.MouseInput.Clear | src/ecs/systems/user_input.rs:180-185 | Pressed, held and released all reset, scroll zeroed, position kept |
| SystemsUserInput.MouseInput.PressLeft | src/ecs/systems/user_input.rs:74-77 | Sets pressed and held only when the button was not pressed last frame |
| SystemsUserInput.MouseInput.ReleaseLeft | src/ecs/systems/user_input.rs:107-112 | Registers a release only for a pressed or held button |
| SystemsUserInput.ReleaseInLaterFrameIsLost | src/ecs/systems/user_input.rs:180-185 | From any mouse state, a release after a frame's clear is not registered, because the clear dropped the hold |
| SystemsUserInput.ReleaseInSameFrameRegisters | src/ecs/systems/user_input.rs:107-112 | From any mouse state, a fresh press then a release within one frame registers both; the button ends released and neither pressed nor held |
| SystemsUserInput.KeyboardInput.constructor | src/ecs/systems/user_input.rs:188-193 | All buffers empty |
| SystemsUserInput.KeyboardInput.Clear | src/ecs/systems/user_input.rs:196-199 | Pressed and released emptied; held kept |
| SystemsUserInput.UserInput.constructor | src/ecs/systems/user_input.rs:17-24 | No end request, no new frame size |
| SystemsUserInput.UserInput.ClearInput | src/ecs/systems/user_input.rs:136-141 | Requests forgotten, mouse flags reset, scroll zeroed, cursor position kept, keyboard cleared with held kept |
| SystemsUserInput.UserInput.RecordInput | src/ecs/systems/user_input.rs:143-167 | The key buffers become `Recorded(..)` of the old ones, with no duplicate in held |
| GenerationalIndices.AllocatorEntry.Update | src/entity/generational_index.rs:12-16 | The slot becomes live with its generation plus one, which is returned |
| GenerationalIndices.GenerationalIndexAllocator.constructor | src/entity/generational_index.rs:19-22 | The model's starting state (the source declares the struct but no constructor): no slots, empty free stack, invariant holds |
| GenerationalIndices.GenerationalIndexAllocator.IsLive | src/entity/generational_index.rs:63-65 | Under the invariant, a slot is live iff it is not on the free stack |
| GenerationalIndices.GenerationalIndexAllocator.Allocate | src/entity/generational_index.rs:25-47 | With an empty free stack: a new live slot at the old length, generation 0, earlier slots unchanged. Otherwise: the last freed slot is popped and becomes live with its generation plus one. The handle is live; the invariant holds; no generation decreases |
| GenerationalIndices.GenerationalIndexAllocator.Deallocate | src/entity/generational_index.rs:49-61 | A live slot becomes not live, is pushed on the free stack, and true is returned. A slot that is not live returns false and nothing changes. The invariant holds |
| GenerationalIndices.GenerationalIndexAllocator.DeallocateAsWritten | src/entity/generational_index.rs:51-60 | Line 52 as written: the entries are unchanged, yet a live slot's index is pushed and true is returned |
| GenerationalIndices.AsWrittenBreaksFreeList | src/entity/generational_index.rs:52-57 | After the as-written release of a live slot, the free stack holds a live slot, so the invariant fails |
| GenerationalIndices.AsWrittenCounterexample | src/entity/generational_index.rs:52-57 | One live slot, released once as written, breaks the invariant |

## Left out

- Rendering, audio, windowing, the event loop and the main loop are not modelled. This includes the `play_sound` calls in `select` and `update`, and the `println!` in `select`.
- Event polling: `poll_events_loop` is not modelled. Only its handler bodies are, as methods. The cursor-move, scroll, close and resize handlers are plain field stores and are not modelled, and neither is the `metal` feature gate.
- Floating point: entity and mouse positions are `real` values that are only stored. `MouseDeltaPosition` is exact real subtraction.
- `Gameplay` sizes: `game_size` and `next_game_size` are f32 `Vec2` in the source and `Vec2Int` here. The `into()` conversions between them are taken as exact. So are the `size.x as i32` casts in `create_game_world`.
- GameplaySystem.CenterComponent: computes `next/2 - old/2` in exact arithmetic, not in f32 rounding. The two agree for sizes whose halves f32 represents exactly (|size| < 2^24).
- The auto-step timer: `current_time`, `increment_rate` and `delta_time` are replaced by the boolean `tickElapsed`, meaning the interval has elapsed. Resetting `current_time` is not modelled.
- The F3 branch of `update` is not modelled. It saves the grid to `okay.json` with file and JSON I/O.
- GameplaySystem.Gameplay.Update: takes the `UserInput` of src/components/user_input.rs, the only one with the `is_pressed`/`is_released` queries `update` calls. gameplay.rs imports the one of src/ecs/systems/user_input.rs, which has no such queries, and src/main.rs compiles neither src/components nor src/entity.
- GameplaySystem.Gameplay.Update: runs the flag toggles before the grid steps, while the source interleaves them. The two touch disjoint state, and the auto-step check reads `playing` after the Space toggle in both.
- The JSON encoding and the file access in `save`/`load` are not modelled, nor are their error variants. `Save` and `Load` are the transposes they apply.
- Serialization.DeadFilled: `Vec::with_capacity(n)` is taken to have capacity exactly n. Rust only promises at least n.
- The prefab catalogue is a parameter of the `Gameplay` constructor; `Prefabs::new` reads it from files. Colours (`GameColors`) are not modelled.
- The `game_size()` accessor is not modelled. It returns the `gameSize` field.
- Vec2Ints.Add: i32 overflow is a precondition (the debug-build panic). The release-build two's-complement wrap-around is not modelled; the same holds for Sub, Mul, Div and the assigning forms.
- Inside `Vec2Int`, `magnitude`, `normalize`, `normalized`, `Display` and `From<Vec2>` are not modelled; all use floats.
- GenerationalIndices.AllocatorEntry.Update: generations are unbounded naturals. A u64 overflow after 2^64 reuses of one slot is not modelled.
- `is_live` and `deallocate` do not compare the handle's generation, as in the source. A stale handle to a reused slot therefore reads, and frees, the new occupant.
- src/ecs/entities/entity.rs (a duplicate of `State`/`Entity`) and src/ecs/systems/prefabs.rs (a table of pattern names) are not part of this model. Only the `Prefab` names are declared.

## Findings

| source | as written | input that shows it | evidently intended | confidence | as-written member | corrected member |
|---|---|---|---|---|---|---|
| src/entity/generational_index.rs:52 | `deallocate` reads the entry into a local and clears `is_live` on that copy. (`AllocatorEntry` is not `Copy`, so the line does not compile as it stands.) Read as a copy, the slot stays live but its index is pushed onto `free`. | One live slot (`entries = [live, gen 0]`, `free = []`), deallocated once: `free = [0]` while slot 0 is still live. A second `deallocate` returns true again and pushes 0 twice. | Clear `is_live` on the stored entry, as the doc comment says ("is now deallocated"), so `free` lists exactly the slots that are not live | not executed | GenerationalIndices.GenerationalIndexAllocator.DeallocateAsWritten, GenerationalIndices.AsWrittenCounterexample | GenerationalIndices.GenerationalIndexAllocator.Deallocate |
