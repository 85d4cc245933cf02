# Bézier curve editor — a Dafny model

The program is a small interactive editor for one cubic Bézier curve. The user
left-clicks up to four control points into a fixed store. Once the store is
full, a left click picks up the point under the cursor. Moving the mouse drags
the picked point, and releasing the button drops it. Every frame the editor
draws:

- a red square marker on each stored point;
- once four points are stored, the control edges p0–p1 and p2–p3;
- green markers along the curve at parameters 0, 0.01, 0.02, …

This project models the core of `src/main.c` in Dafny:

- `vectors.dfy` (module `Vectors`): `lerp_f` and the `Vec2` operations.
  Coordinates are exact reals, an idealisation of the source's `float`.
- `bezier.dfy` (module `Bezier`): the cubic sample `abcd` of
  `render_bezier_markers`, built from six nested interpolations. It is proved
  equal to the Bernstein form. It is also proved equal to de Casteljau's
  reduction, which appears here only as a ghost reference definition: the
  program itself evaluates cubics only.
- `colors.dfy` (module `Colors`): the two colours the frame draws with and the
  `HEX_COLOR` byte split.
- `render.dfy` (module `Render`): draw commands, and `render_marker`'s square.
  Also the sampling loop of `render_bezier_markers` and the frame's draw list,
  as a pure function.
- `points.dfy` (module `ControlPoints`): the box test and first-match search of
  `ps_at`.
- `interaction.dfy` (module `Interaction`): the store (`ps`, `ps_count`,
  `ps_selected`) as the class `Editor`. It has one method per mouse event,
  the event-draining loop and the frame's draw pass. `Step` and `Run` give the
  same state machine on values, and every method is proved to perform them.
  The invariant kept is: at most four points, and a selection that is -1 or a
  stored index. A point is only ever selected once the store is full.

The source's cubic at p = 0.5 with control points (0,0), (100,0), (100,100),
(0,100) gives (75, 50), with weights 1/8, 3/8, 3/8, 1/8. `Bezier.SquareMidpoint`
proves this value.

## Model

| member | source | states |
|---|---|---|
| `Vectors.LerpF` | src/main.c:47 | the result is the affine combination (1-p)·a + p·b; it is a at p = 0 and b at p = 1; it is a when a = b |
| `Vectors.LerpFBetween` | src/main.c:47 | for p in [0,1] the result lies between a and b |
| `Vectors.Add` | src/main.c:56 | `vec2_add`: subtracting either summand from the sum gives the other back; adding the origin changes nothing |
| `Vectors.Sub` | src/main.c:57 | `vec2_sub`: the result is the displacement that carries b to a, and it is the origin exactly when a = b |
| `Vectors.Scale` | src/main.c:58 | `vec2_scale`: factor 1 leaves the vector unchanged; factor 0, or the zero vector, gives the origin |
| `Vectors.AddSubInverse` | src/main.c:56-57 | `vec2_sub` undoes `vec2_add`, and the other way round |
| `Vectors.ScaleLinear` | src/main.c:58 | scaling by 1 is the identity, scaling by 0 gives the origin, and scaling distributes over subtraction |
| `Vectors.LerpVec2` | src/main.c:59-61 | `lerp_vec2` is `lerp_f` on each coordinate; it gives a at p = 0 and b at p = 1, and a when a = b |
| `Vectors.LerpVec2Reversed` | src/main.c:59-61 | interpolating from b to a with parameter 1-p lands on the same point as from a to b with p |
| `Bezier.Cubic` | src/main.c:92-97 | the sample `abcd` is a at p = 0 and d at p = 1; if all four control points coincide, it is that point for every p |
| `Bezier.NestedLerpQuadratic` | src/main.c:95-96 | two levels of nested `lerp_f` give the quadratic Bernstein form (1-p)²a + 2(1-p)p·b + p²c |
| `Bezier.NestedLerpCubic` | src/main.c:92-97 | in one coordinate, the three levels give (1-p)³a + 3(1-p)²p·b + 3(1-p)p²·c + p³d |
| `Bezier.CubicIsBernstein` | src/main.c:92-97 | the sample equals the cubic Bernstein combination of the four control points, for every p |
| `Bezier.CubicReversed` | src/main.c:92-97 | reversing the control points and using parameter 1-p gives the same sample |
| `Bezier.LerpVec2Half` | src/main.c:59-61 | at p = 0.5 the interpolation is the midpoint |
| `Bezier.SquareMidpoint` | src/main.c:92-97 | for (0,0), (100,0), (100,100), (0,100) at p = 0.5: ab = (50,0), bc = (100,50), cd = (50,100), abc = (75,25), bcd = (75,75), abcd = (75,50) |
| `Bezier.CubicIsDeCasteljau` | src/main.c:92-97 | the nested interpolation equals de Casteljau's reduction of the four-point sequence |
| `Bezier.DeCasteljauAtZero` | src/main.c:92-97 | the reference reduction, which the cubic equals, starts at the first control point at p = 0, for any number of points |
| `Bezier.DeCasteljauAtOne` | src/main.c:92-97 | the reference reduction ends at the last control point at p = 1, for any number of points |
| `Bezier.DeCasteljauConstant` | src/main.c:92-97 | the reference reduction of control points that all coincide is that point, for every p |
| `Colors.HexColor` | src/main.c:25-27 | each of the four channels is at most 0xFF, and they repack (most significant first) to the original word |
| `Colors.HexColorOfPack` | src/main.c:25-27 | splitting a packed word of byte-sized channels gives those channels back |
| `Colors.DrawColorChannels` | src/main.c:21-27 | `RED_COLOR` splits into (0xFF, 0, 0, 0xFF) and `GREEN_COLOR` into (0x15, 0xFE, 0x15, 0xFF) |
| `Render.RenderMarker` | src/main.c:84-87 | the marker is a filled `MARKER_SIZE` × `MARKER_SIZE` rectangle in the given colour whose centre is the given point |
| `Render.MarkerCovers` | src/main.c:84-87 | a point lies in the marker square at q exactly when it is within 5 of q on both axes, bounds included |
| `Render.SampleCountBound` | src/main.c:91 | pass k of `for (p = 0; p <= 1; p += s)` runs exactly when k·s ≤ 1 (exact arithmetic) |
| `Render.BezierMarkers` | src/main.c:89-100 | the markers drawn by `render_bezier_markers`: one per pass of the loop, in the given colour, the first centred on a |
| `Render.RenderBezierMarkers` | src/main.c:89-100 | the loop emits, in order, one marker at the cubic sample for each parameter 0, s, 2s, … that is at most 1 |
| `Render.BezierMarkersSpan` | src/main.c:89-100 | every sampled parameter lies in [0,1]; the first marker sits on a; the last parameter is within one step of 1 |
| `Render.CurveStepMarkers` | src/main.c:89-100 | with the frame's step of 0.01 (line 213) there are 101 markers, the first on a and, in exact arithmetic, the last on d |
| `Render.ControlMarkers` | src/main.c:206-208 | one red marker per stored point, in store order, each centred on its point |
| `Render.FrameCommands` | src/main.c:206-215 | the frame starts with the control markers; with fewer than four points nothing follows; with four, the lines p0–p1 and p2–p3 come next, then the curve markers |
| `Render.FrameShape` | src/main.c:206-215 | a frame draws one red marker per stored point, in order. With fewer than four points it draws nothing else. With four it adds exactly two lines, p0–p1 and p2–p3 (never p1–p2), then 101 green curve markers from p0 to p3 (the last on p3 in exact arithmetic) |
| `ControlPoints.HitBox` | src/main.c:109-115 | the box test holds exactly when the position is within 5 of the point on both axes, closed bounds |
| `ControlPoints.HitBoxIsMarker` | src/main.c:109-115 | the box `ps_at` tests is exactly the idealised real-valued rectangle `render_marker` asks `fill_rect` to fill for that point |
| `ControlPoints.FirstHit` | src/main.c:108-120 | the result is -1 or an index below the count whose box holds the position. No earlier box holds it (first match, not nearest). With -1, no box holds it |
| `ControlPoints.StoredPointIsHit` | src/main.c:108-120 | hit-testing at a stored point's own position finds an index ≥ 0 and no later than that point's |
| `ControlPoints.FirstHitExtend` | src/main.c:108-120 | appending a point never changes an existing hit, and it is found only when nothing earlier matches |
| `Interaction.MousePos` | src/main.c:167-168 | the event's integer mouse coordinates become a point that holds them exactly: each coordinate is an integer-valued real whose floor is the event's coordinate |
| `Interaction.Step` | src/main.c:163-195 | every event keeps the store invariant (at most 4 points; selection -1 or a stored index, and only when full), and the count grows by at most one |
| `Interaction.Run` | src/main.c:140-197 | a batch of events keeps the invariant and never decreases the count |
| `Interaction.ClickAppends` | src/main.c:169-172 | a left click with room appends the click to the stored points, even on top of an existing point. The selection is unchanged, and the hit test then finds the click |
| `Interaction.ClickWhenFull` | src/main.c:173-175 | a left click on a full store moves no point. It selects the first index whose box holds the click, and selects some point exactly when some box holds the click |
| `Interaction.RunCountBounded` | src/main.c:169-172 | over any event sequence the count never exceeds 4, never decreases and grows by at most one per event |
| `Interaction.DragMovesOnlySelected` | src/main.c:188-195 | while a point is selected, motion events change only that slot, to the last motion's position. Count, selection and all other slots stay unchanged |
| `Interaction.FirstClickScenario` | src/main.c:165-172 | from the initial store, a left click at (10,10) stores exactly the point (10,10) and selects nothing |
| `Interaction.Editor.constructor` | src/main.c:104-106 | the initial store has four zero slots, count 0 and selection -1 |
| `Interaction.Editor.At` | src/main.c:108-120 | the scan returns the first stored index whose box holds the position, or -1 |
| `Interaction.Editor.OnButtonDown` | src/main.c:163-178 | a left click with fewer than four points writes the click to slot `ps_count` (the modulo never wraps) and adds exactly one to the count. Other slots and the selection are unchanged. On a full store it changes no slot and sets the selection to `ps_at`. Other buttons change nothing |
| `Interaction.Editor.OnButtonUp` | src/main.c:180-186 | releasing the left button sets the selection to -1; points and count are unchanged; other buttons change nothing |
| `Interaction.Editor.OnMotion` | src/main.c:188-195 | with a selection, exactly the selected slot becomes the mouse position; without one nothing changes |
| `Interaction.Editor.HandleEvent` | src/main.c:141-196 | each event changes the store as `Step` says and keeps the invariant, so the write at line 192 is in bounds; it reports a quit request |
| `Interaction.Editor.PollEvents` | src/main.c:140-197 | draining events applies them in order, as `Run` says; it reports whether any was a quit request |
| `Interaction.Editor.Frame` | src/main.c:206-215 | the frame's draw pass emits exactly `FrameCommands` of the stored points |

## Left out

- The window, renderer and event-queue plumbing is not modelled: initialisation, polling, clearing, presenting, the delay and shutdown (src/main.c:123-132, 199-201, 217-225). Events arrive as a parameter, and draws are abstract commands.
- `check_sdl_code` and `check_sdl_ptr` are not modelled. They only print and terminate the process on a renderer failure.
- Frame timing is not modelled: `t`, the `DELTA_TIME_*` constants and the unused `p = (sin(t)+1)/2`.
- The Up/Down keys drive an unused counter `a`, and key 9 terminates the process. Neither is modelled.
- Interaction.Editor.HandleEvent: a key event leaves the store unchanged, and the model does not capture the counter or the process exit.
- Floating point is not modelled. Coordinates and parameters are exact reals. So `lerp_f` has no rounding.
- Render.RenderBezierMarkers: parameters are exact multiples of the step. In single precision, accumulating `p += 0.01f` a hundred times gives about 0.9999993, still not above 1.0f, so the source also makes 101 passes; but its last parameter falls just short of 1, so its last green marker sits just short of d. The "last marker on d" in Render.CurveStepMarkers and Render.FrameShape holds in exact arithmetic only.
- Render.RenderMarker: the `float` → `int` truncation when `fill_rect` builds an `SDL_Rect` is not modelled. The rectangle keeps real coordinates and is closed on both sides. The pixels actually filled for a marker at integer x run from x-5 to x+4, while `ps_at` also accepts x+5 (src/main.c:114). So ControlPoints.HitBoxIsMarker equates the hit box with the idealised rectangle, not with the filled pixels.
- Render.RenderBezierMarkers requires a positive step. The loop does not end for a step ≤ 0, and the program only ever passes 0.01.
- The background clear colour and the draw-colour calls are not part of the draw list. Only the line and rectangle commands are.
- The program has no N-point evaluator. Generic de Casteljau appears only as a ghost reference to prove the cubic against.
- The program has no adjustable sample step: it is fixed at 0.01.
- The program has no insert that reports an error, and no wrap-around policy once full. Clicks on a full store only select.
- The program does not hit-test before inserting. While fewer than four points are stored, a click always inserts. This is what is modelled.
- `main.c` at the repository root is a bare window loop and is not part of this model.
