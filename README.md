# Traffic Control in Dafny

Traffic Control is a browser puzzle game. Balls leave launchers and roll along a grid of road tiles. The player clicks switches so that each ball reaches a goal of its colour. The level is lost when a ball runs off the road, crosses a broken road or touches a burning fire. It is won when every ball has been taken by a goal.

This project models the game's simulation and proves properties of it:

- the per-frame ball motion resolver;
- the tile variants and their state machines: road, arrow, switch, goal, launcher, cracked road and fire;
- the level text format and the grid the level manager keeps;
- the game-state machine of the game manager;
- the small libraries the game stands on: tolerant maths, 2D vectors, the ID allocator, the tagging hash map, the layered renderable container and the colour serialiser.

Layout:

- Pure rules are datatypes and functions. Their modules are `GeneralMath`, `Vec2D`, `ColorRGB`, `SwitchRules`, `LauncherRules`, `CrackedRoadRules`, `FireRules`, `BallMotion`, `BallTrajectory`, `GridGeometry`, `GameFlow` and `LevelLegend`.
- Objects the game updates in place are classes with `modifies` frames. These are `IDGenerator`, `HashMap`, `RenderableManager`, and the `Ball`, `LevelObject`, `Level`, `LevelManager` and `GameManager` classes of `Simulation`.
- The source's two globals, the level manager and the game manager, become explicit parameters.

Numbers follow these rules:

- Positions, speeds and times are exact `real`s.
- The tolerance of 0.000001 and the overshoot of 0.001 are exact constants.
- The cell is 48 pixels, and the top band is 64 pixels.
- A ball is 36 pixels across, with radius 18.

Ball motion:

- `Ball.Update` re-invokes itself with the time left after each hit. This recursion has no measure that decreases, so the model splits it in two.
- A resolver step (`BallTrajectory.Advance`) maps a ball and a duration to either a stop or a hop with a leftover time.
- `BallTrajectory.Run` unrolls the steps under a step bound. `FuelSuffices` shows that a larger bound does not change a run that finished.
- The imperative `Ball.Update` is proved to follow that run, against the live grid.

Where the code and its comments disagree, the model follows the code:

- `IDGenerator.GetNumActiveIDs` returns one less than the number of active IDs.
- `HashMap.Remove` leaves the entry under the old tag in the map.
- `HashMap.Clear` leaves the tags on the keys.
- `RemoveBallFromLevel` of a ball that is not in the list removes the last ball (`splice(-1, 1)`).
- A ball's update goes on after its tile has handled the ball, even when a goal removed it or the level failed.
- `LevelManager.Update` walks the ball list by index while a goal may remove a ball from it. The ball after a removed one then waits a frame.
- `GeneralMath.RoundToNearest` is documented as rounding midpoints up, but it rounds them away from zero: RoundToNearest(-3.75, 0.5) is -4, not -3.5.
- A ball's update does not move it exactly speed * dt: every push past a centre or an open edge moves it 0.001 further than the distance it counts.

## Model

| member | source | states |
|---|---|---|
| GameConstants.DirectionCode | Project/js/GameManagement/GameConstants.js:30-33 | each direction has its enum value, one of 0 .. 3 |
| GameConstants.FlavorCode | Project/js/GameManagement/GameConstants.js:36-38 | each flavour has its enum value, one of 0 .. 2 |
| GameConstants.CodesInjective | Project/js/GameManagement/GameConstants.js:30-38 | distinct directions (flavours) have distinct enum values |
| GameConstants.InteractsMeaning | Project/js/GameObjects/LevelObjects/Arrow.js:99 | a tile reacts to a ball exactly when the flavours are equal or one is Purple (only Red against Blue is ignored), symmetrically |
| GeneralMath.Abs | Project/js/Math/GeneralMath.js:34 | Math.abs: non-negative and equal to x or -x |
| GeneralMath.ApproxEqualMeaning | Project/js/Math/GeneralMath.js:32-35 | ApproxEqual holds exactly when b - 0.000001 <= a <= b + 0.000001, and it is symmetric |
| GeneralMath.ApproxOrderMeaning | Project/js/Math/GeneralMath.js:39-49 | ApproxGreaterOrEqual is a >= b - 0.000001, i.e. a >= b or approximately equal; ApproxLessOrEqual is its mirror image |
| GeneralMath.Floor | Project/js/Math/GeneralMath.js:59 | Math.floor: the integer n with n <= x < n + 1 |
| GeneralMath.Ceil | Project/js/Math/GeneralMath.js:57 | Math.ceil: the integer n with x <= n < x + 1 |
| GeneralMath.JsRound | Project/js/Math/GeneralMath.js:55 | Math.round: the integer n with n - 0.5 <= x < n + 0.5 (halves go up) |
| GeneralMath.ApproxFloorBounds | Project/js/Math/GeneralMath.js:53-60 | ApproxFloor(x) is the n with n - 0.000001 <= x < n + 1 - 0.000001: a value just below an integer floors to that integer |
| GeneralMath.FloorUnique | Project/js/Math/GeneralMath.js:59 | an integer between x - 1 and x is Floor(x) |
| GeneralMath.CeilUnique | Project/js/Math/GeneralMath.js:57 | an integer between x and x + 1 is Ceil(x) |
| GeneralMath.ApproxFloorUnique | Project/js/Math/GeneralMath.js:53-60 | ApproxFloor(x) == n if and only if n - 0.000001 <= x < n + 1 - 0.000001 |
| GeneralMath.ApproxFloorOfInteger | Project/js/Math/GeneralMath.js:53-60 | ApproxFloor of an integer is that integer |
| GeneralMath.ApproxFloorOfHalf | Project/js/Math/GeneralMath.js:53-60 | ApproxFloor(n + 0.5) == n, the cell of a cell centre |
| GeneralMath.RoundIsJsRound | Project/js/Math/GeneralMath.js:63-70 | Round duplicates Math.round: within one half of x, and one above the floor exactly when the fraction is at least 0.5 |
| GeneralMath.Trunc | Project/js/Math/GeneralMath.js:76 | the integer part of a quotient towards zero: never larger in magnitude, less than one below it, same sign |
| GeneralMath.JsRemainderBounds | Project/js/Math/GeneralMath.js:76 | JavaScript's % : the remainder is smaller in magnitude than the divisor and takes the dividend's sign |
| GeneralMath.RoundToNearestIsMultiple | Project/js/Math/GeneralMath.js:74-91 | RoundToNearest always returns an integer multiple of the interval |
| GeneralMath.RoundToNearestIsNearest | Project/js/Math/GeneralMath.js:74-91 | for a positive interval the result is within half an interval of x; it moves away from zero when the remainder is at least half the interval and towards zero otherwise |
| GeneralMath.RoundToNearestExample | Project/js/Math/GeneralMath.js:17 | RoundToNearest(3.6, 0.5) == 3.5, the documented example |
| GeneralMath.RoundToNearestNegativeMidpoint | Project/js/Math/GeneralMath.js:74-91 | the negative midpoint -3.75 rounds to -4.0 at interval 0.5, away from zero rather than up as the comment says |
| Vec2D.Vec.Copy | Project/js/Math/Vec2D.js:60-63 | the copy has the same components |
| Vec2D.Vec.Set | Project/js/Math/Vec2D.js:67-71 | the vector after Set has exactly the given components |
| Vec2D.Vec.Div | Project/js/Math/Vec2D.js:238-246 | division by a non-zero scalar is undone by multiplying by it |
| Vec2D.Vec.Negate | Project/js/Math/Vec2D.js:249-252 | the negation added to the vector gives the zero vector |
| Vec2D.Vec.ComponentWiseDivide | Project/js/Math/Vec2D.js:207-216 | with non-zero components in the divisor, multiplying back component-wise restores the vector |
| Vec2D.Vec.MagnitudeSquared | Project/js/Math/Vec2D.js:102-105 | never negative, and the dot product of the vector with itself |
| Vec2D.Vec.GetOrthogonalVector | Project/js/Math/Vec2D.js:116-119 | the result is orthogonal to the vector (dot product zero) |
| Vec2D.Vec.DistanceToPointSquared | Project/js/Math/Vec2D.js:187-190 | the squared length of the difference of the points, never negative |
| Vec2D.ApproxEqualPerComponent | Project/js/Math/Vec2D.js:75-78 | two vectors are approximately equal exactly when both components are, and the relation is symmetric |
| Vec2D.AddSubInverse | Project/js/Math/Vec2D.js:220-229 | adding and subtracting the same vector cancel, in either order |
| Vec2D.NegateInvolution | Project/js/Math/Vec2D.js:249-252 | negating twice gives the vector back |
| Vec2D.AddCommutes | Project/js/Math/Vec2D.js:220-223 | vector addition commutes |
| Vec2D.ComponentWiseOperations | Project/js/Math/Vec2D.js:201-216 | component-wise multiplication and division act on each axis separately |
| Vec2D.OrthogonalTwice | Project/js/Math/Vec2D.js:114-119 | two quarter turns clockwise give the negated vector |
| Vec2D.DistanceSymmetric | Project/js/Math/Vec2D.js:187-190 | the squared distance is the same in both directions |
| Vec2D.InterpolateEnds | Project/js/Math/Vec2D.js:194-197 | interpolation at fraction 0 is the start and at fraction 1 the end |
| Vec2D.InterpolateDistance | Project/js/Math/Vec2D.js:194-197 | the point at fraction t lies t times as far (squared: t * t) from the start as the end does |
| ColorRGB.Color.Copy | Project/js/Rendering/ColorRGB.js:31-34 | the copy has the same components |
| ColorRGB.Color.ToHexString | Project/js/Rendering/ColorRGB.js:37-57 | a string that starts with '#' |
| ColorRGB.Color.ToString | Project/js/Rendering/ColorRGB.js:61-64 | a string in parentheses |
| ColorRGB.HexDigit | Project/js/Rendering/ColorRGB.js:42 | the digit of a value below 16 is a lower-case hex digit |
| ColorRGB.HexDigitsTable | Project/js/Rendering/ColorRGB.js:42 | the digit of d is the d-th character of 0-9 followed by a-f |
| ColorRGB.HexDigitValue | Project/js/Rendering/ColorRGB.js:42 | a character's hex value is below 16, and HexDigit maps it back to the character |
| ColorRGB.HexDigitValueDefined | Project/js/Rendering/ColorRGB.js:42 | a character has a hex value exactly when it is one of the 16 lower-case digits |
| ColorRGB.HexDigitValueInverse | Project/js/Rendering/ColorRGB.js:42 | reading the digit of d gives d |
| ColorRGB.NatToHex | Project/js/Rendering/ColorRGB.js:44 | Number.toString(16) of a natural number: at least one character, all hex digits |
| ColorRGB.NatToHexRoundTrip | Project/js/Rendering/ColorRGB.js:44 | reading back the hex string of n gives n |
| ColorRGB.HexComponentOfByte | Project/js/Rendering/ColorRGB.js:41-44 | a byte's component is exactly two digits, high nibble first |
| ColorRGB.HexComponentShape | Project/js/Rendering/ColorRGB.js:41-44 | a value below 16 gets a leading '0'; 16 and above are their plain hex string |
| ColorRGB.ParseHexString | Project/js/Rendering/ColorRGB.js:37-57 | the reading of a #rrggbb string, when it succeeds, is a colour with components in 0 .. 255 |
| ColorRGB.HexValueOfPair | Project/js/Rendering/ColorRGB.js:41-54 | two characters read as 16 * high + low when both are hex digits, and fail otherwise |
| ColorRGB.HexPairBound | Project/js/Rendering/ColorRGB.js:41-54 | a two-digit hex value is below 256 |
| ColorRGB.HexPairValue | Project/js/Rendering/ColorRGB.js:41-54 | a byte's two-digit component reads back as the byte |
| ColorRGB.HashThenPairs | Project/js/Rendering/ColorRGB.js:56 | '#' followed by three pairs has them at positions 1-2, 3-4 and 5-6 |
| ColorRGB.ToHexStringRoundTrip | Project/js/Rendering/ColorRGB.js:37-57 | for components in 0 .. 255 the hex string has seven characters, six hex digits after '#', and parses back to the colour |
| ColorRGB.NatToDecimal | Project/js/Rendering/ColorRGB.js:63 | the decimal form of a natural number is non-empty and all digits |
| ColorRGB.NatToDecimalRoundTrip | Project/js/Rendering/ColorRGB.js:63 | reading back the decimal form of n gives n |
| ColorRGB.ToStringLayout | Project/js/Rendering/ColorRGB.js:61-64 | for any non-negative components, the text form is "(r, g, b)" with each component's decimal form, each reading back to the component |
| ColorRGB.CopyEqual | Project/js/Rendering/ColorRGB.js:31-34 | a copy equals the colour and so serialises the same |
| JsArray.IndexOf | Project/js/LevelHandling/LevelManager.js:197 | Array.indexOf: -1 exactly when the element is absent, otherwise the index of its first occurrence |
| JsArray.SpliceStart | Project/js/LevelHandling/LevelManager.js:204 | the start index splice uses: a negative index counts from the end, and the result is clamped to the array |
| JsArray.SpliceOneShape | Project/js/LevelHandling/LevelManager.js:204 | splice(index, 1) removes exactly one element for an index inside the array and none past its end, and never adds an element |
| JsArray.RemoveFirstOccurrence | Project/js/LevelHandling/LevelManager.js:197-204 | splicing at indexOf(x) of a present x removes that one occurrence and keeps the rest in order |
| JsArray.RemoveMissingDropsLast | Project/js/LevelHandling/LevelManager.js:197-204 | splicing at indexOf(x) of an absent x, which is -1, removes the last element instead |
| IDGenerator.IDGenerator.constructor | Project/js/System/IDGenerator.js:24-28 | a new generator has greatest ID -1, no recycled IDs and no active IDs |
| IDGenerator.IDGenerator.NextID | Project/js/System/IDGenerator.js:37-47 | the ID GetNewID will hand out: the last recycled one if any, else one past the greatest |
| IDGenerator.IDGenerator.GetNewID | Project/js/System/IDGenerator.js:32-55 | pops a recycled ID or issues greatest + 1, marks it active and the cache dirty; on a well-issued generator the ID was inactive before |
| IDGenerator.IDGenerator.FreeID | Project/js/System/IDGenerator.js:59-65 | marks the ID inactive, pushes it on the recycled list and marks the cache dirty; freeing an active ID keeps the generator well issued |
| IDGenerator.IDGenerator.GetActiveIDs | Project/js/System/IDGenerator.js:81-98 | returns the active IDs from 0 to the greatest, in increasing order, and caches them |
| IDGenerator.IDGenerator.Reset | Project/js/System/IDGenerator.js:109-116 | back to the initial state, with an empty clean cache |
| IDGenerator.IDGenerator.ActiveBelowSpec | Project/js/System/IDGenerator.js:87-91 | the scan below k yields exactly the active IDs below k, strictly increasing |
| IDGenerator.IDGenerator.ActiveIDsSpec | Project/js/System/IDGenerator.js:69-91 | an ID is listed exactly when IsIDActive holds for it, and the list is strictly increasing |
| IDGenerator.IDGenerator.RecycledIffInactive | Project/js/System/IDGenerator.js:59-77 | for a well-issued generator, an issued ID is on the recycled list exactly when it is inactive |
| IDGenerator.IDGenerator.CountBelow | Project/js/System/IDGenerator.js:87-91 | the active and the recycled IDs below k together number k |
| IDGenerator.IDGenerator.NumActiveIsOneShort | Project/js/System/IDGenerator.js:102-105 | GetNumActiveIDs is one less than the number of active IDs, because the greatest ID starts at -1 |
| IDGenerator.DistinctCardinality | Project/js/System/IDGenerator.js:87-91 | a list without repeats has as many distinct elements as entries |
| IDGenerator.IssueOrder | Project/js/System/IDGenerator.js:32-65 | three new IDs are 0, 1, 2; after freeing 1 and 2 the next two are 2 and then 1 (last freed first) |
| IDGenerator.OneIssuedCountsZero | Project/js/System/IDGenerator.js:102-105 | with one ID issued GetNumActiveIDs reports 0 while one ID is active |
| HashMap.Key.constructor | Project/js/System/HashMap.js:33-37 | a new key carries no tag |
| HashMap.HashMap.constructor | Project/js/System/HashMap.js:25-30 | an empty map with a fresh ID generator |
| HashMap.HashMap.Get | Project/js/System/HashMap.js:45-48 | a value is found only through the key's current tag, and an untagged key finds nothing |
| HashMap.HashMap.Insert | Project/js/System/HashMap.js:34-41 | tags the key with the generator's next ID and stores the value under it, so Get finds it; the generator advances as GetNewID does |
| HashMap.HashMap.Remove | Project/js/System/HashMap.js:52-63 | returns whether the key had a tag, removes the tag and frees the ID, but deletes no entry, so the old entry stays in the map |
| HashMap.HashMap.Clear | Project/js/System/HashMap.js:67-76 | empties the map and resets the generator without removing any key's tag |
| HashMap.InsertThenGet | Project/js/System/HashMap.js:34-48 | two keys inserted in turn are tagged 0 and 1 and each finds its own value |
| HashMap.OrphanAfterRemove | Project/js/System/HashMap.js:52-63 | after Remove the entry is still stored under the old tag while the key finds nothing |
| HashMap.OrphanAfterRetag | Project/js/System/HashMap.js:52-63 | removing and reinserting a key gives it a new tag while the orphaned entry remains under the old one |
| HashMap.StaleTagAfterClear | Project/js/System/HashMap.js:67-76 | a key kept from before Clear finds the value of a newly inserted key that was given the same recycled tag |
| RenderableManager.ConcatMembers | Project/js/Rendering/RenderableManager.js:91-95 | an object is visited exactly when it lies in one of the layers |
| RenderableManager.ConcatThree | Project/js/Rendering/RenderableManager.js:91-95 | three layers are visited as the first, then the second, then the third, each in its own order |
| RenderableManager.RenderableManager.RecordedLayer | Project/js/Rendering/RenderableManager.js:56-63 | every layer recorded in the hash is one of the three layers |
| RenderableManager.RenderableManager.constructor | Project/js/Rendering/RenderableManager.js:34-45 | three empty layers and an empty hash |
| RenderableManager.RenderableManager.AddRenderableToLayer | Project/js/Rendering/RenderableManager.js:56-63 | appends the object to its layer; the object is tagged with the generator's next ID and the layer is stored under it, every other entry stays, and the generator pops its recycled list or issues greatest + 1 |
| RenderableManager.RenderableManager.RemoveRenderable | Project/js/Rendering/RenderableManager.js:67-85 | returns whether the object's layer was recorded; if so, splices its first occurrence from that layer, removes its tag and frees that tag in the ID generator (pushed onto the recycled list, marked inactive, the greatest ID kept), and otherwise changes nothing |
| RenderableManager.RenderableManager.RenderAll | Project/js/Rendering/RenderableManager.js:89-96 | visits the layers lowest first and each layer in insertion order |
| RenderableManager.RenderableManager.ClearLayer | Project/js/Rendering/RenderableManager.js:100-109 | empties one layer and untags each of its objects, leaving the hash entries in place; the generator keeps its greatest ID, its recycled list grows by FreedTags of the layer (each object's starting tag at its first occurrence, in layer order), and exactly those tags turn inactive |
| RenderableManager.RenderableManager.ClearAll | Project/js/Rendering/RenderableManager.js:113-121 | empties all three layers and the hash, and resets the ID generator to greatest -1 with nothing recycled and nothing active |
| RenderableManager.FreedTagsStep | Project/js/Rendering/RenderableManager.js:103-104 | one more removal frees the object's tag exactly when the object did not occur earlier in the layer and carried a tag |
| RenderableManager.FreedTagsCover | Project/js/Rendering/RenderableManager.js:103-104 | every object of the layer that carried a tag has that tag among the freed ones |
| RenderableManager.DeactivateMeaning | Project/js/Rendering/RenderableManager.js:103-104 | freeing a list of tags marks exactly those tags inactive and leaves every other generator entry as it was |
| RenderableManager.FreedInactive | Project/js/Rendering/RenderableManager.js:100-109 | after ClearLayer, every object of the layer that carried a tag has that tag inactive in the generator |
| SwitchRules.ConfigurationCode | Project/js/GameObjects/LevelObjects/Switch.js:59-64 | each configuration has its enum value, one of 1 .. 6 |
| SwitchRules.Corner | Project/js/GameObjects/LevelObjects/Switch.js:61-64 | a corner configuration names two different directions |
| SwitchRules.TwoWayFlips | Project/js/GameObjects/LevelObjects/Switch.js:217-227 | a click on a two-way switch always changes its direction, and two clicks restore it |
| SwitchRules.FourWayCycles | Project/js/GameObjects/LevelObjects/Switch.js:228-238 | a four-way switch visits four different directions and is back after four clicks |
| SwitchRules.CornerToggles | Project/js/GameObjects/LevelObjects/Switch.js:239-266 | a corner switch swaps its two directions and leaves any other direction as it is |
| SwitchRules.ClicksPeriodic | Project/js/GameObjects/LevelObjects/Switch.js:215-272 | for every configuration, four more clicks give the same direction |
| TileKinds.TypeCode | Project/js/GameObjects/LevelObjects/LevelObject.js:43-50 | each tile kind has its type enum value, one of 0 .. 7 |
| TileKinds.TypeCodeIdentifiesKind | Project/js/GameObjects/LevelObjects/LevelObject.js:43-50 | two tiles have the same type value exactly when they are the same kind |
| LauncherRules.Initial | Project/js/GameObjects/LevelObjects/Launcher.js:95-96 | a new launcher has all its balls left and its timer at 0 |
| LauncherRules.TickMeaning | Project/js/GameObjects/LevelObjects/Launcher.js:129-156 | the timer always advances by dt; an empty launcher never launches; the first ball goes once the timer reaches the first delay and later ones once it reaches the interval; a launch takes one ball and resets the timer to 0 |
| LauncherRules.TickKeepsBounds | Project/js/GameObjects/LevelObjects/Launcher.js:114-156 | the balls left stay between 0 and the total and drop by one exactly on a launch |
| LauncherRules.RunAccounting | Project/js/GameObjects/LevelObjects/Launcher.js:129-156 | over any run of frames, the balls launched plus the balls left equal the balls left at the start, so no launcher launches more than its total |
| LauncherRules.OneBallExample | Project/js/GameObjects/LevelObjects/Launcher.js:129-156 | a one-ball launcher with delay 1 launches on the frame its timer reaches 1 and never again |
| CrackedRoadRules.StageCode | Project/js/GameObjects/LevelObjects/CrackedRoad.js:64-66 | each break state has its enum value, one of 0 .. 2 |
| CrackedRoadRules.CollideMeaning | Project/js/GameObjects/LevelObjects/CrackedRoad.js:99-110 | a ball on an unbroken road starts it breaking with its timer at 0; on a breaking or broken road it fails the level and changes nothing |
| CrackedRoadRules.TickMeaning | Project/js/GameObjects/LevelObjects/CrackedRoad.js:114-125 | only a breaking road's timer runs, and it becomes broken exactly when the timer reaches 0.5 |
| CrackedRoadRules.NeverBackwards | Project/js/GameObjects/LevelObjects/CrackedRoad.js:99-125 | neither a collision nor a frame moves the break state backwards |
| CrackedRoadRules.RunForwards | Project/js/GameObjects/LevelObjects/CrackedRoad.js:114-125 | over any run of frames the state only advances, a broken road stays as it is, and a breaking road whose frames add up to 0.5 ends broken |
| FireRules.InitialMeaning | Project/js/GameObjects/LevelObjects/Fire.js:73-79 | a new fire is on, with its timer at the offset when one is given that is at most the on duration, and at 0 otherwise |
| FireRules.PhasesStep | Project/js/GameObjects/LevelObjects/Fire.js:139-155 | each re-update drops the termination measure by at least one full on-off cycle |
| FireRules.FlickerSteady | Project/js/GameObjects/LevelObjects/Fire.js:124-128 | a frame that does not reach the end of the current phase only advances the timer |
| FireRules.FlickerFrozen | Project/js/GameObjects/LevelObjects/Fire.js:121-122 | with both durations below 0.1 a frame changes nothing |
| FireRules.FlickerToggledBounds | Project/js/GameObjects/LevelObjects/Fire.js:128-160 | after a frame that ends a phase the timer lies within the duration of the phase the fire ends in |
| FireRules.FlickerKeepsTimerInSpan | Project/js/GameObjects/LevelObjects/Fire.js:118-161 | for non-negative timer and dt, the timer after a frame lies within the current phase's duration |
| FireRules.Unblinking | Project/js/GameObjects/LevelObjects/Fire.js:128-159 | with an off duration of 0, a frame that overshoots the on phase leaves the fire on |
| FireRules.UnblinkingBoundary | Project/js/GameObjects/LevelObjects/Fire.js:148-158 | with an off duration of 0, a frame that ends the on phase exactly turns the fire off with its timer at 0 |
| BallMotion.SizesFromCell | Project/js/GameObjects/Ball.js:63-65 | a ball is 0.75 of a cell wide, its radius half that, which leaves 6 pixels between the ball and a cell edge when centred |
| BallMotion.Reverse | Project/js/GameObjects/Ball.js:178-185 | the opposite direction is a different direction |
| BallMotion.ReverseInvolution | Project/js/GameObjects/Ball.js:178-185 | turning around twice restores the direction |
| BallMotion.MovedAlongAxis | Project/js/GameObjects/Ball.js:227-238 | a move changes one coordinate only (Up is y - m, Down y + m, Left x - m, Right x + m), covers exactly m, is undone by the same move in the reverse direction, and two moves add up |
| BallMotion.Center | Project/js/GameObjects/Ball.js:76-94 | the ball's centre is its upper-left position plus the radius on both axes |
| BallMotion.EdgeIsSixPastCenter | Project/js/GameObjects/Ball.js:101-120 | in every direction the distance to the leading edge is the distance to the centre plus 6 |
| BallMotion.MovingShortensDistances | Project/js/GameObjects/Ball.js:101-120 | moving m in the travel direction shortens both the centre and the edge distance by exactly m |
| BallMotion.ClassifyMeaning | Project/js/GameObjects/Ball.js:121-134 | a sub-step glides when neither event qualifies, hits the centre when the centre qualifies and the edge does not or is not nearer, and hits the edge otherwise |
| BallMotion.CenterAlwaysFirst | Project/js/GameObjects/Ball.js:121-134 | since the edge is 6 beyond the centre, the centre wins whenever it qualifies, and the edge wins only when the centre is already behind the ball |
| BallMotion.QuotientInUnit | Project/js/GameObjects/Ball.js:71-202 | a distance reached within the move is a fraction in (0, 1] of it |
| BallMotion.RemainingBounds | Project/js/GameObjects/Ball.js:71-202 | the time passed on after a hit lies in [0, dt) for positive dt, and at the ball's speed it covers exactly the rest of the move |
| BallMotion.NeighbourBack | Project/js/GameObjects/Ball.js:162-169 | the neighbour cell in the travel direction is a different cell, and its neighbour in the reverse direction is the cell again |
| BallMotion.SubStep.Consumed | Project/js/GameObjects/Ball.js:71-202 | the distance a hit counts as travelled is positive and at most the move |
| BallMotion.GlideMovesFully | Project/js/GameObjects/Ball.js:126-130 | a sub-step that hits nothing moves the whole distance and keeps its direction |
| BallMotion.CenterHitPassesCenter | Project/js/GameObjects/Ball.js:134-137 | a centre hit keeps the direction and leaves the ball 0.001 past the cell centre |
| BallMotion.EdgeHitOutcome | Project/js/GameObjects/Ball.js:171-200 | a blocked edge hit stops the ball exactly at the edge, turned around; an open one leaves it 0.001 past the edge, direction unchanged |
| BallMotion.MovedDistance | Project/js/GameObjects/Ball.js:227-238 | a move of m covers exactly \|m\| along the axes |
| BallMotion.TravelExceedsCharge | Project/js/GameObjects/Ball.js:137-195 | a centre hit and an open edge move the ball 0.001 further than the distance the leftover time is worked out from; a blocked edge moves it exactly that distance |
| BallMotion.GlideDistance | Project/js/GameObjects/Ball.js:126-130 | a glide moves the ball exactly \|speed * dt\| |
| BallMotion.LeftoverShrinks | Project/js/GameObjects/Ball.js:71-202 | after a hit the leftover time is in [0, dt), and it is the time the rest of the move takes |
| BallTrajectory.Deflect | Project/js/GameObjects/LevelObjects/Arrow.js:96-103 | an arrow or switch whose flavour interacts with the ball turns it to the arrow's direction or the switch's current facing; every other tile leaves the direction alone |
| BallTrajectory.StepAccounts | Project/js/GameObjects/Ball.js:71-202 | the hop a hit produces consumes part of the move, and its leftover time covers the rest at the ball's speed |
| BallTrajectory.AdvanceFromFacts | Project/js/GameObjects/Ball.js:71-202 | one resolver step either stops for a reason other than running out of steps, or continues from a hop that starts where the ball was and accounts for the time it used |
| BallTrajectory.AdvanceFacts | Project/js/GameObjects/Ball.js:71-202 | the same for a resolver step that first looks up the ball's cell |
| BallTrajectory.StepInAt | Project/js/GameObjects/Ball.js:87-172 | a sub-step records the time, the move speed * dt, the ball, its cell's centre and whether the neighbour in the travel direction refuses the ball |
| BallTrajectory.SteppingSound | Project/js/GameObjects/Ball.js:71-202 | the resolver step over a board meets the facts above for every ball and duration |
| BallTrajectory.Run | Project/js/GameObjects/Ball.js:71-202 | the resolver recursion, unrolled, takes at most as many hops as the step bound allows |
| BallTrajectory.RunExhausted | Project/js/GameObjects/Ball.js:71-202 | a run that stops for lack of steps has used every one of them |
| BallTrajectory.FuelSuffices | Project/js/GameObjects/Ball.js:71-202 | a run that finishes within its bound is the same run under any larger bound, so the bound does not change the outcome |
| BallTrajectory.RunAccounting | Project/js/GameObjects/Ball.js:71-202 | over a whole Update the distances of the hops plus the leftover time at the ball's speed add up to speed * dt, and the leftover lies in [0, dt] |
| BallTrajectory.AdvanceFromBounded | Project/js/GameObjects/Ball.js:121-201 | one sub-step moves the ball at most the distance it counts plus 0.001, or, when it ends the update, at most \|speed * dt\| (plus 0.001 on an empty cell's centre) |
| BallTrajectory.SteppingBounded | Project/js/GameObjects/Ball.js:121-201 | the resolver step over a board keeps that bound for every ball and duration |
| BallTrajectory.RunDisplacement | Project/js/GameObjects/Ball.js:71-202 | a whole run ends at most \|speed * dt\| from where it started along the axes, plus 0.001 per push past a centre or an open edge |
| BallTrajectory.TrajectoryDisplacement | Project/js/GameObjects/Ball.js:71-202 | the same bound for the Update of a ball on a board |
| BallTrajectory.RunAvoidsCenters | Project/js/GameObjects/Ball.js:133-154 | a run reaches no cell centre exactly when its first sub-step does not and the rest of the run reaches none |
| BallTrajectory.RunFirst | Project/js/GameObjects/Ball.js:148-200 | a run ends where the rest of the run after its first sub-step ends, with the same stop, and reaches no centre exactly when neither part does |
| BallTrajectory.ModelsAt | Project/js/GameObjects/Ball.js:100-121 | a sub-step function that models Advance takes its first sub-step from the cell the pass looked up |
| BallTrajectory.RunChains | Project/js/GameObjects/Ball.js:71-202 | each hop starts where the previous one ended, with the previous leftover time |
| BallTrajectory.OffGridFirst | Project/js/GameObjects/Ball.js:73-84 | a ball whose centre is off the grid stops at once, unmoved, even when dt is 0 |
| BallTrajectory.NoMoveNoChange | Project/js/GameObjects/Ball.js:90-98 | on the grid, a move within 0.000001 of 0 stops with the ball unmoved and no tile touched |
| BallTrajectory.GlideIsExact | Project/js/GameObjects/Ball.js:125-130 | when nothing is hit the ball moves exactly speed * dt in its direction and keeps it |
| BallTrajectory.CenterHitOutcome | Project/js/GameObjects/Ball.js:133-151 | a centre hit moves the ball 0.001 past the centre, stops with the level failed exactly when the cell is empty, and otherwise leaves the ball as the cell's tile deflects it |
| BallTrajectory.EdgeHitBounce | Project/js/GameObjects/Ball.js:157-200 | an edge hit against a refusing neighbour stops the ball exactly at the edge, turned around; an open or empty neighbour lets it 0.001 past, still heading the same way |
| GridGeometry.UpperLeft | Project/js/LevelHandling/LevelManager.js:74-79 | the level is centred horizontally on the canvas and vertically in the part below the 64-pixel top band |
| GridGeometry.GridCoords | Project/js/LevelHandling/LevelManager.js:152-164 | a cell is returned only when it is inside the grid |
| GridGeometry.FloorOfScaled | Project/js/LevelHandling/LevelManager.js:156 | the scaled approximate floor of an offset is n exactly when the offset lies in the n-th cell strip (shifted by the tolerance) |
| GridGeometry.GridCoordsMeaning | Project/js/LevelHandling/LevelManager.js:152-164 | the screen point maps to cell (x, y) exactly when that cell is in the grid and contains the point |
| GridGeometry.GridCoordsOffGrid | Project/js/LevelHandling/LevelManager.js:158-161 | the result is null exactly when no cell of the grid contains the point |
| GridGeometry.CellCenter | Project/js/LevelHandling/LevelManager.js:168-171 | the centre of a cell is the upper-left plus the cell offset plus half a cell on each axis |
| GridGeometry.CellCorner | Project/js/LevelHandling/LevelManager.js:106 | a tile's loaded position is its cell's upper-left pixel, half a cell before the cell centre |
| GridGeometry.CenterRoundTrip | Project/js/LevelHandling/LevelManager.js:152-171 | the centre of an in-grid cell maps back to that cell |
| GameFlow.StateCode | Project/js/GameManagement/GameManager.js:58-61 | each game state has its enum value, one of 0 .. 3 |
| GameFlow.StateCodeInjective | Project/js/GameManagement/GameManager.js:58-61 | distinct game states have distinct enum values |
| GameFlow.NextLevelInRange | Project/js/GameManagement/GameManager.js:152-156 | the level after a won level is the next index, or 0 after the last of the 10 levels |
| GameFlow.AdvancedFromStart | Project/js/GameManagement/GameManager.js:150-159 | after k wins from the first level the game is at level k mod 10 |
| GameFlow.AdvancedSplit | Project/js/GameManagement/GameManager.js:150-159 | n wins that do not pass the last level advance the index by n |
| GameFlow.CatalogueCycles | Project/js/GameManagement/GameManager.js:150-159 | ten wins in a row come back to the level they started from |
| GameFlow.AdvancedFrom | Project/js/GameManagement/GameManager.js:152-154 | the wins up to the end of the catalogue lead back to level 0 |
| GameFlow.AdvancedCompose | Project/js/GameManagement/GameManager.js:150-159 | j wins then k wins are j + k wins |
| GameFlow.ClickMeaning | Project/js/GameManagement/GameManager.js:126-160 | a click loads a level exactly when the level is over: the same level after a failure, the next one after a win; it goes to WAIT_TO_START after a win and to IN_GAME otherwise |
| GameFlow.WinThenStart | Project/js/GameManagement/GameManager.js:141-159 | from a won level two clicks start the next level running without loading another one |
| LevelLegend.Kept | Project/js/LevelHandling/Level.js:73-75 | the characters that fill cells are no more than the string and contain no comma, new line or tab |
| LevelLegend.LegendMeaning | Project/js/LevelHandling/Level.js:87-108 | exactly the six legend characters make a tile: roads, purple arrows and cracked roads |
| LevelLegend.Cell | Project/js/LevelHandling/Level.js:67-83 | the k-th kept character fills the cell whose row-major index is k, in a column inside the width |
| LevelLegend.IndexCell | Project/js/LevelHandling/Level.js:77-83 | the row-major index and the cell of an index are inverse on the grid's columns |
| LevelLegend.CellInjective | Project/js/LevelHandling/Level.js:77-83 | different kept characters fill different cells |
| LevelLegend.CursorStep | Project/js/LevelHandling/Level.js:78-83 | the cursor moves one column right and wraps to column 0 of the next row at the width |
| LevelLegend.PlacedStep | Project/js/LevelHandling/Level.js:77-89 | one more kept character adds exactly its own cell to the filled cells |
| LevelLegend.AssignedStep | Project/js/LevelHandling/Level.js:77-89 | filling the cell of the next kept character adds exactly that cell to the assigned ones and leaves every cell outside the filled ones as it was |
| LevelLegend.FullStringCoversGrid | Project/js/LevelHandling/Level.js:66 | width * height kept characters fill every cell of the grid |
| LevelLegend.KeptStep | Project/js/LevelHandling/Level.js:71-75 | the kept characters grow by one character at a time, skipping the ignored ones |
| Simulation.Ball.constructor | Project/js/GameObjects/Ball.js:39-59 | a new ball has the given position, flavour, speed and direction and no released shape |
| Simulation.Ball.SetPos | Project/js/GameObjects/Ball.js:212-216 | the ball's upper-left corner becomes the given point |
| Simulation.Ball.SetDirection | Project/js/GameObjects/Ball.js:220-223 | the ball heads in the given direction |
| Simulation.Ball.MoveInCurrentDirection | Project/js/GameObjects/Ball.js:227-238 | the ball moves the given distance along its direction of travel, and nothing else changes |
| Simulation.Ball.Free | Project/js/GameObjects/Ball.js:242-245 | the ball's shape is released once more |
| Simulation.Ball.Update | Project/js/GameObjects/Ball.js:71-202 | the ball ends where the trajectory model puts it over the live board, and the board is untouched. A ball that leaves the grid or runs onto an empty cell fails the level. Balls are only ever removed and the ball count never grows. A run that reaches no cell centre changes no crack, ball list, ball count or game state, except that leaving the grid fails the level |
| Simulation.Ball.Roll | Project/js/GameObjects/Ball.js:148-200 | given a sub-step function that models the resolver on the board, the recursive re-entries of Update, one per hit, follow its unrolled run step by step, with the same effects as Update when no centre is reached |
| Simulation.Ball.Step | Project/js/GameObjects/Ball.js:71-202 | one pass of Update looks up the ball's cell and does what the resolver step for that cell says; it goes on with exactly the hop's leftover time when the step continues; a pass that reaches no centre touches nothing but the ball, and the level fails when the ball is off the grid |
| Simulation.Ball.Resolve | Project/js/GameObjects/Ball.js:100-201 | with the cell known and a non-zero move, the pass does what Outcome says for the sub-step and touches nothing but the ball unless it reaches the centre |
| Simulation.Ball.CenterStep | Project/js/GameObjects/Ball.js:133-154 | a centre hit ends the update on an empty cell with the level failed, and otherwise goes on with the leftover time from just past the centre |
| Simulation.Ball.EdgeStep | Project/js/GameObjects/Ball.js:157-201 | an edge hit always goes on, with the hop's position, direction and leftover time |
| Simulation.Ball.HitCenter | Project/js/GameObjects/Ball.js:133-153 | the ball moves 0.001 past the centre. On an empty cell the level fails and nothing else changes. Otherwise the cell's tile turns the ball as Deflect says and has its collision effect (crack, goal splice, ball count, release, failure or win), and every other tile's crack stays |
| Simulation.Ball.HitEdge | Project/js/GameObjects/Ball.js:157-201 | against a neighbour that refuses balls the ball stops at the edge and turns round; otherwise it moves 0.001 past the edge and keeps its direction |
| Simulation.LevelObject.constructor | Project/js/GameObjects/LevelObjects/LevelObject.js:54-59 | a new tile has its kind and position, no level, and the start state its kind's constructor gives the switch facing, the crack, the fire and the launcher |
| Simulation.LevelObject.SetPos | Project/js/GameObjects/LevelObjects/LevelObject.js:69-72 | the tile's position becomes the given point |
| Simulation.LevelObject.SetParentLevel | Project/js/GameObjects/LevelObjects/LevelObject.js:82-85 | the tile belongs to the given level |
| Simulation.LevelObject.CanBallEnter | Project/js/GameObjects/LevelObjects/Launcher.js:160-163 | a tile admits a ball exactly when it is not a launcher |
| Simulation.LevelObject.Free | Project/js/GameObjects/LevelObjects/LevelObject.js:111-112 | the tile's resources are released once more |
| Simulation.LevelObject.OnBallCollision | Project/js/GameObjects/LevelObjects/Goal.js:85-93 | as Arrow.js, Switch.js, Goal.js, CrackedRoad.js and Fire.js handle a ball at the centre: arrows and switches turn an interacting ball, a matching goal removes it and wins once no ball is left, a broken cracked road or a burning fire fail the level, and nothing else changes |
| Simulation.LevelObject.Update | Project/js/GameObjects/LevelObjects/Launcher.js:129-156 | as the tiles' Update methods: a cracked road ticks, a fire flickers, a launcher advances its clock and adds a fresh ball at its cell exactly when a launch is due; other tiles and the ball list are left alone |
| Simulation.LevelObject.Flicker | Project/js/GameObjects/LevelObjects/Fire.js:118-161 | the fire's state after dt is the one the fire rules compute, including the recursive carry-over of long updates |
| Simulation.LevelObject.OnClick | Project/js/GameObjects/LevelObjects/Switch.js:215-272 | a switch turns to the next facing of its configuration; other tiles ignore a click |
| Simulation.Level.constructor | Project/js/LevelHandling/Level.js:46-56 | a new level has its name and size and no assigned cell |
| Simulation.Level.GetLevelObjectAtCoords | Project/js/LevelHandling/Level.js:114-117 | an unassigned cell reads as undefined, an assigned one as the tile or null stored there |
| Simulation.Level.SetLevelObjectAtCoords | Project/js/LevelHandling/Level.js:121-128 | the cell holds the new tile and the tile it held before, if any, is released |
| Simulation.Level.Fill | Project/js/LevelHandling/Level.js:87-108 | the cell gets a fresh tile of the kind the legend gives its character, or null, and no other cell changes |
| Simulation.Level.PlaceNext | Project/js/LevelHandling/Level.js:77-89 | one kept character moves the cursor to the next cell, row by row, and fills that cell; the filled cells grow by exactly that cell |
| Simulation.Level.FillNext | Project/js/LevelHandling/Level.js:87-108 | the next cell gets a fresh tile of the character's legend kind, or null, and the cells filled before are untouched |
| Simulation.Level.SetLevelFromString | Project/js/LevelHandling/Level.js:67-110 | exactly the cells of the first kept characters, row by row, are assigned; the k-th kept character fills cell k with a fresh tile of its legend kind; every other cell keeps what it held |
| Simulation.KeptPrefixBound | Project/js/LevelHandling/Level.js:71-75 | a kept character at position i means fewer kept characters before i than in the whole string |
| Simulation.KeptMonotone | Project/js/LevelHandling/Level.js:71-75 | a prefix never has more kept characters than the whole string |
| Simulation.LaunchPosition | Project/js/GameObjects/LevelObjects/Launcher.js:105 | a launched ball's centre is the centre of the launcher's cell |
| Simulation.LaunchedInLauncherCell | Project/js/GameObjects/LevelObjects/Launcher.js:101-115 | a ball launched from the tile at a cell's corner starts centred on that cell, which the grid lookup finds again |
| Simulation.Nulls | Project/js/LevelHandling/LevelManager.js:83-91 | a fresh grid column holds null in every row |
| Simulation.BoardUnchanged | Project/js/LevelHandling/LevelManager.js:130-148 | when the grid, its placement and every switch facing are unchanged, the board the balls move over is unchanged |
| Simulation.LevelManager.constructor | Project/js/LevelHandling/LevelManager.js:43-56 | a new manager has the canvas size, an empty grid, no balls and zero counts |
| Simulation.LevelManager.Board | Project/js/LevelHandling/LevelManager.js:152-183 | the board the trajectory model reads has the manager's upper-left and grid size |
| Simulation.LevelManager.GetLevelObjectAtGridCoords | Project/js/LevelHandling/LevelManager.js:175-183 | null exactly when the cell is off the grid or empty; otherwise the grid's tile, as the board sees it |
| Simulation.LevelManager.ShowsLoaded | Project/js/LevelHandling/LevelManager.js:60-126 | a grid with the level's size and the level's tiles cell by cell shows that level, and its tiles are the level's |
| Simulation.LevelManager.TileAt | Project/js/LevelHandling/LevelManager.js:152-183 | the tile under a screen point, if there is one, is a tile of the grid |
| Simulation.LevelManager.Clear | Project/js/LevelHandling/LevelManager.js:218-241 | the grid and its sizes are reset, every tile of the old grid and every active ball is released exactly once |
| Simulation.LevelManager.FreeColumn | Project/js/LevelHandling/LevelManager.js:220-227 | every tile of column x is released once and no other tile is touched |
| Simulation.LevelManager.LoadLevel | Project/js/LevelHandling/LevelManager.js:60-126 | the grid has the level's size, is centred on the canvas and holds the level's tiles cell by cell, each placed at its cell's corner and attached to the level; the ball total is the sum of the launchers' totals, all of it left and no ball active |
| Simulation.LevelManager.Resize | Project/js/LevelHandling/LevelManager.js:71-91 | the sizes and upper-left follow the level's size and every column is full of null |
| Simulation.LevelManager.Place | Project/js/LevelHandling/LevelManager.js:95-120 | every cell gets the level's tile, at its cell's corner and attached to the level, and the ball total counts every launcher's balls |
| Simulation.LevelManager.PlaceNextColumn | Project/js/LevelHandling/LevelManager.js:95-120 | one turn of the filling loop keeps its invariant: one more column holds the level's tiles, placed and attached, and its balls are counted |
| Simulation.LevelManager.PlaceColumn | Project/js/LevelHandling/LevelManager.js:98-119 | column x gets the level's tiles, placed and attached, without moving any tile of another column, and adds that column's launcher totals |
| Simulation.LevelManager.PlaceCell | Project/js/LevelHandling/LevelManager.js:101-117 | the cell's tile is placed at the cell's corner and attached to the level, no other tile changes, and a launcher adds its total |
| Simulation.LevelManager.AddBallToLevel | Project/js/LevelHandling/LevelManager.js:187-190 | the ball is appended to the active balls |
| Simulation.LevelManager.RemoveBallFromLevel | Project/js/LevelHandling/LevelManager.js:194-214 | the ball is spliced out where it is found, the balls left drop by one, the ball is released and the level is won once no ball is left |
| Simulation.LevelManager.Update | Project/js/LevelHandling/LevelManager.js:130-148 | the board is unchanged, every tile ran its clock exactly once, and every active ball afterwards was active before or is newly launched |
| Simulation.LevelManager.UpdateTiles | Project/js/LevelHandling/LevelManager.js:133-143 | every tile ticks exactly once and balls are only added |
| Simulation.LevelManager.UpdateColumn | Project/js/LevelHandling/LevelManager.js:135-142 | the tiles of column x tick once, all other tiles stay as they were |
| Simulation.LevelManager.UpdateBalls | Project/js/LevelHandling/LevelManager.js:146-147 | moving the balls only removes balls from the level |
| Simulation.GameManager.constructor | Project/js/GameManagement/GameManager.js:39-54 | the game starts waiting, with no level loaded |
| Simulation.GameManager.OnLevelFailed | Project/js/GameManagement/GameManager.js:111-114 | the game state becomes LEVEL_FAILED |
| Simulation.GameManager.OnLevelWon | Project/js/GameManagement/GameManager.js:118-122 | the game state becomes LEVEL_WON |
| Simulation.GameManager.LoadLevel | Project/js/GameManagement/GameManager.js:100-107 | the manager shows the level and records its index, with every ball left and none active; the game state is untouched |
| Simulation.GameManager.Update | Project/js/GameManagement/GameManager.js:65-76 | the first frame loads level 0; only a running game moves: then the board stays and every tile runs its clock, and otherwise nothing of the level changes |
| Simulation.GameManager.OnClick | Project/js/GameManagement/GameManager.js:126-160 | the new state and the level loaded are those of the click rules; in game, only the switch under the click turns; waiting, no tile changes |

## Left out

- Drawing is not modelled: sprites, shapes, text, every `Render` body and `RenderNonLevelElements`. The same goes for `SetVisible` on fires and cracked roads, and the sprite rotation and scaling in `Switch.SetDirection`. They only issue canvas calls. `RenderableManager.RenderAll` is modelled only as the order it visits renderables in.
- Image pre-loading (`ImageManager.js`) is not modelled. It is asynchronous browser loading with callbacks.
- The game loop and the page are not modelled: the canvas, `setInterval`, `Date.now` and the click listener in `TrafficControl.js`. Frame durations and click points become parameters.
- The loop caps each frame at 0.1 s (TrafficControl.js:72-73). The model needs no such cap, so no `requires` states it.
- Debug alerts (`DebugFunctions.js`) are not modelled. The model behaves as with DEBUG off: an unknown level character gives an empty cell.
- The level catalogue (`LevelCreationFunctions.js`) is not part of this model. It is hard-coded level data. `CreateLevel`'s result is the `level` parameter of `GameManager.LoadLevel`, `Update` and `OnClick`, and the model keeps only the catalogue size, 10.
- The level-name text set at GameManager.js:106 is not modelled.
- In Vec2D, `Magnitude`, `DistanceToPoint`, the three angle functions and `toString` are not modelled. They need square roots and inverse cosines.
- `RoundThis` and `GetRound` are not modelled. Nothing in the core calls them.
- IEEE floating point is not modelled. Exact reals have no rounding error, so a result that depends on a rounding error in the browser is not captured.
- The canvas size is a parameter of the `LevelManager` constructor. In the source it is read from the page.
- `Free` releases renderables and IDs in the source. The model counts the releases in a ghost field instead.
- Fire durations are non-negative (`TileKinds.Duration`). With a negative duration the source's recursion would never end.
- Getters that only return a field are not modelled as members: `GetPos`, `GetParentLevel`, `GetLevelName`, the ball size accessors.
- BallTrajectory.TrajectoryDisplacement: the ball ends within |speed * dt| plus 0.001 per overshoot of its start, not within |speed * dt|. The exact bound does not hold, because a centre hit and an open edge move 0.001 further than they count (Ball.js lines 137 and 195).
- Simulation.Ball.Update: a tile's collision effect is stated per centre hit (`HitCenter`), and for a whole update only when no centre is reached. For an update that reaches centres it states only that balls are dropped, the ball count does not grow, and the leaving-the-grid and empty-centre failures.
- BallTrajectory.Run: the unrolled resolver takes at most a given number of hops. `Ball.Update` uses a bound of 1000 (`MaxSubSteps`). A frame that needs more hits than that stops early, where the source would keep recursing.
- Simulation.LevelManager.Update: states every tile's clock and that only removed or launched balls leave or join the list. It does not state where each ball ended up, which balls were skipped after a removal, or the tiles' crack state after the balls moved.
- Simulation.LevelManager.UpdateBalls: states only that no ball joins the list. The skipping after a removal is in the code, not in the contract.
- Simulation.LevelManager.Clear: states that every tile and ball is released exactly once only when no object sits in two places. The source's grids never share an object.
- Simulation.LevelManager.LoadLevel: states the tiles' loaded positions only when no object sits in two cells of the level.
- Simulation.GameManager.Update: states the tiles' clocks only for frames that load no level, and does not state where the balls went.
