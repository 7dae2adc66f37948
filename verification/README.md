# Models of Eggnogg+ and what is proved about them

This project models, in Dafny, the parts of Eggnogg+ that carry state or arithmetic worth worrying about, and proves
what they are for. Run `dafny verify dfyconfig.toml` in this directory.

How it is organized. Code that changes things step by step is a class or a method with loops; its contract says that
it equals a function of the old state, and the theorems are lemmas about that function. The files:

* `EntityModel`, `EntityStore`, `EntityLaws`, `EntitySnapshot`, `EntityWorld`, `EntityContacts`, `EntitySweep`,
  `EntitySweepLaws`: the entity world, a generational slot allocator with a canonical snapshot, transactional updates, a
  budgeted contact query and a swept collision resolver over the reals.
* `BytebeatProgram`, `BytebeatGrammar`, `BytebeatSoundness`, `BytebeatSyntax`, `BytebeatRoundTrip`, `BytebeatLanguage`,
  `BytebeatPrinter`, `BytebeatCompiler`: the expression compiler and its evaluator, with numbers left uninterpreted. What
  compiles is characterized by concrete syntax trees that hold the writer's blanks, spellings and parentheses.
* `BytebeatStream`, `BytebeatProgress`: the single-producer single-consumer PCM ring as a transition system over single
  loads and stores, what it never does and what it gets done.
* `ContentModel`, `ContentRegistry`, `ContentTiles`, `Animation`: the tile registry, the per-map cache and animation.
* `RoomGeometry`, `RoomBinding`: placed rooms, their rebuild, binding and lookup.
* `RegistryBuffers`: ownership of the map registry's buffers.
* `DiscordFrames`, `CredentialTarget`: two codecs.
* `Common`, `Sorting`: what several of them share.

Some results are about what the code does rather than what one might wish, with the exact condition in each case: a
handle handed out during an update can be handed out again exactly if the update fails
(`EntityLaws.IssuedAgainIffRolledBack`), a body stopped at a solid was really in its way exactly if it did not graze it
(`EntitySweep.WallIsBlocked`, `EntitySweep.FloorIsBlocked`), a body resting on a floor reports it when it started clear
of all solids but not always otherwise (`EntitySweepLaws.RestingIsReported`,
`EntitySweepLaws.PushedOntoFloorIsNotReported`), a push out of a solid mirrors exactly if the body is not halfway between
its walls (`EntitySweepLaws.MirroredPush`), and shutting down frees the pinned map buffer exactly if it is the current one
(`RegistryBuffers.PinFreedExactlyAtShutdown`).

## Model

| member | source | states |
|---|---|---|
| `EntityLaws.EnumerationIsExact` | eggnoggplus-win/entity_world.c:95-102 | walking the world with `next` yields exactly the handles that resolve, once each, in slot order, and `count` is their number |
| `EntityLaws.HandleSafety` | eggnoggplus-win/entity_world.c:68-102 | over any two consecutive runs of spawns, removals, writes, steps and updates no handle is issued twice, everything live was live before or issued, and a dead handle stays dead |
| `EntityLaws.ExhaustedSlotRetires` | eggnoggplus-win/entity_world.c:68-84 | a slot freed at the last 32-bit generation is never active again |
| `EntityLaws.IssuedAgainIffRolledBack` | eggnoggplus-win/entity_world.c:305-334 | the exact limit of handle safety: a handle handed out during an update can be handed out again by some later run if and only if that update failed |
| `EntityLaws.RolledBackHandleIsReissued` | eggnoggplus-win/entity_world.c:305-334 | a shortest such run: what a refused callback spawned, the next spawn gets again |
| `EntityLaws.VisitIsRun` | eggnoggplus-win/entity_world.c:305-334 | whatever the callbacks of an update do to the world is also done by a run of spawns, removals and writes |
| `EntityLaws.UpdateIsTransactional` | eggnoggplus-win/entity_world.c:305-334 | an update succeeds iff every invocation was accepted and the closing step is possible, nothing is called after a refusal, and a failed one restores the whole world; as far as the tour got it called exactly the entry handles that resolved after the invocations before them, in slot order, none born in it; success advances the tick once |
| `EntityLaws.NestedAdvancementAborts` | eggnoggplus-win/entity_world.c:305-334 | a step, load or update inside a callback makes the enclosing update fail and change nothing |
| `EntityLaws.SteppingIsDriftFree` | eggnoggplus-win/entity_world.c:103-131 | over n granted steps position grows by n displacements and 256*tick+subtick by n effective rates, nothing else changes |
| `EntityModel.StepWellFormed` | eggnoggplus-win/entity_world.c:103-131 | a refused step changes nothing, a granted one keeps every bound of a valid value and the set of live handles |
| `EntityModel.LiveCountUpdate` | eggnoggplus-win/entity_world.c:68-84 | activating or clearing a slot changes the number of live handles by exactly one, which is what `count` tracks |
| `EntityStore.WriteStores` | eggnoggplus-win/entity_world.c:90-94 | a write is granted iff the handle is live, the value valid and its type unchanged; then the handle stands for the value and every other handle, slot and counter is as before; otherwise nothing changed |
| `EntityStore.SpawnStores` | eggnoggplus-win/entity_world.c:68-79 | a spawn is granted iff the value is valid and a slot is vacant; it takes the first vacant one, its handle stood for nothing and now stands for the value, and every other handle and slot stays |
| `EntityStore.RemoveClears` | eggnoggplus-win/entity_world.c:80-84 | a removal is granted iff the handle is live; that handle then stands for nothing and its slot is zeroed but for the generation, every other stays |
| `EntityStore.StepIsGrantedIff` | eggnoggplus-win/entity_world.c:103-118 | a step is granted iff the tick can advance and no entity would leave the bounds of position or animation clock |
| `EntityStore.StepsElapse` | eggnoggplus-win/entity_world.c:119-131 | n granted steps in raw fields: position moves by n velocities unless motion is manual, the animation clock by n rates (256 for rate 0) unless paused, nothing else changes |
| `EntitySnapshot.LoadOfSave` | eggnoggplus-win/entity_world.c:145-217 | loading a saved world into any world of the same shape gives the world back, with only the spawned latch set |
| `EntitySnapshot.SaveOfLoad` | eggnoggplus-win/entity_world.c:145-217 | every byte string that validates is reproduced exactly by loading and saving it |
| `EntitySnapshot.AcceptedAreTheSnapshots` | eggnoggplus-win/entity_world.c:181-197 | validation accepts exactly the snapshots of well-formed worlds of the same shape |
| `EntitySnapshot.WordsOfBytes` | eggnoggplus-win/entity_world.c:132-133 | little-endian words written to bytes are read back |
| `EntitySnapshot.BytesOfWords` | eggnoggplus-win/entity_world.c:132-133 | bytes read as little-endian words are written back |
| `EntitySnapshot.HeaderLayout` | eggnoggplus-win/entity_world.c:145-166 | length of a snapshot and its eight header numbers at their byte offsets, YEW1 and version 6 first |
| `EntitySnapshot.SlotLayout` | eggnoggplus-win/entity_world.c:145-166 | every field of a slot at its byte offset, signed ones in two's complement |
| `EntityContacts.TouchesExact` | eggnoggplus-win/entity_world.c:249-300 | the contact list holds exactly the overlapping, mutually masked region pairs, each once, in (slot, slot, region, region) order |
| `EntityContacts.ReflectionKeepsContacts` | eggnoggplus-win/entity_world.c:249-257 | reflecting every entity and toggling its mirror flag reports the same contacts in the same order |
| `EntityContacts.OverlapIffSharedCell` | eggnoggplus-win/entity_world.c:249-257 | two regions overlap iff each names the layer of the other and some cell is covered by both |
| `EntityContacts.ContactNames` | eggnoggplus-win/entity_world.c:258-298 | a contact names both entities by handle, lower slot first, and both regions by id and role |
| `EntityContacts.Contacts` | eggnoggplus-win/entity_world.c:263-303 | the two-pass query: count and write pass agree, short capacity or an exhausted budget leaves the output alone, and the budget is charged the cost of a pass once or twice |
| `EntityContacts.CostIsClosedForm` | eggnoggplus-win/entity_world.c:258-298 | that cost without loops, from the capacity, the positions of the live slots, the sum of their region counts and the sum of the squares of these |
| `EntityContacts.WorldPass` | eggnoggplus-win/entity_world.c:266-298 | one pass over all slot pairs reports the touching pairs in order or stops where the budget or the comparison limit does |
| `EntityContacts.SlotPass` | eggnoggplus-win/entity_world.c:270-290 | one slot against all later ones |
| `EntityContacts.PairPass` | eggnoggplus-win/entity_world.c:274-289 | all region pairs of two entities |
| `EntityContacts.RowPass` | eggnoggplus-win/entity_world.c:278-288 | one region against all regions of the other entity |
| `EntityContacts.Charge` | eggnoggplus-win/entity_world.c:258-262 | one comparison: the limit and the budget are checked before they are spent |
| `EntitySweep.NoTunnelling` | eggnoggplus-win/entity_world.c:336-383 | from outside every grown solid the whole path over up to three slides stays outside all of them, the penetration pass moves nothing, and the result is in the box of old and target position |
| `EntitySweep.UnobstructedReachesTarget` | eggnoggplus-win/entity_world.c:336-383 | a motion that meets nothing ends exactly at its target |
| `EntitySweep.WallIsBlocked` | eggnoggplus-win/entity_world.c:345-359 | a body stopped by a wall is on that wall, and moving on along x would enter the solid if and only if it came up against it strictly before leaving it, that is, did not graze a corner |
| `EntitySweep.FloorIsBlocked` | eggnoggplus-win/entity_world.c:345-359 | the same for floors and ceilings, where the body must also have been strictly between the walls: an exact corner counts as floor or ceiling |
| `EntitySweep.PenetratesIffEntered` | eggnoggplus-win/entity_world.c:345-359 | from outside, the straight motion would pass through a solid if and only if it comes up against it before its end and strictly before leaving it |
| `EntitySweep.GrazingBodyIsStopped` | eggnoggplus-win/entity_world.c:345-359 | a body that only grazes a corner is stopped although nothing is in the way of its straight motion |
| `EntitySweep.PushOutLeavesByNearestFace` | eggnoggplus-win/entity_world.c:361-381 | a penetrated solid pushes the body along one axis by the smallest of the four distances, onto its boundary |
| `EntitySweep.NoSolids` | eggnoggplus-win/entity_world.c:336-337 | the early exit for worlds without solid regions changes nothing |
| `EntitySweepLaws.InsideIsOverlap` | eggnoggplus-win/entity_world.c:345-348 | a point is inside a grown solid iff the open square body around it overlaps the region, in the coordinates of entity and region, mirrored or not |
| `EntitySweepLaws.SolidsAre` | eggnoggplus-win/entity_world.c:341-348 | the rectangles met are those of the solid regions of live entities, no more and no fewer |
| `EntitySweepLaws.ClearIsNothingOverlaps` | eggnoggplus-win/entity_world.c:336-383 | being clear of all rectangles is overlapping no solid region of any live entity |
| `EntitySweepLaws.BodiesDoNotTunnel` | eggnoggplus-win/entity_world.c:336-383 | no tunnelling said of entities: a body that overlaps no solid region at the start overlaps none at the end, nor up to its first stop |
| `EntitySweepLaws.MeetsIffTouches` | eggnoggplus-win/entity_world.c:345-356 | a solid counts as met iff the motion approaches it along a coordinate and touches it at some time of the step |
| `EntitySweepLaws.ScanIsFirstOfEarliest` | eggnoggplus-win/entity_world.c:341-356 | the scan reports the earliest meeting, and the first in slot and region order among equals |
| `EntitySweepLaws.SlidesAlongTheFace` | eggnoggplus-win/entity_world.c:357-360 | a stopped body slides on along the face to its target in the other coordinate |
| `EntitySweepLaws.PushesToNearestFace` | eggnoggplus-win/entity_world.c:361-381 | a penetrating body goes out by the nearest face, floor before ceiling before right before left wall, onto it and with that contact |
| `EntitySweepLaws.FloorIsReportedIff` | eggnoggplus-win/entity_world.c:361-381 | the penetration pass reports a floor iff one was reported before, a solid at its turn was rested on by a body that does not rise, or pushed it up |
| `EntitySweepLaws.RestingIsReported` | eggnoggplus-win/entity_world.c:361-381 | a body that starts clear and does not rise reports a floor iff a slide was stopped by one or it ends on a top edge strictly between the walls |
| `EntitySweepLaws.PushedOntoFloorIsNotReported` | eggnoggplus-win/entity_world.c:361-381 | the clear start is needed: a body pushed sideways onto the top edge of an earlier solid rests there unreported |
| `EntitySweepLaws.ReflectionKeepsResult` | eggnoggplus-win/entity_world.c:336-383 | the mirrored body in the mirrored world ends in the mirrored place with left and right contacts exchanged, if it starts clear or is never found halfway between two walls |
| `EntitySweepLaws.MirroredPush` | eggnoggplus-win/entity_world.c:361-381 | one push mirrors iff the body is not halfway between the walls |
| `EntitySweepLaws.MirroredPass` | eggnoggplus-win/entity_world.c:361-381 | the penetration pass mirrors solid by solid iff it never finds the body halfway between two walls |
| `EntitySweepLaws.HalfwayIsNotMirrored` | eggnoggplus-win/entity_world.c:361-381 | a body halfway between two walls leaves to the left, in the mirror as well |
| `EntitySweep.SweepSolids` | eggnoggplus-win/entity_world.c:336-383 | the resolver as it runs equals the resolver the theorems speak about |
| `EntitySweep.FirstMeeting` | eggnoggplus-win/entity_world.c:341-356 | the scan finds the earliest solid met and its face |
| `EntityWorldState.EntityWorld.constructor` | eggnoggplus-win/entity_world.c:28-36 | a new world is empty, at tick 0, all generations 0 |
| `EntityWorldState.EntityWorld.FindSlot` | eggnoggplus-win/entity_world.c:40-46 | a handle resolves iff its slot is active with its generation |
| `EntityWorldState.EntityWorld.Spawn` | eggnoggplus-win/entity_world.c:68-79 | takes the first free slot whose generation is not exhausted, else changes nothing |
| `EntityWorldState.EntityWorld.Remove` | eggnoggplus-win/entity_world.c:80-84 | clears exactly the slot of a live handle |
| `EntityWorldState.EntityWorld.Read` | eggnoggplus-win/entity_world.c:85-89 | reads the value of a live handle |
| `EntityWorldState.EntityWorld.Write` | eggnoggplus-win/entity_world.c:90-94 | replaces the value of a live handle by a valid one |
| `EntityWorldState.EntityWorld.Next` | eggnoggplus-win/entity_world.c:95-102 | the next live handle after a given one |
| `EntityWorldState.EntityWorld.Step` | eggnoggplus-win/entity_world.c:103-131 | moves every entity or none |
| `EntityWorldState.EntityWorld.Save` | eggnoggplus-win/entity_world.c:145-166 | fills the buffer with the snapshot or leaves it alone |
| `EntityWorldState.EntityWorld.ValidateSnapshot` | eggnoggplus-win/entity_world.c:181-197 | accepts exactly what the snapshot specification accepts |
| `EntityWorldState.EntityWorld.SnapshotContainsHandles` | eggnoggplus-win/entity_world.c:198-210 | whether every given handle resolves in a valid snapshot |
| `EntityWorldState.EntityWorld.Load` | eggnoggplus-win/entity_world.c:211-218 | becomes the decoded world, or changes nothing; inside an update it poisons the update |
| `EntityWorldState.EntityWorld.DefineTypes` | eggnoggplus-win/entity_world.c:223-248 | binds sorted, checked types once, before anything was spawned, or changes nothing |
| `EntityWorldState.EntityWorld.Update` | eggnoggplus-win/entity_world.c:305-334 | the transaction as it runs equals the transaction the theorems speak about |
| `EntityWorldState.EntityWorld.CollectHandles` | eggnoggplus-win/entity_world.c:319-320 | the handles live at entry, in slot order |
| `EntityWorldState.EntityWorld.RunCallbacks` | eggnoggplus-win/entity_world.c:320-324 | calls the callback for each collected handle that still resolves |
| `EntityWorldState.EntityWorld.Restore` | eggnoggplus-win/entity_world.c:327-331 | puts back slots, count, tick and the spawned latch |
| `EntityWorldState.SortedIsSorted` | eggnoggplus-win/entity_world.c:219-248 | definitions with distinct ids come out strictly sorted, none lost, none invented |
| `EntityWorldState.FindType` | eggnoggplus-win/entity_world.c:47-55 | binary search finds the type of an id, if there is one |
| `EntityWorldState.CheckTypes` | eggnoggplus-win/entity_world.c:223-248 | accepts exactly valid definitions with distinct ids |
| `EntityWorldState.CheckRecord` | eggnoggplus-win/entity_world.c:167-197 | accepts exactly the canonical records |
| `Animation.PlayheadIsClosedForm` | eggnoggplus-win/entity_package.c:82-93 | the loop, once and ping-pong formulas give the frame a stepping playhead reaches, for every count and step, always in range |
| `Animation.EntityFrameFollowsPlayhead` | eggnoggplus-win/entity_package.c:82-93 | an entity shows its first sprite plus the playhead frame, wrapped to 32 bits; no wrap within the declared sprites |
| `Animation.TileFrameFollowsPlayhead` | eggnoggplus-win/content_tiles.c:257-279 | a tile shows the playhead frame, started ahead by its seed, with the 64-bit wrap of the sum |
| `Animation.EntityAndTileAgree` | eggnoggplus-win/content_tiles.c:257-279 | without a phase seed entity and tile show the same frame |
| `Animation.StatusFollowsPlayhead` | eggnoggplus-win/entity_package.c:94-106 | the status reports the playhead frame, and finished exactly when a once-animation has come to rest |
| `Animation.FramesTick` | eggnoggplus-win/entity_package.c:82-93 | what entities and tiles show tick by tick: the first frame at the start, the next one at every frameTicks-th tick, a tile with a random phase as many frames ahead as its seed |
| `BytebeatRoundTrip.CompileReadsWriting` | eggnoggplus-win/bytebeat_ext.c:719-775 | an expression written in any way the language allows, with any blanks between its tokens and after them, any spelling of names, operators and numbers, decimal numerals as strtod scans them, and any redundant parentheses, compiles iff it respects the four limits (length, nodes, nesting, depth), and then to exactly the expression it means |
| `BytebeatLanguage.CompilesIffWritten` | eggnoggplus-win/bytebeat_ext.c:719-775 | nothing else compiles: a text compiles to a program iff it is such a writing within the limits of an expression laid out as that program |
| `BytebeatLanguage.Unambiguous` | eggnoggplus-win/bytebeat_ext.c:719-775 | no text that compiles can be read in two ways |
| `BytebeatLanguage.WritingsAgree` | eggnoggplus-win/bytebeat_ext.c:348-376 | blanks, spellings and redundant parentheses do not matter: two ways of writing one expression compile to the same program or both do not |
| `BytebeatLanguage.ReadConditional` | eggnoggplus-win/bytebeat_ext.c:684-701 | whatever the conditional production accepts was a written expression and the blanks after it |
| `BytebeatLanguage.ReadLoop` | eggnoggplus-win/bytebeat_ext.c:614-631 | what the left-associative loop accepts is a chain of operands of its level |
| `BytebeatLanguage.ReadNumber` | eggnoggplus-win/bytebeat_ext.c:455-495 | what is accepted as a number is a prefix and digits of its base, or what strtod scanned |
| `BytebeatLanguage.ReadName` | eggnoggplus-win/bytebeat_ext.c:522-531 | what is accepted as a name is the name, perhaps as a member of Math |
| `BytebeatLanguage.ScanDecimalIsSteady` | eggnoggplus-win/bytebeat_ext.c:488-494 | the decimal syntax of C meets the one condition these results put on strtod: what it stops at does not depend on what follows, unless that could prolong the numeral |
| `BytebeatPrinter.CompileInvertsPrinting` | eggnoggplus-win/bytebeat_ext.c:719-775 | the compiler inverts a printer: every expression, decimal constants included, is printed to a text that compiles to it whenever the limits allow |
| `BytebeatPrinter.FewestParentheses` | eggnoggplus-win/bytebeat_ext.c:502-515 | no way of writing an expression nests fewer parentheses than the printer, so it shows which expressions the nesting limit leaves |
| `BytebeatRoundTrip.Exact` | eggnoggplus-win/bytebeat_ext.c:497-701 | every production reads exactly what is written for its level, whatever the blanks, or fails when a limit is exceeded |
| `BytebeatRoundTrip.Loopy` | eggnoggplus-win/bytebeat_ext.c:614-631 | the left-associative loop reads the leftmost operand chain and continues with what follows |
| `BytebeatRoundTrip.NumberIsRead` | eggnoggplus-win/bytebeat_ext.c:455-495 | a number is read whole: prefixed digits as the number they spell modulo 2^32, decimal ones as strtod scans them |
| `BytebeatRoundTrip.AccumulateIsPositional` | eggnoggplus-win/bytebeat_ext.c:464-478 | accumulating digits in 32 bits gives the number they spell, wrapped once |
| `BytebeatRoundTrip.WordIsRead` | eggnoggplus-win/bytebeat_ext.c:399-422 | a name is read whole, with or without Math and with blanks around the point |
| `BytebeatSyntax.SkipsBlank` | eggnoggplus-win/bytebeat_ext.c:348-353 | space, tab, newline, vertical tab, form feed and carriage return are skipped |
| `BytebeatSyntax.TokenIsRead` | eggnoggplus-win/bytebeat_ext.c:633-680 | each infix token before an operand is read as its operator at its level and as nothing tighter (`*`/`**`, `<`/`<<`, `&`/`&&`, `|`/`||`, `==`/`===`) |
| `BytebeatSoundness.CompiledIsOneTree` | eggnoggplus-win/bytebeat_ext.c:719-775 | whatever compiles is the post-order layout of one tree within the limits; it compiles iff parsing consumed everything and the tree is not too deep |
| `BytebeatSoundness.ConditionalGrows` | eggnoggplus-win/bytebeat_ext.c:684-701 | a production either fails or appends exactly one whole tree with its root last |
| `BytebeatProgram.OneTreeIsUsedOnce` | eggnoggplus-win/bytebeat_ext.c:378-395 | children precede parents, the root is last, every other node is used exactly once, and the recorded depth is the tree depth |
| `BytebeatProgram.HeldIsUsedOnce` | eggnoggplus-win/bytebeat_ext.c:378-395 | in a laid-out tree every node but the root is a child exactly once |
| `BytebeatProgram.DenoteOfFlat` | eggnoggplus-win/bytebeat_ext.c:378-395 | the node array determines the tree |
| `BytebeatProgram.TreeDepthIsDepth` | eggnoggplus-win/bytebeat_ext.c:703-717 | the recursion over indices measures the depth of the tree |
| `BytebeatProgram.EvalNodeIsValue` | eggnoggplus-win/bytebeat_ext.c:795-905 | the recursive evaluator computes the value of the tree |
| `BytebeatProgram.EvalNodeIsBounded` | eggnoggplus-win/bytebeat_ext.c:795-905 | it makes at most one call per node of the tree, nested at most as deeply as the tree |
| `BytebeatProgram.RenderIsBounded` | eggnoggplus-win/bytebeat_ext.c:951-955 | a render makes at most nodes times samples calls and never recurses deeper than the recorded depth, at most 48 |
| `BytebeatProgram.FadesMirrorEachOther` | eggnoggplus-win/bytebeat_ext.c:991-1000 | the fade out is the fade in reversed, both ends are silent, factors lie in 0 to 1 and only the fades are attenuated |
| `BytebeatProgram.Pcm` | eggnoggplus-win/bytebeat_ext.c:982-1005 | a sample is the nearest 16-bit number to the faded and amplified value, saturated at both ends |
| `BytebeatProgram.Evaluate` | eggnoggplus-win/bytebeat_ext.c:907-920 | one evaluation of a compiled program: the value of its tree within the recorded depth |
| `BytebeatProgram.Render` | eggnoggplus-win/bytebeat_ext.c:922-1008 | a render writes the sample of the tree at every position or nothing at all, in at most 8388608 calls nested at most 48 deep |
| `BytebeatProgram.RenderSamples` | eggnoggplus-win/bytebeat_ext.c:972-1005 | one sample after the other: the whole block of samples and what it cost |
| `BytebeatProgram.RawSampleScale` | eggnoggplus-win/bytebeat_ext.c:977-990 | 1 is the loudest sample, -1 its opposite, beyond is clipped; byte 128 is silence and a step of a byte is 256 |
| `BytebeatProgram.UnusedOperandsDoNotMatter` | eggnoggplus-win/bytebeat_ext.c:795-905 | an operand that a logical operator or a conditional does not need has no influence |
| `BytebeatCompiler.Parser.constructor` | eggnoggplus-win/bytebeat_ext.c:749-755 | a parser at the start of the text |
| `BytebeatCompiler.Parser.SkipSpace` | eggnoggplus-win/bytebeat_ext.c:348-353 | skips blanks |
| `BytebeatCompiler.Parser.Match` | eggnoggplus-win/bytebeat_ext.c:355-365 | takes a token if it is next |
| `BytebeatCompiler.Parser.MatchSingle` | eggnoggplus-win/bytebeat_ext.c:367-376 | takes a character unless the one after it is excluded |
| `BytebeatCompiler.Parser.AddNode` | eggnoggplus-win/bytebeat_ext.c:378-395 | appends a node or fails at 512 |
| `BytebeatCompiler.Parser.Identifier` | eggnoggplus-win/bytebeat_ext.c:399-422 | reads an identifier that fits its buffer |
| `BytebeatCompiler.Parser.Name` | eggnoggplus-win/bytebeat_ext.c:522-531 | reads a name with an optional Math prefix |
| `BytebeatCompiler.Parser.Number` | eggnoggplus-win/bytebeat_ext.c:455-495 | reads a prefixed or decimal number |
| `BytebeatCompiler.Parser.Prefixed` | eggnoggplus-win/bytebeat_ext.c:462-486 | reads hexadecimal and binary digits modulo 2^32 |
| `BytebeatCompiler.Parser.TakeOperator` | eggnoggplus-win/bytebeat_ext.c:633-680 | the next operator of a level, tried in order |
| `BytebeatCompiler.Parser.TakePrefix` | eggnoggplus-win/bytebeat_ext.c:588-593 | the next prefix operator |
| `BytebeatCompiler.Parser.Conditional` | eggnoggplus-win/bytebeat_ext.c:684-701 | the conditional production |
| `BytebeatCompiler.Parser.Left` | eggnoggplus-win/bytebeat_ext.c:614-631 | a left-associative production with its loop |
| `BytebeatCompiler.Parser.Power` | eggnoggplus-win/bytebeat_ext.c:602-612 | the right-associative power production |
| `BytebeatCompiler.Parser.Unary` | eggnoggplus-win/bytebeat_ext.c:588-600 | the prefix production |
| `BytebeatCompiler.Parser.Primary` | eggnoggplus-win/bytebeat_ext.c:497-586 | parentheses, numbers, names and calls |
| `BytebeatCompiler.Parser.Parenthesized` | eggnoggplus-win/bytebeat_ext.c:502-515 | an expression in parentheses, nested at most 48 deep |
| `BytebeatCompiler.Parser.Named` | eggnoggplus-win/bytebeat_ext.c:532-580 | a variable, a constant or a call |
| `BytebeatCompiler.Parser.Arguments` | eggnoggplus-win/bytebeat_ext.c:565-572 | the arguments of a call |
| `BytebeatCompiler.Compile` | eggnoggplus-win/bytebeat_ext.c:719-775 | the compiler as it runs equals the grammar for every text |
| `BytebeatStream.RingIsRespected` | eggnoggplus-win/bytebeat_stream.c:67-125 | under every interleaving: write minus read never exceeds the capacity, the overflow branch is dead, a block never straddles the ring end and never covers an unread frame or the slot being read |
| `BytebeatStream.ReadsPlayTheSong` | eggnoggplus-win/bytebeat_stream.c:186-210 | the k-th successful read returns the k-th rendered frame, across any number of counter wraps |
| `BytebeatStream.NothingBeforePrebuffering` | eggnoggplus-win/bytebeat_stream.c:67-125 | no read succeeds before the ring was once completely full |
| `BytebeatStream.UnderrunMeansEmpty` | eggnoggplus-win/bytebeat_stream.c:195-200 | an underrun is counted exactly when no rendered frame waits |
| `BytebeatStream.RunIsSafe` | eggnoggplus-win/bytebeat_stream.c:67-125 | every step of either thread keeps the ring invariant |
| `BytebeatProgress.ProducerProgresses` | eggnoggplus-win/bytebeat_stream.c:67-125 | from every reachable state that is neither failed nor stopped and has room for a block, at most eleven producer steps and one successful render publish the next block |
| `BytebeatProgress.PrebufferingEnds` | eggnoggplus-win/bytebeat_stream.c:67-125 | from the start, eight successful renders without reads fill the ring and announce it |
| `BytebeatProgress.RingFills` | eggnoggplus-win/bytebeat_stream.c:67-125 | n renders put n blocks into the ring, up to its capacity |
| `BytebeatProgress.ConsumerProgresses` | eggnoggplus-win/bytebeat_stream.c:186-210 | from every reachable state that is ready, not failed and has a frame waiting, at most seven consumer steps deliver that frame |
| `BytebeatProgress.RunsProgress` | eggnoggplus-win/bytebeat_stream.c:67-125 | both, of every state of every run |
| `BytebeatProgress.FailedRenderEnds` | eggnoggplus-win/bytebeat_stream.c:100-110 | a failed render sets failed and ready and stops the producer for good, publishing nothing |
| `BytebeatStream.Stream.constructor` | eggnoggplus-win/bytebeat_stream.c:137-147 | a zeroed stream |
| `BytebeatStream.Stream.Produce` | eggnoggplus-win/bytebeat_stream.c:67-125 | one load, store or decision of the producer |
| `BytebeatStream.Stream.Branch` | eggnoggplus-win/bytebeat_stream.c:82-96 | overflow, wait or render |
| `BytebeatStream.Stream.PublishBlock` | eggnoggplus-win/bytebeat_stream.c:112-122 | the publishing store |
| `BytebeatStream.Stream.Write` | eggnoggplus-win/bytebeat_stream.c:98-103 | one sample written while rendering |
| `BytebeatStream.Stream.RenderReturns` | eggnoggplus-win/bytebeat_stream.c:100-110 | the renderer returned |
| `BytebeatStream.Stream.Consume` | eggnoggplus-win/bytebeat_stream.c:186-210 | one step of a read |
| `BytebeatStream.Stream.RequestStop` | eggnoggplus-win/bytebeat_stream.c:166-168 | the request to stop |
| `ContentRegistry.CommitReplacesOwners` | eggnoggplus-win/content_registry.c:686-775 | a commit succeeds iff owners are distinct and the outcome fits 65535 tiles; it then replaces exactly the committed owners and keeps the array strictly sorted |
| `ContentRegistry.NoCollision` | eggnoggplus-win/content_registry.c:759-767 | the key-collision branch is unreachable |
| `ContentRegistry.BatchIsOneByOne` | eggnoggplus-win/content_registry.c:831-845 | committing owners one by one equals the batch exactly when every intermediate registry fits |
| `ContentRegistry.BatchOrderIsIrrelevant` | eggnoggplus-win/content_registry.c:831-845 | the order of owners in a batch does not matter |
| `ContentRegistry.SortedBatchIsSame` | eggnoggplus-win/content_registry.c:698-713 | sorting each transaction first changes nothing |
| `ContentRegistry.RegisteringKeepsValid` | eggnoggplus-win/content_registry.c:636-674 | registering keeps a transaction within its limit, well keyed and free of duplicate ids |
| `ContentRegistry.RegisteringAddsOne` | eggnoggplus-win/content_registry.c:636-674 | registering is granted iff there is room, the id is a new proper name and the body acceptable; then exactly that tile is added after the others under owner:id |
| `ContentRegistry.EmptyFits` | eggnoggplus-win/content_registry.c:863-871 | removing an owner never exceeds the limit |
| `ContentModel.KeysAreInjective` | eggnoggplus-win/content_registry.c:94-120 | a key determines owner and id up to case |
| `ContentModel.NormalKeys` | eggnoggplus-win/content_registry.c:122-148 | a made key is its own normal form and lookups accept owner:id |
| `ContentModel.KeysFit` | eggnoggplus-win/content_registry.c:94-120 | a key of accepted parts always fits its buffer |
| `ContentModel.NormalizeIsStable` | eggnoggplus-win/content_registry.c:49-92 | normalizing twice is normalizing once |
| `ContentModel.SortedIsStrict` | eggnoggplus-win/content_registry.c:602-606 | sorting distinct keys gives the same tiles strictly sorted |
| `ContentModel.StrictlySortedIsUnique` | eggnoggplus-win/content_registry.c:602-606 | a strictly sorted array is determined by its tiles |
| `ContentRegistry.Begin` | eggnoggplus-win/content_registry.c:622-634 | a transaction for a normalized owner, or none |
| `ContentRegistry.Transaction.RegisterTile` | eggnoggplus-win/content_registry.c:636-674 | adds a tile or changes nothing |
| `ContentRegistry.Batch.Add` | eggnoggplus-win/content_registry.c:795-829 | refuses a second transaction of an owner |
| `ContentRegistry.Registry.CommitTransactions` | eggnoggplus-win/content_registry.c:686-775 | the commit as it runs: the specified outcome with generation plus one, or no change |
| `ContentRegistry.Registry.Commit` | eggnoggplus-win/content_registry.c:777-787 | one transaction, used up on success |
| `ContentRegistry.Registry.CommitBatch` | eggnoggplus-win/content_registry.c:831-845 | a batch, used up on success |
| `ContentRegistry.Registry.RemoveOwner` | eggnoggplus-win/content_registry.c:863-871 | removes an owner's tiles; any proper name will do |
| `ContentRegistry.Registry.Shutdown` | eggnoggplus-win/content_registry.c:613-620 | empties the registry and advances the generation |
| `ContentRegistry.Registry.TileFind` | eggnoggplus-win/content_registry.c:901-921 | binary search finds the tile of a key if and only if there is one |
| `ContentRegistry.SortAll` | eggnoggplus-win/content_registry.c:698-713 | sorts transactions until an owner repeats |
| `ContentRegistry.AdjacentRepeat` | eggnoggplus-win/content_registry.c:759-767 | finds equal neighbours |
| `ContentRegistry.OwnerInTransactions` | eggnoggplus-win/content_registry.c:676-684 | whether an owner is being replaced |
| `ContentTiles.LookupsShowTheRegistry` | eggnoggplus-win/content_tiles.c:377-429 | after any run a lookup succeeds iff the cell is bound and the registry now has its key with the first-bound glyph; the fields are the current entry, the force negated exactly for mirrored cells that opt in |
| `ContentTiles.RendersShowTheRegistry` | eggnoggplus-win/content_tiles.c:281-364 | rendering by pointer shows the same registry entry at its animation frame |
| `ContentTiles.StepIsSound` | eggnoggplus-win/content_tiles.c:158-247 | every call keeps the cache standing for the ideal map and following the registry |
| `ContentTiles.PointersFindCells` | eggnoggplus-win/content_tiles.c:310-328 | a pointer to a cell resolves to that cell, with or without coordinates |
| `ContentTiles.AcceptedPointersAreCells` | eggnoggplus-win/content_tiles.c:310-328 | an accepted pointer belongs to the cell whose coordinates it carries |
| `ContentTiles.RefreshKeeps` | eggnoggplus-win/content_tiles.c:216-247 | a refresh brings every entry up to date |
| `ContentTiles.RefreshNeverMislabels` | eggnoggplus-win/content_tiles.c:216-247 | however commits interleave with a refresh, the cache never carries a generation it is not up to date with |
| `ContentTiles.RefreshAmidIsSound` | eggnoggplus-win/content_tiles.c:216-247 | after such a refresh the cache still stands for the ideal map and follows the registry |
| `ContentTiles.QuietRefresh` | eggnoggplus-win/content_tiles.c:216-247 | left alone, one pass is enough |
| `ContentTiles.HashIsFnv1a` | eggnoggplus-win/content_tiles.c:144-157 | the hash of a key is 32-bit FNV-1a, by its published test vectors |
| `ContentTiles.SeedOfACell` | eggnoggplus-win/content_tiles.c:144-157 | a seed hashes the key, then x, then y, and folds the four bytes into one |
| `ContentTiles.TileMap.constructor` | eggnoggplus-win/content_tiles.c:36-49 | no map |
| `ContentTiles.TileMap.MapBegin` | eggnoggplus-win/content_tiles.c:61-96 | a map of empty cells, or the old map |
| `ContentTiles.TileMap.MapEnd` | eggnoggplus-win/content_tiles.c:98-102 | no map |
| `ContentTiles.TileMap.FindDefinition` | eggnoggplus-win/content_tiles.c:104-112 | the entry of a key |
| `ContentTiles.TileMap.MapSet` | eggnoggplus-win/content_tiles.c:158-198 | binds one cell or changes nothing |
| `ContentTiles.TileMap.MapClear` | eggnoggplus-win/content_tiles.c:200-214 | clears one cell or changes nothing |
| `ContentTiles.TileMap.RefreshAmid` | eggnoggplus-win/content_tiles.c:216-247 | the refresh as it runs, up to eight passes while commits come in between; generation 0 if none was left alone |
| `ContentTiles.TileMap.LookUpAll` | eggnoggplus-win/content_tiles.c:223-237 | one pass over the entries |
| `ContentTiles.TileMap.Refresh` | eggnoggplus-win/content_tiles.c:249-255 | a refresh that no commit interrupts looks every entry up again and counts the valid ones |
| `ContentTiles.TileMap.InteractionAtCell` | eggnoggplus-win/content_tiles.c:377-429 | the lookup by coordinates, refreshing a stale cache first |
| `ContentTiles.TileMap.RenderForAction` | eggnoggplus-win/content_tiles.c:281-364 | the lookup by pointer, refreshing a stale cache first |
| `RoomGeometry.Rebuild` | eggnoggplus-win/custom_maps.c:5135-5237 | the block-wise rebuild writes every room cell exactly once and equals the direct mirrored plot |
| `RoomGeometry.PlotRoom` | eggnoggplus-win/custom_maps.c:5167-5221 | one room, block by block |
| `RoomGeometry.CopyBlock` | eggnoggplus-win/custom_maps.c:5206-5217 | the inner block of a plotted chunk lands on its room cells |
| `RoomGeometry.CopyRow` | eggnoggplus-win/custom_maps.c:5210-5216 | one row of it |
| `RoomGeometry.BuildChunk` | eggnoggplus-win/custom_maps.c:5182-5195 | the template window of a room, mirrored if asked, blank outside |
| `RoomGeometry.CopiedCell` | eggnoggplus-win/custom_maps.c:5179-5217 | the chunk cell copied is the authored cell it lands on |
| `RoomGeometry.LookupFindsPlottedCell` | eggnoggplus-win/custom_maps.c:6065-6132 | at every pixel of a covered cell the lookup answers with the cell plotted there |
| `RoomGeometry.LookupFindsNothing` | eggnoggplus-win/custom_maps.c:6088-6113 | where no room is nothing is found |
| `RoomGeometry.PinnedTileAtWorld` | eggnoggplus-win/custom_maps.c:6065-6132 | the lookup as it runs |
| `RoomBinding.RebuildBinderAndLookupAgree` | eggnoggplus-win/content_bridge.c:197-219 | rebuild, binder and lookup speak of the same authored cell for every covered cell and pixel |
| `RoomBinding.BindVariable` | eggnoggplus-win/content_bridge.c:177-228 | binding succeeds iff the map has the layout's size and every key is registered; all cells are then bound as authored, otherwise no half-bound map remains |
| `RoomBinding.BindRoom` | eggnoggplus-win/content_bridge.c:197-219 | one room |
| `RoomBinding.BindOne` | eggnoggplus-win/content_bridge.c:206-218 | one authored cell |
| `RoomBinding.FixedLayoutIsABijection` | eggnoggplus-win/content_bridge.c:30-58 | in the fixed layout every final cell comes from exactly one source cell |
| `RegistryBuffers.BuffersLiveLongEnough` | eggnoggplus-win/custom_maps.c:4139-4182 | over every run nothing is freed twice, the pinned buffer stays allocated, the retired list holds at most it, and every buffer has one keeper unless its note could not be allocated |
| `RegistryBuffers.PinnedIsNeverFreed` | eggnoggplus-win/custom_maps.c:5333-5354 | without a shutdown no buffer is freed while pinned |
| `RegistryBuffers.PinFreedExactlyAtShutdown` | eggnoggplus-win/custom_maps.c:5466-5483 | a buffer is freed under its own pin exactly when shutting down while the current registry is the pinned one |
| `RegistryBuffers.ShutdownFreesThePinnedBuffer` | eggnoggplus-win/custom_maps.c:5466-5483 | a run in which that happens |
| `RegistryBuffers.ShutDownReleases` | eggnoggplus-win/custom_maps.c:5466-5483 | shutting down frees every tracked buffer once and clears the pin |
| `RegistryBuffers.FreeUnpinnedSettles` | eggnoggplus-win/custom_maps.c:4170-4182 | sweeping leaves at most the pinned buffer retired |
| `RegistryBuffers.SwapInSettles` | eggnoggplus-win/custom_maps.c:5333-5354 | swapping keeps ownership exclusive |
| `RegistryBuffers.PinIsBufferInPlay` | eggnoggplus-win/custom_maps.c:5485-5544 | over every run the pin is the buffer of the map in play, told from the operations alone: the registry buffer of the moment a custom map was chosen, none after a vanilla or empty choice or a shutdown |
| `RegistryBuffers.BufferInPlayIsKept` | eggnoggplus-win/custom_maps.c:4170-4182 | that buffer stays allocated and unfreed, over every run, until a map is chosen again or the program shuts down |
| `RegistryBuffers.SelectionPins` | eggnoggplus-win/custom_maps.c:5485-5544 | after a choice the selection is the remainder of the selector by the number of maps, or -1 without custom maps, and the pin follows from it |
| `RegistryBuffers.RescanReplaces` | eggnoggplus-win/custom_maps.c:5395-5447 | an accepted rescan replaces buffer and count, any other leaves them; pin and selection stay |
| `RegistryBuffers.MapRegistry.FreeMapArray` | eggnoggplus-win/custom_maps.c:4123-4137 | releases an allocated map array |
| `RegistryBuffers.MapRegistry.RetireMaps` | eggnoggplus-win/custom_maps.c:4139-4154 | retires a buffer or gives it up |
| `RegistryBuffers.MapRegistry.FreeUnpinnedRetired` | eggnoggplus-win/custom_maps.c:4170-4182 | frees all retired buffers but the pinned one |
| `RegistryBuffers.MapRegistry.FreeRetired` | eggnoggplus-win/custom_maps.c:4156-4165 | frees the whole retired list |
| `RegistryBuffers.MapRegistry.Swap` | eggnoggplus-win/custom_maps.c:5333-5354 | replaces the registry |
| `RegistryBuffers.MapRegistry.Reload` | eggnoggplus-win/custom_maps.c:5395-5447 | a rescan |
| `RegistryBuffers.MapRegistry.Initialize` | eggnoggplus-win/custom_maps.c:5449-5464 | initialization |
| `RegistryBuffers.MapRegistry.HandleMapgenInit` | eggnoggplus-win/custom_maps.c:5485-5544 | pins the selected map |
| `RegistryBuffers.MapRegistry.ShutDownAll` | eggnoggplus-win/custom_maps.c:5466-5483 | shutdown |
| `RegistryBuffers.PositiveMod` | eggnoggplus-win/custom_maps.c:581-585 | the adjusted C remainder is the mathematical one |
| `DiscordFrames.ProcessedIsPrefixOfSent` | eggnoggplus-win/discord_rpc_ext.c:345-425 | in any pieces, over any number of pumps, the processed frames are a prefix of those sent, also before an over-limit header |
| `DiscordFrames.AllSentIsProcessed` | eggnoggplus-win/discord_rpc_ext.c:345-425 | a waiting reader that received everything has processed everything |
| `DiscordFrames.NothingAfterClose` | eggnoggplus-win/discord_rpc_ext.c:326-343 | nothing is processed from a CLOSE frame on |
| `DiscordFrames.FramesTakeEffect` | eggnoggplus-win/discord_rpc_ext.c:326-343 | over every session the connection is ready iff a processed FRAME announced it, and what waits to be written is the PONG with the payload of the last PING |
| `DiscordFrames.AdvancingStops` | eggnoggplus-win/discord_rpc_ext.c:401-420 | the connection closes exactly at an over-limit header or a complete CLOSE frame |
| `DiscordFrames.WireIsPrefixFree` | eggnoggplus-win/discord_rpc_ext.c:199-212 | encoded frames are uniquely decodable |
| `DiscordFrames.RoundKeeps` | eggnoggplus-win/discord_rpc_ext.c:381-425 | one pump round keeps received bytes equal to the processed frames and the partial one |
| `DiscordFrames.WordRoundTrip` | eggnoggplus-win/discord_rpc_ext.c:73-85 | a 32-bit number survives its four bytes |
| `DiscordFrames.EncodeFrame` | eggnoggplus-win/discord_rpc_ext.c:199-212 | writes the encoded frame or nothing |
| `DiscordFrames.FrameReader.Receive` | eggnoggplus-win/discord_rpc_ext.c:345-379 | bytes arrive where the read asked for them |
| `DiscordFrames.FrameReader.ProcessFrame` | eggnoggplus-win/discord_rpc_ext.c:326-343 | what a complete frame does |
| `DiscordFrames.FrameReader.Begin` | eggnoggplus-win/discord_rpc_ext.c:401-408 | a complete header starts the payload |
| `DiscordFrames.FrameReader.Finish` | eggnoggplus-win/discord_rpc_ext.c:409-420 | a complete payload is processed |
| `DiscordFrames.FrameReader.Turn` | eggnoggplus-win/discord_rpc_ext.c:381-425 | one round |
| `DiscordFrames.FrameReader.PumpRead` | eggnoggplus-win/discord_rpc_ext.c:381-425 | up to eight rounds |
| `CredentialTarget.TargetsAreUnique` | eggnoggplus-win/credential_ext.c:183-248 | two identities share a target iff servers agree up to ASCII case, ports are equal and user names are the same bytes |
| `CredentialTarget.TargetsFit` | eggnoggplus-win/credential_ext.c:183-248 | a valid identity needs at most 1580 bytes, below the 1600-byte buffer |
| `CredentialTarget.RequiredIsLength` | eggnoggplus-win/credential_ext.c:219-226 | the length computed beforehand is the length written |
| `CredentialTarget.DecodeEncoded` | eggnoggplus-win/credential_ext.c:97-116 | percent-encoding can be undone |
| `CredentialTarget.EncodesAsInRfc3986` | eggnoggplus-win/credential_ext.c:76-116 | unreserved bytes stand for themselves, any other is a percent sign and two upper-case hexadecimal digits |
| `CredentialTarget.LoweringKeepsLength` | eggnoggplus-win/credential_ext.c:83-116 | measuring before lowering measures the same |
| `CredentialTarget.BuildTarget` | eggnoggplus-win/credential_ext.c:183-248 | result, length, contents and terminator for valid, invalid and too small |
| `CredentialTarget.EncodeComponent` | eggnoggplus-win/credential_ext.c:97-116 | writes the encoded component and returns the position after it |
| `CredentialTarget.MeasureEncoded` | eggnoggplus-win/credential_ext.c:83-90 | the encoded length |
| `CredentialTarget.ValidateIdentity` | eggnoggplus-win/credential_ext.c:118-181 | accepts exactly the valid identities |

## Left out

- Callbacks of an update are plans: what each invocation does is a list of public calls and a verdict, fixed per turn. Any callback behaviour has such a plan; callbacks that keep the world pointer are not modelled.
- Allocation failure is one failing exit at most (entity update, map buffers); elsewhere allocation succeeds, so the out-of-memory exits of the registry, its batches and the tile cache are not modelled.
- Null pointers passed to public functions are not modelled, except where an empty buffer stands for one.
- EntityContacts.Contacts: reads a world value rather than the object's slots, because the query changes nothing but the output and the budget.
- EntitySweep.NoTunnelling: over the reals; rounding of doubles is not modelled.
- Sorting.SortBy: an insertion sort stands for qsort, in the entity world and in the content registry.
- Decimal constants keep their spelling; strtod is a parameter that says how far it scans. BytebeatRoundTrip.CompileReadsWriting covers the numerals it scans to the same end whatever follows, and the results of BytebeatLanguage ask that all are of this kind, as the numerals of C are (BytebeatLanguage.ScanDecimalIsSteady).
- Values, operators and functions of bytebeat are a parameter of the evaluator, and so is how a value is read as a number or as its low eight bits; the WAV header and error messages are left out.
- BytebeatProgram.Pcm: over the reals; rounding of doubles is not modelled.
- The renderer is an oracle that fills a block with the frames asked for or fails; waking events, thread priority, stream creation errors and the buffered-frames display are left out. Loads and stores are taken in program order, as the interlocked operations of the source make them.
- Field-by-field validation of tile definitions, sprite-sheet keys, digests and the fingerprint; a definition arrives checked or refused.
- The 64-bit wrap of the registry generation.
- ContentTiles.TileMap.InteractionAtCell: one step, like ContentTiles.TileMap.RenderForAction; that both start over when a commit comes between their two looks at the generation is not modelled. Commits during a refresh are (ContentTiles.TileMap.RefreshAmid).
- The world-coordinate form of the interaction lookup.
- RoomGeometry.PinnedTileAtWorld: the conversion of a world y beyond the range of int, which the source does not rule out, is a plain floor here.
- The native room plotter is a function of one glyph; glyphs that expand over several cells are not modelled, nor are failures of the native map initialization or the selector and generation checks around the pinned map.
- The room graph's promise, rooms inside the layout and disjoint, is a precondition. The view of a map does not change while it is being bound, so that failure is not modelled; binding summaries are left out.
- The loop that binds the fixed layout; only its cell mapping is here.
- Scanning the map directory comes down to three outcomes: unchanged, rejected, accepted. What a map buffer holds beside its address is left out, as are the payloads freed with it and the nodes of the retired list themselves.
- Text search for the READY event is a parameter; pipes, writing, reconnecting and activity updates are left out. A second PONG queued before the first was written replaces it, as in the source.
- Credential storage, secrets and error texts; decimal formatting of the port is a function.
- Windows handles, files, Lua bindings, JSON decoding, SHA-256, networking, rollback and the console.
