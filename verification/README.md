# What easyeda-mcp-pro decides, proved

The project models the decisions of the EasyEDA bridge and its extension that are hardest to get right, and proves what each is for.

- **Nets from coordinates** (`DisjointSets`, `NetNaming`, `NetInventory`, `NetOrdering`, `NetInference`, `NetMeaning`,
  `NetReadback`). A path-compressing disjoint set, a label pass, a naming pass and a pin pass. The specification is a
  netlist told in wires, flags, ports and pins alone. The pass lists each numbered pin once in exactly the nets of its point.
- **The foreign-net guard** (`CollisionGuard`). On axis-aligned wires a clear verdict means exactly that no foreign wire
  and no foreign coordinate, as rounded and merged, meets the route, and it is said when that covers all pins and flags.
- **Zone and board geometry** (`SegmentGeometry`, `PolygonAcceptance`, `PolygonRegion`, `PolygonParity`,
  `RectangleRelation`, `LatticeShapes`, `ToleranceLimits`, `ZoneOutline`, on `RealArithmetic`). The code runs on real
  coordinates with its tolerance kept. Its verdicts are compared with real points: shared points, simple polygons,
  even-odd parity. They are right for all coordinates that are multiples of a spacing exactly when it is above 0.0001.
- **Chunked transport** (`Decimals`, `Utf16`, `JsonText`, `JsonReader`, `ChunkReassembly`, `ChunkTransport`,
  `ChunkFrames`, `FrameCaps`). Texts are sequences of UTF-16 units. Sizes are those of UTF-8 (section 3 of RFC 3629),
  frames are JSON text (sections 2 and 7 of RFC 8259). A value that is written, split, framed and sent is read again as it
  was, under reordering, retransmission and interleaving.
- **Copper rebuilds** (`CopperEvidence`, `CopperRebuilds`). The editor may do anything. Success and the reopening of
  the latch are proved to mean something on the board.
- **The bridge session** (`BridgeSession`, `BridgeManagers`), **the listener lock** (`ListenerLock`,
  `ListenerOwnership`), **device metadata** (`DeviceMetadata`, `DeviceRequests`) and **the relay client**
  (`RelayClient`): a transition function over the events that can happen, lemmas about every history of such events, and
  a class whose methods change the fields step by step and are proved to take those transitions. The methods of the
  listener lock take several at once and are proved to be runs of such steps.

Verify with `dfyconfig.toml`.

## Assumptions

- Coordinates in nets are integers, thousandths of a unit, so that distinct points have distinct keys. The order in which
  point keys compare is any strict total order. The guard's coordinates are any reals, rounded as its keys are.
- Floating-point rounding is not modelled. Arithmetic is over the reals.
- Snapshots are compared by JSON text of sorted records, which is taken to be equality of the records. A fingerprint is an
  arbitrary function of a record and a thumbnail is represented by its hash.
- A socket's send does not throw. The events of one process are handled one after the other, each up to its next wait.
- Process ids are not reused while the lock is in use. The re-check and the rename of a reclaim are one step, and so is a
  release. Mutual exclusion also needs every live instance to write its record within the grace period, and no longer bound
  would do (`GraceIsExact`).
- Within one read-back a native getter gives the same answer each time it is called.

## Where the code differs from what one would expect

- `parseClosedPoints` demands eleven items, so a triangle is never read (`TriangleIsNotRead`), and it admits 513 vertices
  although its constant says 512 (`Reads`).
- The tolerance of `segmentsIntersect` is absolute. Everything below holds for all inputs on the multiples of a spacing
  exactly if it is above 0.0001; thousandths are (`ExactOnThousandths`, `AcceptedOnThousandths`, `RelationOnThousandths`),
  0.0001 itself is too fine. No crossing is missed (`CrossingsSeenIffResolved`), no contact is made up
  (`ExactIffResolved`), no polygon that crosses itself is accepted (`UncrossedIffResolved`), no simple one is refused
  (`AcceptanceExactIffResolved`), and no accepted polygon that passes through a rectangle is said to be off it
  (`VerdictSafeIffResolved`, `DenialSafeIffResolved`).
- The guard merges pins and flags into one map by coordinate, rounded to thousandths. Where two marks of different nets
  share a coordinate, one hides the other, and a mark off the grid is tested where it is not (`RoundedPinIsMissed`). The
  guard covers all marks for every route exactly when every mark is on the grid and none is hidden (`GuardSeesAllMarksIff`).
- The comment on the chunk size expects frames to stay comfortably under the frame cap. They fit for every payload exactly
  when the cap is at least 49212 bytes and the length of the id (`FramesFitIff`). The configuration admits 1024 bytes.
- A native rebuild that throws an error with an empty message counts as one that returned no copper. It can reopen the
  latch, and no other rejection can (`ProvenDespiteIffEmpty`).
- `handleResponse` never compares sockets. An answer from a socket other than the current one settles a request exactly if
  its id is pending (`ForeignAnswerSettlesIffPending`), although that request went out on the current socket.
- A relay connection that opens does not reset the reconnect count. The k-th reconnect since the last valid connect waits
  its own delay whatever succeeded in between, and from the sixth on half a minute (`KthReconnectWaits`).

## Model

| member | source | states |
|---|---|---|
| DisjointSets.DisjointSet.Find | easyeda-bridge-extension/src/dispatcher.ts:648-657 | find terminates, enters an unseen key as its own class, returns the root of the key, and by compressing changes no class |
| DisjointSets.DisjointSet.Union | easyeda-bridge-extension/src/dispatcher.ts:662-666 | exactly the classes of the two keys become one |
| DisjointSets.JoinedWithLink | easyeda-bridge-extension/src/dispatcher.ts:815-817 | what one more link joins, as a fact about chains |
| DisjointSets.MergedPartitions | easyeda-bridge-extension/src/dispatcher.ts:662-666 | merging classes keeps them in step with reachability over the links |
| NetInventory.JoinedIffWireChain | easyeda-bridge-extension/src/dispatcher.ts:808-817 | two vertices are joined by links exactly if a chain of wires, each sharing a vertex with the next, leads from one to the other |
| NetInference.CoordinateNets.AddWires | easyeda-bridge-extension/src/dispatcher.ts:801-824 | after all wires, two vertices have the same root exactly if a chain of wires, each sharing a vertex with the next, joins them; names are attached where their wires are |
| NetInference.MovedKeepsLabels | easyeda-bridge-extension/src/dispatcher.ts:826-834 | moving the names of a former root to its root loses no label and invents none |
| NetInference.CoordinateNets.Renormalise | easyeda-bridge-extension/src/dispatcher.ts:826-834 | afterwards all names are at roots and each class still has exactly its labels |
| NetInference.NormalNames | easyeda-bridge-extension/src/dispatcher.ts:826-843 | a root then holds a name exactly if that name was attached somewhere in its component |
| NetInference.CoordinateNets.AddFlags | easyeda-bridge-extension/src/dispatcher.ts:836-843 | components of kind netflag and netport with a net and a point attach their names there, and nothing else does |
| NetInference.CoordinateNets.CanonicalPoints | easyeda-bridge-extension/src/dispatcher.ts:759-767 | the least point of every component, by its root |
| NetOrdering.SortByPoint | easyeda-bridge-extension/src/dispatcher.ts:768-770 | the unnamed roots, all of them, in the order of their least points |
| NetOrdering.PositionIsRank | easyeda-bridge-extension/src/dispatcher.ts:768-783 | the m-th of them has exactly m least points of unnamed components before its own |
| NetNaming.NextFreeAmongAssigned | easyeda-bridge-extension/src/dispatcher.ts:771-782 | the search past names just given out ends, at the next name that was free to begin with |
| NetNaming.FreeNamesDistinct | easyeda-bridge-extension/src/dispatcher.ts:771-782 | different positions get different names |
| NetInference.CoordinateNets.AddUnnamedWireNetLabels | easyeda-bridge-extension/src/dispatcher.ts:754-783 | named components keep their names; every other gets one free name, fixed by its rank |
| NetInventory.AnonymousNamesDiffer | easyeda-bridge-extension/src/dispatcher.ts:754-783 | different unlabelled components have different names, none in use before |
| NetInventory.WireOrderIrrelevant | easyeda-bridge-extension/src/dispatcher.ts:808-824 | the order of the wires does not change links, vertices or labels |
| NetReadback.DrawingIgnoresOrder | easyeda-bridge-extension/src/dispatcher.ts:754-783 | so neither nets nor names depend on the order of wires and components |
| NetInference.CoordinateNets.PushUniqueNetNode | easyeda-bridge-extension/src/dispatcher.ts:722-731 | afterwards the named net lists the pin, no other net or pin is touched, nodes that were there stay, a listed pin is not entered again, and no pin is listed twice |
| NetInference.NodeAppended | easyeda-bridge-extension/src/dispatcher.ts:722-731 | appending a pin that its net does not list adds that listing, keeps all others and keeps pins unrepeated |
| NetInference.CoordinateNets.AddPins | easyeda-bridge-extension/src/dispatcher.ts:850-877 | each numbered pin of a designated component is entered in exactly the nets held at its coordinate's root |
| NetReadback.NamesAreNets | easyeda-bridge-extension/src/dispatcher.ts:803-877 | what roots hold after naming is exactly the nets of their points in the drawing |
| NetMeaning.NetAtMeans | easyeda-bridge-extension/src/dispatcher.ts:754-843 | the nets of a point in the drawing are the names of wires, flags and ports that touch it or, where there is none, N$ and the free number of its rank |
| NetReadback.AddCoordinateFallbackNets | easyeda-bridge-extension/src/dispatcher.ts:785-882 | the whole pass, told in wires and components alone: the nets are the old ones and those of points, named by wires, flags and ports that touch the point or by its rank; new entries are exactly the pins at those points, once each, at their points; old nodes stay |
| NetInventory.ConnectedPointsShareNets | easyeda-bridge-extension/src/dispatcher.ts:845-877 | points of one component have the same nets |
| CollisionGuard.IntersectionCorrect | easyeda-bridge-extension/src/dispatcher.ts:323-350 | the result is on both segments, and there is one exactly if both are axis-aligned and share a point |
| CollisionGuard.PointOnPolyline | easyeda-bridge-extension/src/dispatcher.ts:302-321 | a point that is accepted is on the route, or is all of it; on axis-aligned routes of two or more points exactly its points are accepted |
| CollisionGuard.PolylineIntersection | easyeda-bridge-extension/src/dispatcher.ts:352-363 | a common point of the two polylines, found exactly if some axis-aligned segments of both share one |
| CollisionGuard.RoundedToThousandths | easyeda-bridge-extension/src/dispatcher.ts:671-673 | whole thousandths are keyed as they are, and nothing is keyed more than half a thousandth away |
| CollisionGuard.FlagsHidePins | easyeda-bridge-extension/src/dispatcher.ts:437-443 | at a grid point a flag hides the pins, and a later mark of one list the earlier ones |
| CollisionGuard.BuildForeignConnectivityMap | easyeda-bridge-extension/src/dispatcher.ts:437-443 | the map holds, for each grid point, the net of the last mark within half a thousandth of it, pins before flags |
| CollisionGuard.FindForeignNetCollision | easyeda-bridge-extension/src/dispatcher.ts:476-519 | on any route a collision is genuine, with wires coming first, and for a named net there is none exactly if no foreign wire shares a point with it on axis-aligned segments of both and the key of no foreign mark that is shown is accepted as on it; on axis-aligned routes that is all that meets the route |
| CollisionGuard.GuardSeesAllMarksIff | easyeda-bridge-extension/src/dispatcher.ts:437-443 | a clear verdict covers every pin, flag and port, for every route and net, exactly if each is at whole thousandths and the last mark keyed there has its net |
| CollisionGuard.FaithfulMarksExact | easyeda-bridge-extension/src/dispatcher.ts:437-443 | for such marks the verdict is clear exactly if no foreign mark is on the route |
| CollisionGuard.RoundedPinIsMissed | easyeda-bridge-extension/src/dispatcher.ts:671-673 | a pin on the route, keyed to a point beside it, is not seen |
| SegmentGeometry.SegmentsIntersectCorrect | easyeda-bridge-extension/src/zone-polygon-intersection.ts:15-40 | on multiples of a spacing above 0.0001, true exactly if the closed segments share a real point |
| SegmentGeometry.ExactIffResolved | easyeda-bridge-extension/src/zone-polygon-intersection.ts:15-40 | for every spacing: the test is right for all segments on its multiples, and likewise never reports contact where there is none, if and only if it is above 0.0001 |
| SegmentGeometry.ExactOnThousandths | easyeda-bridge-extension/src/zone-polygon-intersection.ts:15-40 | on whole thousandths the test is true exactly if the closed segments share a real point |
| SegmentGeometry.ReachBeyondEnds | easyeda-bridge-extension/src/zone-polygon-intersection.ts:15-24 | a segment along an axis is taken to reach exactly 1e-8 beyond either end |
| SegmentGeometry.FalseContact | easyeda-bridge-extension/src/zone-polygon-intersection.ts:15-40 | for every spacing up to 0.0001, two segments that share no point and are reported |
| ToleranceLimits.CrossingsSeenIffResolved | easyeda-bridge-extension/src/zone-polygon-intersection.ts:15-40 | for every spacing: no contact of segments on its multiples is missed if and only if it is above 0.0001 |
| PolygonAcceptance.ParseClosedPoints | easyeda-bridge-extension/src/zone-polygon-intersection.ts:46-60 | reads a record exactly if it is that of a closed polyline of 4 to 513 vertices |
| PolygonAcceptance.ReadingIsUnambiguous | easyeda-bridge-extension/src/zone-polygon-intersection.ts:46-60 | no record is that of two polygons |
| PolygonAcceptance.HasValidAreaAndEdges | easyeda-bridge-extension/src/zone-polygon-intersection.ts:62-71 | no edge of length zero, and more than negligible area |
| PolygonAcceptance.HasCrossingEdges | easyeda-bridge-extension/src/zone-polygon-intersection.ts:73-85 | some two compared edges intersect |
| PolygonAcceptance.NativeClosedPolyline | easyeda-bridge-extension/src/zone-polygon-intersection.ts:87-91 | gives the polygon of the record exactly if there is one that is accepted |
| PolygonAcceptance.AcceptedIffSimple | easyeda-bridge-extension/src/zone-polygon-intersection.ts:62-91 | on such multiples, accepted polygons are exactly the simple ones of non-zero area |
| PolygonAcceptance.AcceptanceExactIffResolved | easyeda-bridge-extension/src/zone-polygon-intersection.ts:62-91 | for every spacing: acceptance is simplicity for all polygons on its multiples, and likewise no simple one is refused, if and only if it is above 0.0001 |
| PolygonAcceptance.AcceptedOnThousandths | easyeda-bridge-extension/src/zone-polygon-intersection.ts:62-91 | on whole thousandths exactly the simple polygons of non-zero area are accepted |
| ToleranceLimits.UncrossedIffResolved | easyeda-bridge-extension/src/zone-polygon-intersection.ts:62-91 | for every spacing: edges of accepted polygons on its multiples that are not neighbours never meet if and only if it is above 0.0001 |
| ToleranceLimits.CrossingPolygonAccepted | easyeda-bridge-extension/src/zone-polygon-intersection.ts:62-91 | for every spacing up to 0.0001, an accepted quadrilateral whose first and third edges cross |
| PolygonAcceptance.TriangleIsNotRead | easyeda-bridge-extension/src/zone-polygon-intersection.ts:46-60 | every proper triangle is simple but is not read |
| PolygonRegion.PointInPolygon | easyeda-bridge-extension/src/zone-polygon-intersection.ts:93-109 | on the boundary, or else inside exactly if a ray crosses oddly many edges |
| PolygonRegion.PolygonRectangleRelation | easyeda-bridge-extension/src/zone-polygon-intersection.ts:111-151 | the verdict as a function of contacts and corners |
| PolygonParity.StraightMove | easyeda-bridge-extension/src/zone-polygon-intersection.ts:93-109 | a straight move in any direction that does not touch the boundary does not change even-odd parity |
| RectangleRelation.RelationCorrect | easyeda-bridge-extension/src/zone-polygon-intersection.ts:111-151 | on such multiples, partial exactly if a boundary point lies in the closed rectangle; inside or outside exactly if none does and every point of the rectangle has that parity |
| RectangleRelation.RelationOnThousandths | easyeda-bridge-extension/src/zone-polygon-intersection.ts:111-151 | on whole thousandths each of the three verdicts holds exactly if the boundary meets, or does not meet, the closed rectangle and all its points are on the stated side |
| ToleranceLimits.VerdictSafeIffResolved | easyeda-bridge-extension/src/zone-polygon-intersection.ts:111-151 | for every spacing: for all accepted polygons and rectangles on its multiples, inside and outside mean no boundary point in the rectangle, and partial means that there is one, if and only if it is above 0.0001 |
| ToleranceLimits.ContactDenied | easyeda-bridge-extension/src/zone-polygon-intersection.ts:111-151 | for every spacing up to 0.0001, an accepted polygon that passes through a square it is said to be outside of |
| RectangleRelation.InsideIsEnclosed | easyeda-bridge-extension/src/zone-polygon-intersection.ts:111-151 | every polyline from a rectangle that is inside to a point out of reach meets the boundary |
| ZoneOutline.OverlapsIffInteriorsMeet | easyeda-bridge-extension/src/zone-outline-evidence.ts:56-62 | true exactly if the open interiors meet |
| ZoneOutline.ClassifyOutline | easyeda-bridge-extension/src/zone-outline-evidence.ts:128-148 | which path judges which record, and its verdict |
| ZoneOutline.EvidenceMeans | easyeda-bridge-extension/src/zone-outline-evidence.ts:128-148 | a rectangle is confirmed exactly if the interiors meet and is else outside the board, a polygon is observed with its relation, and exactly a record that is neither is unsupported |
| ZoneOutline.RelationOfRectangles | easyeda-bridge-extension/src/zone-polygon-intersection.ts:111-151 | between rectangles on such multiples, outside exactly if the closed rectangles are disjoint, inside exactly if the zone is strictly within |
| ZoneOutline.OutlinePathsAgree | easyeda-bridge-extension/src/zone-outline-evidence.ts:128-148 | the rectangle path goes by the open interiors and the polygon path by the closed rectangles, so they differ at most on touching |
| ZoneOutline.DenialSafeIffResolved | easyeda-bridge-extension/src/zone-outline-evidence.ts:128-148 | for every spacing: no zone through which a polygon outline passes is denied, whatever the record, if and only if it is above 0.0001 |
| Utf16.SizeOfJoin | src/bridge/manager.ts:42-59 | joining saves two bytes if it puts a surrogate pair together, and nothing otherwise |
| Utf16.CuttingShrinks | src/bridge/manager.ts:52-58 | cutting units out of a text never makes it larger in UTF-8 |
| Utf16.SizeIsEncodedLength | src/bridge/manager.ts:42-59 | the size is the length of the UTF-8 encoding |
| Utf16.Utf8RoundTrip | easyeda-bridge-extension/src/index.ts:878-886 | text without lone surrogates survives UTF-8 |
| JsonText.EscapingReadsBack | easyeda-bridge-extension/src/index.ts:878-886 | an escaped string literal reads back as the text, lone surrogates included |
| JsonText.EscapesByTable | easyeda-bridge-extension/src/index.ts:878-886 | which units a literal escapes, and how |
| JsonText.StringifyIsTransportable | easyeda-bridge-extension/src/index.ts:864-865 | JSON text holds no control character and no lone surrogate, whatever the value |
| JsonReader.StringifyReadsBack | easyeda-bridge-extension/src/index.ts:864-865 | reading the text of any value gives the value and leaves what follows |
| ChunkReassembly.ReplacementChunkBytes | src/bridge/manager.ts:42-59 | the sum of sizes is kept exactly, never below the joined size, and a piece is over the cap exactly if the joined text would be |
| ChunkReassembly.ChunkReassembler.DropExpired | src/bridge/manager.ts:545-548 | exactly the assemblies older than the limit are dropped |
| ChunkReassembly.ChunkReassembler.HandleChunk | src/bridge/manager.ts:536-590 | counters and sums decide as the table of received pieces does; the socket is closed exactly on a payload over the cap |
| ChunkTransport.ChunkSender.Send | easyeda-bridge-extension/src/index.ts:864-890 | one whole message, or the slices in order under a new id |
| ChunkTransport.ChunkIdsDiffer | easyeda-bridge-extension/src/index.ts:876 | different counters give different ids, whatever the clock says |
| ChunkTransport.ReceivedTexts | easyeda-bridge-extension/src/index.ts:874-886 | all slices join to the payload, and any of them are no larger than it |
| ChunkTransport.Reassembles | src/bridge/manager.ts:536-590 | in any order, repeated and mixed with others, every piece is stored and the last missing one completes exactly the payload |
| ChunkTransport.SentPayloadArrives | easyeda-bridge-extension/src/index.ts:862-890 | the same from send on: no piece of a payload within the aggregate cap is refused |
| ChunkTransport.FewPieces | src/bridge/manager.ts:541 | such a payload needs at most 33 pieces, whatever the cap |
| ChunkFrames.FrameReadsBack | src/bridge/manager.ts:536-544 | whatever the envelope, pieces that cut surrogate pairs included, the server reads from the bytes of its frame exactly the id, numbers and data that were sent |
| ChunkFrames.SentValueArrives | easyeda-bridge-extension/src/index.ts:862-890 | from the value to the value: of a payload within eight frame caps no frame is refused, and the last missing one to come in completes the payload, whose text parses to the value |
| FrameCaps.FrameBound | easyeda-bridge-extension/src/index.ts:872-886 | how large a frame can be |
| FrameCaps.FramesFitIff | src/bridge/manager.ts:594-602 | all frames of all values fit the cap exactly if it is at least 49212 and the length of the id |
| FrameCaps.DefaultCapsFit | easyeda-bridge-extension/src/index.ts:872-886 | from 65536 bytes on every frame fits |
| CopperEvidence.SnapshotPoured | easyeda-bridge-extension/src/pcb-mutation-operations.ts:141-151 | there is a snapshot exactly if every item is readable and no source repeats, and it describes the items |
| CopperEvidence.SnapshotDescribes | easyeda-bridge-extension/src/pcb-mutation-operations.ts:141-151 | a snapshot records every item, only items, and one item for each source |
| CopperEvidence.SnapshotExistsIff | easyeda-bridge-extension/src/pcb-mutation-operations.ts:141-151 | the specification function gives a snapshot under exactly that condition |
| CopperEvidence.PouredReadbackMap | easyeda-bridge-extension/src/pcb-mutation-operations.ts:438-449 | the poured ids of every source in order, or an exception if a getter throws |
| CopperEvidence.UnexpectedPouredChanges | easyeda-bridge-extension/src/pcb-mutation-operations.ts:666-685 | true exactly if copper of another source changed, vanished or appeared |
| CopperEvidence.VerifiedIff | easyeda-bridge-extension/src/pcb-mutation-operations.ts:533-641 | a result is verified exactly on what the editor shows before and after: no copper where none was returned; the target under the returned id with all else kept; or, where another source is named, new copper of the target under its own id beside unchanged old copper, if the name and id are those of copper that was there before or of an earlier target |
| CopperEvidence.StatusMeans | easyeda-bridge-extension/src/pcb-mutation-operations.ts:548-641 | which status an attempt ends with, and whose poured id a rebuilt one reports |
| CopperEvidence.OtherIdIsNeverVerified | easyeda-bridge-extension/src/pcb-mutation-operations.ts:622-631 | a direct result that returns another id than the one read back is never verified |
| CopperEvidence.FocusChangedMeans | easyeda-bridge-extension/src/pcb-mutation-operations.ts:643-653 | after a change of focus nothing is verified and only errors are told apart |
| CopperEvidence.VerifiedMeansSame | easyeda-bridge-extension/src/pcb-mutation-operations.ts:533-641 | one verified result, direct or reconciled, is evidence that nothing outside the batch changed |
| CopperEvidence.SuccessMeans | easyeda-bridge-extension/src/pcb-mutation-operations.ts:802-831 | on success every target has exactly one poured primitive and every other source the copper it had, with none added |
| CopperEvidence.FullyVerifiedMeans | easyeda-bridge-extension/src/pcb-mutation-operations.ts:943-953 | what the condition for reopening the latch says about the board |
| CopperEvidence.FullyVerifiedIff | easyeda-bridge-extension/src/pcb-mutation-operations.ts:943-953 | the condition for reopening the latch holds exactly if the PCB stayed in focus and every target was attempted and earned its result |
| CopperEvidence.SuccessIff | easyeda-bridge-extension/src/pcb-mutation-operations.ts:802-831 | success holds exactly if moreover copper was returned for every target |
| CopperEvidence.WellBehavedRebuildSucceeds | easyeda-bridge-extension/src/pcb-mutation-operations.ts:533-641 | a rebuild whose calls return their own copper, shown by the read-back with nothing else changed, does succeed |
| CopperRebuilds.ExecuteCopperRebuilds | easyeda-bridge-extension/src/pcb-mutation-operations.ts:746-775 | attempts are a prefix of the targets, each keeping what the editor gave or threw, with an error only on the last |
| CopperRebuilds.StepKeepsInvariant | easyeda-bridge-extension/src/pcb-mutation-operations.ts:886-958 | every step of any request keeps the latches in order |
| CopperRebuilds.InvokedOnlyAfterProof | easyeda-bridge-extension/src/pcb-mutation-operations.ts:892-905 | in every interleaving, a native rebuild is invoked only with no other run under way and every earlier invoking run proven |
| CopperRebuilds.LatchIsExact | easyeda-bridge-extension/src/pcb-mutation-operations.ts:924-957 | in every reachable state the latch is closed exactly if some run invoked a rebuild and has not earned its proof |
| CopperRebuilds.ProvenIff | easyeda-bridge-extension/src/pcb-mutation-operations.ts:943-953 | a run is proven exactly if it ended on the PCB it started on and all its results are earned |
| CopperRebuilds.AttemptsArePrefix | easyeda-bridge-extension/src/pcb-mutation-operations.ts:746-775 | in every reachable state the attempts of a run under way or ended are such a prefix, and it is choosing or invoking exactly while targets remain and none failed |
| CopperRebuilds.ProvenMeans | easyeda-bridge-extension/src/pcb-mutation-operations.ts:943-953 | a proven run stayed on one PCB and left the board as described |
| CopperRebuilds.EmptyMessagePasses | easyeda-bridge-extension/src/pcb-mutation-operations.ts:546-560 | a rejection with an empty message can count as proof |
| CopperRebuilds.RejectionIsNeverProof | easyeda-bridge-extension/src/pcb-mutation-operations.ts:546-560 | any other rejection never does |
| CopperRebuilds.ProvenDespiteIffEmpty | easyeda-bridge-extension/src/pcb-mutation-operations.ts:546-560 | for every message: some run with a call rejected with it is proven if and only if it is empty |
| CopperRebuilds.CopperRebuilder.RebuildCopper | easyeda-bridge-extension/src/pcb-mutation-operations.ts:892-906 | refuses while a run is under way or reconciliation is due |
| CopperRebuilds.CopperRebuilder.FocusBeforeTarget | easyeda-bridge-extension/src/pcb-mutation-operations.ts:754-761 | the native call is made exactly if the PCB is still in focus |
| CopperRebuilds.CopperRebuilder.ReadbackArrived | easyeda-bridge-extension/src/pcb-mutation-operations.ts:936-957 | a closed latch reopens exactly if the run earned it, and success has its meaning on the board |
| BridgeSession.StepKeepsInvariant | src/bridge/manager.ts:646-805 | every event keeps requests, timers and socket in step |
| BridgeSession.PendingIsExact | src/bridge/manager.ts:956-998 | in every reachable state the map holds exactly the issued, unsettled requests, all sent on the current socket and each with its timer; none was settled twice |
| BridgeSession.IdsNeverReused | src/bridge/manager.ts:962 | two issued calls never share an id |
| BridgeSession.OutcomeIsFinal | src/bridge/manager.ts:1048-1093 | once settled, a request keeps its outcome for the rest of the run |
| BridgeSession.SettledExactlyByItsEvents | src/bridge/manager.ts:1048-1093 | a request is settled by its own timer, by a response that names it, by a sweep once its own timeout has passed, or with its socket's session, and by nothing else |
| BridgeSession.SupersededAnswerIsIgnored | src/bridge/manager.ts:1048-1085 | in any run, a superseded socket changes nothing by answering, at whatever time, requests that went out on it |
| BridgeSession.ForeignAnswerSettlesIffPending | src/bridge/manager.ts:1048-1085 | in any run, a socket other than the current one settles a request exactly if it names one that is pending, and that one went out on the current socket |
| BridgeSession.NothingLeftBehind | src/bridge/manager.ts:734-743 | takeover, close and disconnect settle everything and close the old socket |
| BridgeSession.SupersededCloseIsIgnored | src/bridge/manager.ts:646-651 | the close of a superseded socket, whenever it comes, changes nothing |
| BridgeSession.ExactVersionStays | src/bridge/manager.ts:689-731 | an open session of the server's version is replaced only by one of the same version |
| BridgeManagers.BridgeManager.Call | src/bridge/manager.ts:956-998 | a request is sent exactly if connected, under the next number and an id never used before |
| BridgeManagers.BridgeManager.HandleResponse | src/bridge/manager.ts:1048-1085 | settles the named request and no other |
| BridgeManagers.BridgeManager.RejectPending | src/bridge/manager.ts:1087-1093 | rejecting one by one and clearing settles every pending request once |
| BridgeManagers.BridgeManager.SweepStale | src/bridge/manager.ts:1182-1200 | settles exactly the requests whose own timeout has passed |
| BridgeManagers.BridgeManager.HandleHandshake | src/bridge/manager.ts:697-805 | who takes the session over, and what becomes of the old one |
| BridgeManagers.BridgeManager.SocketClosed | src/bridge/manager.ts:646-678 | only the current socket's close ends the session |
| BridgeManagers.BridgeManager.Disconnect | src/bridge/manager.ts:1001-1046 | leaves no socket, timer or request |
| ListenerLock.StepKeepsInvariant | src/bridge/listener-ownership.ts:123-287 | every step of every instance, death and tick keeps the lock in step with its holder |
| ListenerLock.AtMostOneHolder | src/bridge/listener-ownership.ts:123-169 | in every reachable state of any number of processes at most one live instance holds the lock |
| ListenerLock.LiveOwnerIsNeverReclaimed | src/bridge/listener-ownership.ts:171-287 | a lock whose recorded owner lives changes only when that owner refreshes or releases it; it goes away only by the release, and its record stays |
| ListenerLock.FourTries | src/bridge/listener-ownership.ts:126-166 | no instance tries more than four times, and a reclaim leads to the next try or, after the fourth, to failure |
| ListenerLock.SlowInitialisationBreaks | src/bridge/listener-ownership.ts:135-147 | for any bound above five seconds on initialisations there is a run within it in which two live instances hold the lock, whichever processes they live in |
| ListenerLock.GraceIsExact | src/bridge/listener-ownership.ts:123-169 | all runs whose initialisations take less than a bound are exclusive if and only if the bound is at most five seconds |
| ListenerOwnership.BridgeListenerOwnership.Acquire | src/bridge/listener-ownership.ts:123-169 | undisturbed, a run of protocol steps that acquires exactly an absent or stale lock within the attempts, leaves nothing behind if the record cannot be written, and leaves any other lock as it is |
| ListenerOwnership.BridgeListenerOwnership.UpdatePort | src/bridge/listener-ownership.ts:171-181 | a held lock is refreshed by the protocol step, and otherwise nothing happens |
| ListenerOwnership.BridgeListenerOwnership.Release | src/bridge/listener-ownership.ts:187-207 | the release step of the protocol: removes the lock exactly if it is still this instance's |
| DeviceMetadata.ReadDevice | easyeda-bridge-extension/src/device-metadata-operations.ts:67-99 | gives the snapshot exactly if the record is plain data of this device with the parts and the kinds of values that an update can keep |
| DeviceMetadata.SameIsEqual | easyeda-bridge-extension/src/device-metadata-state.ts:23-28 | comparing snapshots is equality |
| DeviceMetadata.CloneOfComplete | easyeda-bridge-extension/src/device-metadata-state.ts:5-21 | a snapshot of a snapshot is itself |
| DeviceMetadata.StripRequested | easyeda-bridge-extension/src/device-metadata-state.ts:71-82 | deleting key by key leaves the record without what was requested |
| DeviceMetadata.VerifiedMeans | easyeda-bridge-extension/src/device-metadata-state.ts:98-141 | verified exactly if, key by key, the fresh record has the requested values where they are requested and everything else as it was, apart from image URLs on reinsertion, whose bytes are then the same |
| DeviceRequests.NoOverlapNoSecondWrite | easyeda-bridge-extension/src/device-metadata-operations.ts:254-328 | in every interleaving no two active requests work on one device and none writes twice |
| DeviceRequests.PreflightDecides | easyeda-bridge-extension/src/device-metadata-operations.ts:290-320 | a request is rejected exactly on a hash that differs, a missing thumbnail or a value that is no text; else it is previewed, found to change nothing, or goes on to its last check |
| DeviceRequests.WritesOnlyAfterMatchingRead | easyeda-bridge-extension/src/device-metadata-operations.ts:126-165 | a write follows a re-read equal to the first read, with the fingerprint and the thumbnail hash that the request expected, as the first of its request, alone on the device |
| DeviceRequests.ReadbackDecides | easyeda-bridge-extension/src/device-metadata-operations.ts:172-222 | in every run: a fresh record as requested, with the same thumbnail bytes, ends verified, and every other ends uncertain or failed as its image and outcome say |
| DeviceRequests.VerifiedIsJustified | easyeda-bridge-extension/src/device-metadata-operations.ts:172-222 | in every reachable state, a request that ended verified has a fresh record that is the first with the requested properties laid over it, and on reinsertion a thumbnail of the same hash |
| DeviceRequests.DeviceMetadataOperations.UpdateDeviceMetadata | easyeda-bridge-extension/src/device-metadata-operations.ts:258-289 | refuses writes without reinsertion and devices in flight |
| DeviceRequests.DeviceMetadataOperations.ApplyNative | easyeda-bridge-extension/src/device-metadata-operations.ts:126-165 | writes exactly if the last read equals the first |
| DeviceRequests.DeviceMetadataOperations.VerifyNative | easyeda-bridge-extension/src/device-metadata-operations.ts:172-222 | ends the request with a status that its record justifies, and frees the device |
| RelayClient.StepKeepsInvariant | easyeda-bridge-extension/src/remote-client.ts:126-163 | every event keeps connection, socket and timers in step |
| RelayClient.ReachableStatesAreConsistent | easyeda-bridge-extension/src/remote-client.ts:126-163 | nothing is left without a desired connection; with one there is a socket or a reconnect to it; a heartbeat implies a socket |
| RelayClient.DesiredIsWanted | easyeda-bridge-extension/src/remote-client.ts:126-163 | in every reachable state the desired connection is that of the last connect; after a disconnect or an invalid connect there is no socket, timer or delay until the next valid one |
| RelayClient.ReplacedSocketIsMute | easyeda-bridge-extension/src/remote-client.ts:189-240 | a replaced socket never becomes current again and its events change nothing |
| RelayClient.AnswersGoToTheAsker | easyeda-bridge-extension/src/remote-client.ts:258-299 | an approval is answered exactly if the socket that asked is still current, on that socket |
| RelayClient.DelaysGrow | easyeda-bridge-extension/src/remote-client.ts:373-393 | delays grow from one second to half a minute, reached at the sixth attempt |
| RelayClient.DelayIsWait | easyeda-bridge-extension/src/remote-client.ts:373-380 | the delays are 1, 2, 4, 8 and 16 seconds, and 30 from the sixth attempt on |
| RelayClient.AttemptsSinceConnect | easyeda-bridge-extension/src/remote-client.ts:373-393 | over any run, the count is the number of reconnects scheduled since the last valid connect |
| RelayClient.KthReconnectWaits | easyeda-bridge-extension/src/remote-client.ts:373-393 | the k-th of them waits as long as k says, half a minute exactly from the sixth on |
| RelayClient.RemoteRelayClient.HandleClose | easyeda-bridge-extension/src/remote-client.ts:359-370 | the current socket's close schedules a reconnect to the desired connection |
| RelayClient.RemoteRelayClient.ReconnectTimerFires | easyeda-bridge-extension/src/remote-client.ts:373-393 | opens a socket for the connection it was set for, or schedules the next try |

## Left out

- FindForeignNetCollision: a clear verdict is compared with all real points only for axis-aligned routes and wires and routes
  of at least two points. For others it says what the code tests: a diagonal segment meets no wire, and only marks at its ends.
- AcceptedIffSimple: claimed on the multiples of a spacing above 0.0001; on finer ones either half fails for some polygon
  (`AcceptanceExactIffResolved`, `UncrossedIffResolved`). Floating-point rounding is not modelled.
- FramesFitIff: is about chunk envelopes with ids that a JSON literal holds as they are, as send makes them; a whole
  message just under half the cap can exceed it once encoded.
- HandleChunk: sequence numbers and totals are integers; a fractional number in an envelope is not modelled, and ReadFrame
  reads numbers in decimal digits only, as send writes them.
- ReadValue: takes any run of letters, digits, signs and points for a number or a word; blanks are not modelled.
- AtMostOneHolder: rests on the assumptions above; the gaps inside a reclaim, a release or a snapshot are not modelled.
- VerifyNative: the device may be edited by others between the last read and the write, as the editor offers no conditional write.
- GroupPreserved: how asset fields are found in a record is an arbitrary function, as the comparison of whole records subsumes it.
- Reading wires, components and pins from the editor, and the parsing of line arrays: they are inputs.
- The fill signature of a poured primitive and the identity of the PCB in focus: they are inputs of the copper rebuild, and
  message texts other than the error of an attempt are not kept.
- Pairing, the checks before a call on method registry and version, metrics, follower relays and port scanning of the bridge.
- Heartbeats of the bridge beyond their timer: a failed one is a disconnect.
- Input validation, thumbnail download and MIME checks of device metadata: they decide whether a request fails its preflight.
- Tool requests and protocol errors of the relay client, which send on the current socket and change no state.
- The native editor itself, sockets, timers and the file system: only their effect on the modelled state is kept.
- The document identity and the collection of outlines around `classifyOutline`, BOM scoring, the device catalog, schemas,
  page-scope checks, the circuit compiler, the command line and the configuration: straight maps or one-branch checks.
