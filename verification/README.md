# Retail-aisle viewer core, modelled in Dafny

This project models the deterministic core of a three.js viewer of a
supermarket aisle, in which shoppers click products on shelves. It proves
properties of that model. The model covers these parts:

- **Product classifier and shelf registry** (`Classifier`, `ShelfModel`,
  `ShelfManager`).
  - A loaded model is an immutable tree of `Node`s, walked in pre-order as
    `Object3D.traverse` walks it.
  - Meshes are accepted or rejected by their trimmed, lower-cased name.
  - Accepted meshes get `<shelf>_product_<k>` ids and a slug product id.
  - Each accepted mesh is written into three places that must agree: the
    shelf's maps, the mesh's `userData` and the reverse index.
  - Selecting, deselecting, looking up and disposing are pure updates of
    that registry.
- **Click and mode machine** (`App`). The SELECT/FOCUS modes, the
  `isAnimating` guard, the parent-chain walk to a product-tagged ancestor,
  the back button, loading progress, the default camera choice and the end
  of setup, and the orbit controls, whose import resolves at some later
  event. All of this is a record updated by pure transition functions.
  `MeshFilter` holds the separate, depth-bounded walk and its keyword filter.
- **Camera** (`FrameCamera`, `CameraManager`).
  - The framing formula, with `tan(fov/2)` as a positive input.
  - The pose machine: a flight starts with controls off; each frame is a
    `lerp` from start to end; completion snaps to the exact end pose.
- **Pointer normalisation** (`Raycaster`): the affine map from pixels to
  [-1, 1]², with Y inverted.
- **Scene cleanup, floors and lighting** (`Floor`, `Environment`):
  - the plane meshes removed after loading;
  - the size, height, name and tiling of the two floor builders;
  - the ambient-light de-duplication.
- **Machine registry** (`Machines`): the same show/hide pattern as shelves,
  without id validation.
- **GLB writer** (`Glb`): the byte layout of the binary glTF container that
  `scripts/generateModels.mjs` writes. It follows section 4, "GLB File
  Format Specification", of the Khronos glTF 2.0 specification: a 12-byte
  header, then a JSON chunk and a BIN chunk, each with an 8-byte chunk
  header, and every u32 little-endian.

Shared modules:

- `Base`: `Option`/`Result`.
- `Strings`: JavaScript `trim`, `toLowerCase`, `includes`, decimal
  formatting and the slug.
- `SceneGraph`: the node tree and the order-keeping filter.
- `Geometry`: `Vec3`, `Box3`, `lerp` and box union.

Three.js objects are identified by a `NodeId`. The following are inputs,
never computed:

- hit lists and parent chains;
- world-space bounding boxes;
- `tan(fov/2)`;
- the animation parameter `t`.

## Model

| member | source | states |
|---|---|---|
| Strings.Trim | src/objects/ShelfManager.ts:68-73 | the trimmed name is the slice left after removing a maximal all-white-space prefix and suffix; a non-empty result neither starts nor ends with white space |
| Strings.TrimEmptyIffAllWhitespace | src/objects/ShelfManager.ts:68 | a name trims to the empty string exactly when it consists only of white space, so the blank-name test rejects exactly the blank names |
| Strings.TrimIdempotent | src/objects/ShelfManager.ts:73 | trimming an already trimmed name changes nothing |
| Strings.Lower | src/objects/ShelfManager.ts:82 | lower-casing keeps the length and maps each character by ASCII case folding, leaving non-letters alone |
| Strings.NatToStringRoundTrip | src/objects/ShelfManager.ts:93 | the decimal counter written into a mesh id reads back as the counter |
| Strings.NatToStringInjective | src/objects/ShelfManager.ts:93 | distinct counters are written as distinct digit strings |
| Strings.CollapseWhitespace | src/objects/ShelfManager.ts:96 | after replacing white-space runs by `_` no white space remains and the string is no longer; a string without white space is unchanged, and a non-empty all-white-space string becomes `_` |
| Strings.CollapseConcat | src/objects/ShelfManager.ts:96 | when no white-space run straddles the seam, rewriting a concatenation is rewriting each part and concatenating |
| Strings.CollapseRun | src/objects/ShelfManager.ts:96 | a white-space run between a part that does not end in white space and one that does not start with it becomes exactly one `_`, with each side rewritten on its own |
| Strings.KeepSlugChars | src/objects/ShelfManager.ts:97 | every character of `[a-z0-9_]` is kept as often as it occurs, every other character is dropped, and only such characters remain |
| Strings.KeepSlugConcat | src/objects/ShelfManager.ts:97 | filtering a concatenation is filtering each part and concatenating, so kept characters stay in their order |
| Strings.KeepSlugSingle | src/objects/ShelfManager.ts:97 | a single character is kept exactly when it is a slug character |
| Strings.SlugCharset | src/objects/ShelfManager.ts:94-97 | every product id holds only lower-case ASCII letters, digits and `_` |
| Strings.SlugFixesSlugs | src/objects/ShelfManager.ts:94-97 | a string already made of `[a-z0-9_]` is its own product id |
| Strings.SlugIdempotent | src/objects/ShelfManager.ts:94-97 | deriving a product id from a product id changes nothing |
| SceneGraph.Flatten | src/objects/ShelfManager.ts:61 | the traversal visits the root first |
| SceneGraph.AcceptedMember | src/utils/environmentUtils.ts:26-28 | an object survives a filter exactly when it was in the list and the filter admits it |
| SceneGraph.SubtreeInFlatten | src/utils/sceneCleanup.ts:10-23 | the traversal of a node reaches every object below each of its children |
| Classifier.GenericNameKeywords | src/objects/ShelfManager.ts:59 | a lower-cased name is structural exactly when it contains "frame", "rack", "support" or "shelf" |
| Classifier.ProductRules | src/objects/ShelfManager.ts:62-90 | a node is registered exactly when it is a mesh with geometry, its trimmed name is longer than 2, and its lower-cased trimmed name contains none of the four structural keywords |
| Classifier.MeshIdInjective | src/objects/ShelfManager.ts:93 | two ordinals give the same `<shelf>_product_<k>` id only when they are equal |
| Classifier.RegData | src/objects/ShelfManager.ts:94-105 | the shelf record of an accepted mesh holds the shelf's id, the mesh id, the trimmed name, that name plus " product", and the slug of that name |
| Classifier.RegTag | src/objects/ShelfManager.ts:107-113 | the tag written on the mesh is a product tag carrying the same product id, name, description and shelf id as the shelf record |
| Classifier.RegistrationsOrdinals | src/objects/ShelfManager.ts:52-136 | the i-th accepted mesh of the pre-order traversal gets ordinal i, and there is one registration per accepted mesh |
| Classifier.RegistrationsDistinctMeshIds | src/objects/ShelfManager.ts:93-123 | the mesh ids of one shelf's registrations are pairwise distinct |
| ShelfModel.NewShelf | src/objects/Shelf.ts:14-30 | a new shelf has no model, no group children and empty product maps, and its group sits at the configured position and rotation |
| ShelfModel.SetModel | src/objects/Shelf.ts:32-45 | the previous model is detached and the new one attached last; every mesh in the new model becomes visible and other visibility flags are kept; the product maps are unchanged |
| ShelfModel.RegisterProduct | src/objects/Shelf.ts:51-58 | the record and the mesh are stored under the same key, so the two maps keep equal key sets; a new key is appended to the insertion order |
| ShelfModel.GetProduct | src/objects/Shelf.ts:60-62 | a record is returned exactly when the key is registered, and it is the stored one |
| ShelfModel.AllProducts | src/objects/Shelf.ts:68-70 | the records come out once each, in insertion order |
| ShelfModel.Show | src/objects/Shelf.ts:76-78 | only the group's visibility changes, and it becomes visible |
| ShelfModel.Hide | src/objects/Shelf.ts:80-82 | only the group's visibility changes, and it becomes hidden |
| ShelfModel.ShowProduct | src/objects/Shelf.ts:84-95 | every registered product mesh is hidden except the one registered under the key, which is shown; an unknown key leaves them all hidden; other meshes keep their flags |
| ShelfModel.ShowAllProducts | src/objects/Shelf.ts:97-101 | every registered product mesh becomes visible and other meshes keep their flags |
| ShelfModel.Dispose | src/objects/Shelf.ts:103-108 | the model is dropped, the group emptied and both product maps cleared |
| ShelfManager.NewRegistry | src/objects/ShelfManager.ts:14-20 | a new registry holds no shelves, no selection, no index entries and no counts |
| ShelfManager.NewRegistryConsistent | src/objects/ShelfManager.ts:14-20 | a new registry satisfies the registry invariant |
| ShelfManager.BuiltShelf | src/objects/ShelfManager.ts:22-47 | the stored shelf carries the configuration; after a failed load it has no model and no products |
| ShelfManager.AddShelf | src/objects/ShelfManager.ts:22-50 | the shelf is always stored under its configured id and other shelves are untouched; a failed load changes no index; a successful load records the accepted-mesh count under the shelf id |
| ShelfManager.AddShelfRegisters | src/objects/ShelfManager.ts:93-119 | after a successful load the k-th accepted mesh is stored under `<id>_product_k` with its trimmed name, slug and description, carries a matching tag, is indexed under the same shelf and mesh id, and every mesh of the model is visible |
| ShelfManager.AddShelfProductOrder | src/objects/ShelfManager.ts:93-135 | the shelf's products are exactly `<id>_product_0` to `<id>_product_(n-1)` in order, with n the count stored for the shelf |
| ShelfManager.AddShelfIndexes | src/objects/ShelfManager.ts:115-119 | every reverse-index entry after a load names a shelf and product that exist and points at the mesh registered under it |
| ShelfManager.AddShelfConsistent | src/objects/ShelfManager.ts:22-50 | adding a shelf with a new id, whose model's node ids are unique and not yet indexed, keeps the registry invariant in both directions: every index entry names a stored product, and every stored product is indexed under its own mesh |
| ShelfManager.AddShelfReachesProducts | src/objects/ShelfManager.ts:93-119 | after adding such a shelf, every product of every shelf, new or old, is indexed under its mesh |
| ShelfManager.LookupEveryProduct | src/objects/ShelfManager.ts:183-211 | in a consistent registry every stored product is found by looking up its mesh, and selecting it returns its record |
| ShelfManager.AddShelfKeepsLookups | src/objects/ShelfManager.ts:22-50 | products of the shelves stored before an add are still found by their meshes afterwards |
| ShelfManager.ReAddLeavesStaleIndex | src/objects/ShelfManager.ts:44-48 | re-adding a shelf id whose load then fails replaces the shelf but keeps the old reverse-index entries, which now name missing products |
| ShelfManager.SelectProduct | src/objects/ShelfManager.ts:138-156 | selection succeeds exactly when the shelf and product exist, and then returns the stored record; failure changes nothing; success records the selection, hides every other shelf and shows only the chosen product on the target shelf |
| ShelfManager.DeselectProduct | src/objects/ShelfManager.ts:158-165 | the selection is cleared and every shelf group and every registered product mesh becomes visible; nothing else changes |
| ShelfManager.SelectConsistent | src/objects/ShelfManager.ts:138-156 | selecting keeps the registry invariant |
| ShelfManager.DeselectConsistent | src/objects/ShelfManager.ts:158-165 | deselecting keeps the registry invariant |
| ShelfManager.SelectOnHiddenShelfHidesAll | src/objects/ShelfManager.ts:147-153 | selecting a product on a hidden shelf succeeds yet leaves every shelf group hidden |
| ShelfManager.FirstWithName | src/objects/ShelfManager.ts:196-199 | the result is the first position holding the name, or none when no record has it |
| ShelfManager.GetProductByMesh | src/objects/ShelfManager.ts:183-211 | an indexed mesh returns its index entry; otherwise a product-tagged mesh returns the first product of its tagged shelf with the tagged name; nothing is returned exactly when neither path finds one |
| ShelfManager.AddThenLookup | src/objects/ShelfManager.ts:183-211 | after a load, looking up the k-th accepted mesh finds `<id>_product_k`, and selecting that returns the record built from the mesh; with `LookupEveryProduct` and `AddShelfKeepsLookups` the same holds for every product of every shelf |
| ShelfManager.LookupSelectable | src/objects/ShelfManager.ts:183-211 | in a consistent registry the lookup of an indexed mesh names a product that can be selected |
| ShelfManager.AisleBoxIsLeastEnclosing | src/objects/ShelfManager.ts:219-226 | the aisle box encloses every shelf's box, is enclosed by any box that encloses them all, and is empty exactly when every shelf box is |
| ShelfManager.Dispose | src/objects/ShelfManager.ts:228-234 | shelves and the reverse index are cleared while the selection, the counts and the written tags stay |
| ShelfManager.DisposeLeavesDanglingSelection | src/objects/ShelfManager.ts:228-234 | a selection made before disposal survives it, names a shelf that no longer exists, and cannot be selected again |
| MeshFilter.ForbiddenNameKeywords | src/utils/meshFilter.ts:37-46 | a lower-cased name is refused exactly when it contains "mat", "helper", "floor" or "collision"; "material" adds nothing |
| MeshFilter.SelectableRules | src/utils/meshFilter.ts:15-48 | a node is selectable exactly when it is a visible mesh whose name is not blank and whose lower-cased name contains no forbidden keyword |
| MeshFilter.TomatoRejected | src/utils/meshFilter.ts:37-46 | a mesh named "Tomato" is never selectable |
| MeshFilter.FirstAccepted | src/utils/meshFilter.ts:62-81 | the walk returns the first admitted node among the first ten of the chain, with the depth reached; none means no such node exists there |
| MeshFilter.FindSelectableProductMesh | src/utils/meshFilter.ts:57-82 | an empty chain gives nothing; otherwise the result is the first selectable node within ten steps, and nothing means none of those nodes is selectable |
| Geometry.Lerp | src/core/CameraManager.ts:50-54 | interpolation gives the start at t = 0 and the end at t = 1 |
| Geometry.LerpReverse | src/core/CameraManager.ts:50-54 | going a fraction t from the start to the end reaches the point a fraction 1 - t back from the end |
| Geometry.LerpBetween | src/core/CameraManager.ts:50-54 | for 0 ≤ t ≤ 1 each interpolated component lies between the start and end components |
| Geometry.UnionAllEncloses | src/objects/ShelfManager.ts:219-226 | the union of a list of boxes encloses each of them |
| Geometry.UnionAllLeast | src/objects/ShelfManager.ts:219-226 | any box enclosing every listed box encloses their union |
| Geometry.UnionAllEmpty | src/objects/ShelfManager.ts:219-226 | the union is the fresh empty box exactly when every listed box is |
| FrameCamera.FrameCameraToBox | src/utils/frameCameraToBox.ts:8-35 | an empty or zero-size box gives position (0,5,10) looking at the origin; otherwise the camera looks at the box centre from directly in front of it, 0.6·maxDim above it and maxDim·padding/(2·tan) back along z |
| FrameCamera.DistanceTimesTan | src/utils/frameCameraToBox.ts:24-25 | the viewing distance times 2·tan(fov/2) equals the padded largest extent |
| FrameCamera.FrameFits | src/utils/frameCameraToBox.ts:24-29 | with padding of at least 1 the box's largest extent fits the vertical view at the framing distance, and exactly fits it with padding 1 |
| FrameCamera.FrameAboveAndInFront | src/utils/frameCameraToBox.ts:24-29 | for a box of positive extent the camera sits above and in front of the box centre |
| FrameCamera.ViewDistanceLinear | src/utils/frameCameraToBox.ts:25 | the distance scales linearly in the largest extent and in the padding |
| CameraManager.NewCameraState | src/core/CameraManager.ts:14-25 | a new camera has a 75° field of view and aspect width/height; the default pose and the targets are the origin; it is not animating and has no controls |
| CameraManager.BeginAnimateToProduct | src/core/CameraManager.ts:27-44 | the flight starts in flight with controls disabled, from the current pose towards the frame of the product's box with padding 1.5; nothing else changes |
| CameraManager.BeginResetCamera | src/core/CameraManager.ts:114-126 | the flight starts in flight with controls disabled, from the current pose towards the stored default pose |
| CameraManager.AnimationFrame | src/core/CameraManager.ts:50-68 | each frame places the camera and the controls' target at the interpolation between the flight's start and end; the flags, targets and default pose are kept |
| CameraManager.CompleteFlight | src/core/CameraManager.ts:69-86 | completion snaps the camera and the stored targets to the flight's end, re-enables the controls aimed at the end target, and clears the animating flag |
| CameraManager.FlightFramesMeetEnds | src/core/CameraManager.ts:50-86 | the frame at t = 0 is the start pose and the frame at t = 1 is the completed pose |
| CameraManager.FramesStayInFlight | src/core/CameraManager.ts:29-34 | frames never re-enable the controls or clear the animating flag |
| CameraManager.ProductFlightLandsOnFrame | src/core/CameraManager.ts:27-89 | after any frames, completing a product flight puts the camera at the frame of the product's box and re-enables the controls |
| CameraManager.FramesKeepDefaults | src/core/CameraManager.ts:50-68 | any sequence of frames keeps the default pose, whether controls exist, and the animating flag |
| CameraManager.SetDefaultAisleView | src/core/CameraManager.ts:91-112 | the default pose becomes the frame of the aisle box with padding 1.3, and the camera and controls snap to it at once |
| CameraManager.ResetReturnsToAisleView | src/core/CameraManager.ts:91-173 | after any frames, a reset following a default-view setup lands exactly on the aisle view with the animating flag cleared and, when there are controls, the controls enabled and aimed at the aisle frame's target |
| CameraManager.UpdateOrbitControls | src/core/CameraManager.ts:203-207 | nothing changes while animating or without controls; otherwise the orbit's pose is taken over |
| CameraManager.OnWindowResize | src/core/CameraManager.ts:175-178 | the aspect becomes width/height and nothing else changes |
| CameraManager.InitOrbitControls | src/core/CameraManager.ts:180-201 | the controls are created enabled, aimed at (0,2,0), and the camera looks there |
| CameraManager.InitOrbitControlsSteersFlights | src/core/CameraManager.ts:180-207 | once the controls exist, flights start turning from their target (0,2,0) and an idle frame looks there; without controls a reset turns from the stored look-at target |
| CameraManager.ResizeLastWins | src/core/CameraManager.ts:175-178 | two resizes in a row are one resize to the second size, whose width over height is the aspect |
| CameraManager.SmallProductFrameInsideMinDistance | src/core/CameraManager.ts:36-37 | for a product box at most 2.5 units across and a field of view of at least 73.7°, the frame a product flight targets lies closer than 3 units to its look-at point, inside the controls' minimum distance |
| CameraManager.MountPoseInsideMinDistance | src/core/CameraManager.ts:180-201 | the pose right after the controls are created lies 2 units from their target, inside the minimum distance of 3 |
| CameraManager.SetControlsEnabled | src/core/CameraManager.ts:209-219 | only the controls' enabled flag changes |
| Raycaster.NormalizePointer | src/core/RaycasterManager.ts:12-15 | the left and right edges map to x = -1 and 1, the top and bottom edges to y = 1 and -1, and a pixel on the canvas lands in [-1, 1]² |
| Raycaster.NormalizeRoundTrip | src/core/RaycasterManager.ts:12-15 | the map is invertible: denormalising the normalised pointer gives back the pixel |
| Raycaster.DenormalizeRoundTrip | src/core/RaycasterManager.ts:12-15 | normalising a denormalised pointer gives back the pointer |
| Raycaster.PixelStepsFollowAspect | src/core/RaycasterManager.ts:12-15 | when the aspect is the canvas's width over its height, a horizontal pixel step times the aspect moves the pointer as far as the same vertical step |
| Raycaster.NormalizeMonotone | src/core/RaycasterManager.ts:13-14 | x strictly increases with the pixel column and y strictly decreases with the pixel row |
| Floor.DefaultPlanes | src/utils/sceneCleanup.ts:10-23 | only plane meshes not named "dynamic-floor" are collected |
| Floor.DefaultPlanesExact | src/utils/sceneCleanup.ts:10-23 | an object is collected exactly when it is in the scene, is a plane mesh and is not named "dynamic-floor" |
| Floor.RemoveDefaultPlanes | src/utils/sceneCleanup.ts:7-40 | every collected plane is disposed; a direct child stays exactly when it was not collected; the rest of the scene is unchanged |
| Floor.RemoveDefaultPlanesDirect | src/utils/sceneCleanup.ts:25-35 | a direct child of the scene stays exactly when it is not a default plane |
| Floor.NestedPlaneStaysAttached | src/utils/sceneCleanup.ts:25-35 | a default plane under a child that stays is disposed but remains reachable from the scene |
| Floor.BaseFloorSize | src/utils/sceneCleanup.ts:51-56 | the base size is the larger of the box's two horizontal extents |
| Floor.FloorY | src/utils/sceneCleanup.ts:73 | the floor sits 0.05 below the box's lowest point; the fresh empty box gives no finite height |
| Floor.CreateBoundingBoxFloor | src/utils/sceneCleanup.ts:46-113 | the floor is a square plane 1.3 times the larger horizontal extent, 0.05 under the box, named "dynamic-floor"; its x and z stay 0 |
| Floor.CreateDynamicFloor | src/utils/floorUtils.ts:6-42 | the floor has the same side and height as the bounding-box floor but no name, so it counts as a default plane |
| Floor.CleanupKeepsOnlyMarkedFloor | src/utils/sceneCleanup.ts:7-76 | a later cleanup keeps the bounding-box floor and collects, disposes and detaches the dynamic floor |
| Floor.TileRepeatPerFiveUnits | src/utils/sceneCleanup.ts:87-94 | a five-unit floor gets one repeat and the count adds up over joined floors, so the texture repeats once per five world units on both axes |
| Floor.ApplyTiledTexture | src/utils/floorUtils.ts:44-87 | only a plane mesh is tiled; the count is its width over 0.5, or 1 over 0.5 for a zero width |
| Floor.BoundingBoxFloorMissesOffsetBox | src/utils/sceneCleanup.ts:70-76 | a box away from the origin is not under its floor, because the floor stays at x = z = 0 |
| Floor.BoundingBoxFloorCoversCentredBox | src/utils/sceneCleanup.ts:51-76 | a non-empty box centred over the origin is fully under its floor |
| Environment.NewAmbientLight | src/utils/environmentUtils.ts:31 | the new light is ambient with intensity 0.7 |
| Environment.AddAmbientLighting | src/utils/environmentUtils.ts:24-35 | the children become the old non-ambient children in their order, followed by the new light |
| Environment.FilteredHasNoAmbient | src/utils/environmentUtils.ts:26-28 | no ambient light survives the filter |
| Environment.AmbientLightingUnique | src/utils/environmentUtils.ts:24-32 | afterwards there is exactly one ambient light among the direct children, and every other child is exactly a former non-ambient child |
| Environment.AmbientLightingTwice | src/utils/environmentUtils.ts:24-32 | calling it again keeps exactly one ambient light and the same number of children |
| Machines.NewMachine | src/objects/Machine.ts:13-22 | a new machine copies id, name, description, path and position, and has no model |
| Machines.SetModel | src/objects/Machine.ts:24-30 | the previous model is detached, the new one attached last and recorded; nothing else changes |
| Machines.CreateFallbackModel | src/objects/Machine.ts:32-43 | the fallback installs a 2×3×2 box through the same model setter |
| Machines.SetVisible | src/objects/Machine.ts:49-55 | only the group's visibility changes |
| Machines.DisposeMachine | src/objects/Machine.ts:57-60 | the group is cleared and the model dropped |
| Machines.NewMachineManager | src/objects/MachineManager.ts:11-15 | a new manager holds no machines and no selection |
| Machines.AddMachine | src/objects/MachineManager.ts:17-29 | the machine is always stored under its id and always has a model, the fallback box after a failed load; other machines and the selection are untouched |
| Machines.GetMachine | src/objects/MachineManager.ts:31-33 | a machine is returned exactly when its id is stored |
| Machines.SelectMachine | src/objects/MachineManager.ts:35-45 | the selection is set to the id unchecked; the machine with that id is shown and every other one hidden |
| Machines.SelectMachineShowsOnlyTarget | src/objects/MachineManager.ts:35-45 | after selection a machine is visible exactly when it has the id, so an unknown id hides every machine |
| Machines.DeselectMachine | src/objects/MachineManager.ts:47-53 | the selection is cleared and every machine shown |
| Machines.SelectThenDeselect | src/objects/MachineManager.ts:35-53 | deselecting after any selection leaves every machine visible and nothing selected |
| Machines.GetSelectableObjects | src/objects/MachineManager.ts:59-61 | one group per stored machine, in insertion order |
| Machines.SelectableCount | src/objects/MachineManager.ts:59-61 | there are exactly as many selectable groups as stored machines |
| Machines.GetMachineByGroup | src/objects/MachineManager.ts:63-73 | a returned machine owns the group directly or as a direct child; nothing is returned only when no machine owns it |
| Machines.GetMachineByGroupFirst | src/objects/MachineManager.ts:63-73 | when the j-th machine owns the group, one at or before position j is returned |
| Machines.Dispose | src/objects/MachineManager.ts:75-80 | the machines are cleared and the selection is left untouched |
| Glb.U32LE | scripts/generateModels.mjs:146-159 | a u32 field is written as four bytes |
| Glb.U32RoundTrip | scripts/generateModels.mjs:146-159 | reading the four bytes little-endian gives back the written value |
| Glb.PaddedLength | scripts/generateModels.mjs:137-138 | the padded length is a multiple of 4, at least the length and less than the length plus 4 |
| Glb.PadJsonAsWritten | scripts/generateModels.mjs:137-142 | the JSON bytes are kept and the padding repeats the JSON from its start |
| Glb.PadJsonAsWrittenNotSpaces | scripts/generateModels.mjs:139-142 | for the JSON `{}` the padding bytes are `{}` rather than spaces |
| Glb.PadJsonAsWrittenRepeatsStart | scripts/generateModels.mjs:137-142 | for JSON of at least three bytes the as-written padding is the JSON's own first bytes, and nothing when the length is already a multiple of 4 |
| Glb.PadJson | scripts/generateModels.mjs:137-142 | the JSON bytes are kept and followed by spaces up to the next multiple of 4 |
| Glb.PadBin | scripts/generateModels.mjs:156-159 | the binary bytes are kept and followed by zeros up to the next multiple of 4 |
| Glb.Assemble | scripts/generateModels.mjs:145-168 | the container is produced exactly when its total length fits in a u32, and its length is that total |
| Glb.AssembleLayout | scripts/generateModels.mjs:145-168 | the header holds the magic, version 2 and the total length; the JSON chunk header holds its length and type, followed by the JSON; the BIN chunk header holds its length and type, followed by the binary data |
| Glb.ParseGlb | scripts/generateModels.mjs:145-168 | a container that parses has the total length its chunks imply |
| Glb.AssembleRoundTrip | scripts/generateModels.mjs:145-168 | parsing an assembled container gives back both chunks |
| Glb.CreateGlbAsWritten | scripts/generateModels.mjs:137-168 | the written length counts the padded JSON and the unpadded binary chunk |
| Glb.BinUnpaddedAsWritten | scripts/generateModels.mjs:156-159 | a two-byte binary chunk is written with chunk length 2, which is not a multiple of 4 |
| Glb.CreateGlb | scripts/generateModels.mjs:137-168 | with both chunks padded the container length is their padded total and a multiple of 4 |
| Glb.CreateGlbChunks | scripts/generateModels.mjs:137-168 | parsing the created container gives back the padded JSON and binary chunks |
| Glb.BufferViews | scripts/generateModels.mjs:118-130 | the three views are contiguous from offset 0 and together span the whole buffer |
| Glb.CubeViewsAsWrittenTooShort | scripts/generateModels.mjs:64-131 | the byte-per-element copies give views too short for the accessors: 24 bytes for a 96-byte position accessor |
| Glb.CubeIndexTypeAsWrittenMisreads | scripts/generateModels.mjs:113 | read as 32-bit indices, the 72-byte index view is asked for 144 bytes |
| Glb.CubeLayoutFits | scripts/generateModels.mjs:96-131 | with full-width copies and 16-bit indices every accessor exactly fills its view, and the buffer is 264 bytes |
| App.InitialState | src/App.tsx:20-24 | the viewer starts in SELECT, not animating, with setup incomplete, nothing selected, no flight, no controls yet, and the camera's aspect matching the window |
| App.ControlsReadyStep | src/core/CameraManager.ts:180-201 | when the controls' import resolves they exist from then on, created enabled and aimed at (0,2,0) if they were missing; nothing else changes |
| App.InitialStateInv | src/App.tsx:20-24 | the initial state satisfies the viewer invariant |
| App.FirstProductTagged | src/App.tsx:188-204 | the walk stops at the first node of the chain whose tag is a product tag; none means no node of the chain has one |
| App.ClickIntent | src/App.tsx:165-236 | a click in FOCUS, before setup completes, without the collaborators or during a flight changes nothing, and so does a click whose chain holds no product-tagged node |
| App.ClickOutcomes | src/App.tsx:206-232 | a failed lookup changes nothing; a refused selection stays in SELECT, not animating, with the registry unchanged and the controls enabled; a successful one records the selection and starts a product flight to the frame of the clicked mesh |
| App.FlightDoneStep | src/App.tsx:216-222 | completing a product flight enters FOCUS and completing a reset flight enters SELECT; either way the camera lands and the controls are re-enabled |
| App.BackStep | src/App.tsx:276-288 | back does nothing while animating; otherwise it clears the selection, deselects in the registry and starts the reset flight |
| App.BackThenDone | src/App.tsx:276-288 | back followed by the end of its flight returns to SELECT with nothing selected and the camera at the default pose |
| App.TickStep | src/App.tsx:154-161 | a frame moves the camera along the pending flight, or passes the orbit pose through when no flight runs |
| App.ResizeStep | src/App.tsx:238-247 | a resize records the new size and sets the camera aspect to width/height |
| App.ResizeThenPointer | src/App.tsx:238-247 | after a resize the canvas corners map to (-1, 1) and (1, -1) under the current size |
| App.ClickKeepsInv | src/App.tsx:165-236 | a click keeps the viewer invariant |
| App.BackKeepsInv | src/App.tsx:276-288 | back keeps the viewer invariant |
| App.StepKeepsInv | src/App.tsx:154-288 | every event, including the controls arriving, keeps the viewer invariant: a flight is pending exactly while the app and the camera manager are animating, existing controls are enabled when no flight runs, the camera's aspect is the viewport's width over its height, the selection agrees with the registry's, and FOCUS needs a selection |
| App.StepKeepsControlsOff | src/App.tsx:154-288 | every event except controls arriving mid-flight keeps the controls switched off while a flight is pending |
| App.ControlsReadyMidFlight | src/core/CameraManager.ts:180-201 | controls that arrive during a flight come in enabled while the flight is still pending |
| App.ControlsReadyThenFlight | src/core/CameraManager.ts:40-42 | before the controls exist a flight would turn from the stored look-at target; once they arrive it turns from (0,2,0), with the camera left where it was |
| App.PointerMatchesAspect | src/App.tsx:238-247 | with the aspect the invariant keeps, equal pixel steps across and down move the picking pointer in the proportions the camera draws |
| App.FocusOnlyAfterSelection | src/App.tsx:211-222 | FOCUS is entered only when a product flight completes, with a registered product selected |
| App.ProductFlightOnlyFromSelection | src/App.tsx:206-227 | a product flight starts only from a click whose product was selected |
| App.ReportProgress | src/App.tsx:56-58 | reported progress is the value capped at 99 |
| App.SetupReports | src/App.tsx:95-148 | setup reports one value per shelf and then two more |
| App.ShelfProgressMonotone | src/App.tsx:95-100 | per-shelf progress is positive, never decreases and stays within 80 |
| App.SetupReportsMonotone | src/App.tsx:95-148 | the reported values never decrease, never exceed 99 and end at 99, so the `loadingProgress` state never reaches 100 |
| App.SizeTestsAgree | src/App.tsx:137-145 | the box size has positive length exactly when its largest component is non-zero |
| App.DefaultView | src/App.tsx:137-145 | an aisle box of positive size sets the aisle view; otherwise the camera is placed at (0,5,15) looking at the origin; either way the animating flag, the aspect, the presence of controls and their enabled flag are kept |
| App.DefaultViewFramesAisle | src/App.tsx:137-145 | for an aisle of positive size the camera ends at the frame of the aisle box with padding 1.3 |
| App.FloorShelf | src/App.tsx:120-123 | the floor is built from the first stored shelf, which exists exactly when some shelf is stored |
| App.SetupFloor | src/App.tsx:120-126 | a floor is built exactly when a shelf is stored |
| App.FloorFromFirstShelf | src/App.tsx:120-126 | the floor's side is at least 1.3 times the first shelf's box along both horizontal axes, and the floor covers that box when the box is centred over the origin |
| App.FinishSetup | src/App.tsx:108-152 | setup completes; when mounted, every shelf is shown, the default view is applied to the aisle box and progress ends at 99 |
| App.FinishSetupKeepsInv | src/App.tsx:108-152 | finishing setup keeps the viewer invariant |
| App.StaleClickStillSelects | src/App.tsx:165-181 | in FOCUS or during a flight the intended guard ignores a click on a product, while the handler as written starts a new product flight |
| App.MountSizePointerMisplaced | src/App.tsx:183 | after the window shrinks from 1000×800 to 500×400, the bottom-right corner is meant as (1, -1) but is read as (0, 0) |

## Left out

- Raycaster.getIntersects: it only logs and returns three.js's hit list, so hit lists are an input (`Scene.hits`).
- Three.js internals: `Box3.setFromObject`, world matrices and ray intersection order are library behaviour. World boxes are inputs (`boxOf`).
- Animation timing: gsap tweens, the `power2.inOut` easing and the frame loop are left out. Only the start of a flight, one frame at a given `t`, and the completion are modelled. Overlapping flights are not cancelled by the source, and no cancel logic is modelled.
- `Math.tan`, `degToRad` and π are left out: `tan(fov/2)` is a positive real input. The floor's rotation is not modelled.
- Floating point: geometry is over exact reals. There is no rounding, Infinity or NaN; the empty box's +Infinity floor height is `None`.
- `ModelLoader.ts` and `TextureLoader` callbacks are left out: a load is an input that either yields a node tree or fails.
- `setupSupermarketEnvironment` and its lighting setup are left out.
- `Renderer.ts`, `SceneManager.ts`, `Floor.ts` (canvas grid drawing), `LoadingOverlay.tsx` and `InfoPanel.tsx` are rendering and UI, and are left out. `LoadingOverlay` declares no `progress` prop, so the `loadingProgress` state App passes it is not what the overlay displays; the overlay's own bar and text are not modelled.
- JSON serialisation of the glTF document is left out: the JSON chunk is a byte sequence.
- The file write of the generated models is left out.
- Byte contents: the bytes `Buffer.from` produces are left out. Only the lengths of the views that follow from them are modelled.
- The random machine colour is left out.
- Console logging throughout is left out.
- React runtime semantics are left out: re-renders, state batching, effect scheduling and the refs. The missing-collaborator test is a single `mounted` flag.
- Setup's loop of `addShelf` calls is left out as a loop. The registry it builds is the state `FinishSetup` starts from.
- Strings.Lower: maps only the ASCII letters A-Z, where `toLowerCase` also lower-cases letters outside ASCII.
- Strings: lengths count characters rather than UTF-16 code units.
- Raycaster.NormalizePointer: requires a non-zero width and height, where the source would divide by zero and produce Infinity or NaN.
- CameraManager.NewCameraState: requires a non-zero height, because an aspect of width/0 is not a real number.
- CameraManager.OnWindowResize: requires a non-zero height for the same reason.
- App.ResizeStep: requires a positive width and height, the sizes a browser window reports.
- CameraManager.CompleteFlight: models `orbitControls.update()` (CameraManager.ts:78) as leaving the camera where the flight put it, while three.js's update damps the motion and clamps the distance to the target to [3, 50] (set at CameraManager.ts:198-199); `SmallProductFrameInsideMinDistance` shows that a small product's frame lies inside that clamp, so the landed pose is not promised for such products.
- CameraManager.ProductFlightLandsOnFrame: promises the exact frame only up to the same clamp, for the same reason.
- CameraManager.AnimationFrame: the per-frame `update()` calls (CameraManager.ts:61, 145) are modelled as not moving the camera; damping and the [3, 50] clamp are not modelled.
- CameraManager.SetDefaultAisleView: the `update()` at CameraManager.ts:110 is modelled as not moving the camera; an aisle view closer than 3 or farther than 50 units would be clamped.
- CameraManager.ResetReturnsToAisleView: lands on the aisle view only up to the clamp of the `update()` at CameraManager.ts:162.
- CameraManager.InitOrbitControls: the `update()` at CameraManager.ts:200 is modelled as not moving the camera; `MountPoseInsideMinDistance` shows that the pose at that moment lies 2 units from the target, inside the minimum distance of 3, so the real camera is pushed out.
- App.ControlsReadyStep: the controls' import may resolve during a flight; the controls then come in enabled while the flight runs (`ControlsReadyMidFlight`), so the invariant that the controls are off during a flight holds only for controls that existed when the flight started.
- FrameCamera.FrameCameraToBox: requires `tan(fov/2) > 0`, which holds for every field of view between 0° and 180°.

## Findings

| source | as written | input that shows it | evidently intended | confidence | as-written member | corrected member |
|---|---|---|---|---|---|---|
| scripts/generateModels.mjs:137-142 | `Buffer.alloc(paddedLength, jsonBuffer)` fills the padded JSON chunk by repeating the JSON bytes | JSON `{}`: the chunk is `{}{}`. Latent for the script's own cube documents: they are 744 bytes as written, a multiple of 4, so nothing is padded; with the views of lines 64-68 copying the full bytes they grow to 746 bytes and the pad is `{"` (`PadJsonAsWrittenRepeatsStart`) | pad with spaces (0x20), as section 4 of the glTF 2.0 specification requires | not executed | Glb.PadJsonAsWrittenNotSpaces | Glb.PadJson |
| scripts/generateModels.mjs:156-159 | the BIN chunk is written with its raw length, unpadded | a 2-byte binary chunk: its chunk length field is 2, not a multiple of 4. Latent for the script's own cubes: the BIN chunk is 84 bytes as written and 264 bytes with full-width copies (`CubeLayoutFits`), both multiples of 4 | pad the BIN chunk with zeros to a multiple of 4 | not executed | Glb.BinUnpaddedAsWritten | Glb.CreateGlb |
| scripts/generateModels.mjs:113 | the index accessor declares componentType 5125 (32-bit) over `Uint16Array` data | the cube's 36 indices: the accessor needs 144 bytes but the view holds 72 | declare 5123 (16-bit) for 16-bit index data | not executed | Glb.CubeIndexTypeAsWrittenMisreads | Glb.CubeLayoutFits |
| scripts/generateModels.mjs:64-68 | `Buffer.from(typedArray)` copies one byte per element | the cube's 24 float positions: the view holds 24 bytes while the accessor needs 96 | copy the typed array's underlying bytes (`Buffer.from(array.buffer)`) | not executed | Glb.CubeViewsAsWrittenTooShort | Glb.CubeLayoutFits |
| src/App.tsx:165-181 | the click handler is created once at mount and reads the initial mode and animating flag | a click on a product while in FOCUS or during a flight starts a new product flight | ignore clicks outside SELECT mode and during a flight | not executed | App.StaleClickStillSelects | App.ClickIntent |
| src/App.tsx:183 | the pointer is normalised against the window size read at mount | mount at 1000×800, resize to 500×400, click at (500, 400): read as (0, 0) | normalise against the current size, giving (1, -1) | not executed | App.MountSizePointerMisplaced | App.ResizeThenPointer |
