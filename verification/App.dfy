/**
 * The viewer's interaction controller (`App.tsx`): the SELECT / FOCUS mode
 * machine, the click handler with its guards and its walk up the hit
 * object's parents, the "back to floor" handler, the loading progress and
 * the choice of the default camera view.
 *
 * A camera flight is split into the handler's synchronous part (up to the
 * `await`) and its completion (`FlightDone`); between the two, animation
 * frames may run. The raycast is an input: `hits(pointer)` is the nearest
 * hit object followed by its ancestors, empty when nothing is hit.
 */
module App {
  import opened Base
  import opened Geometry
  import opened SceneGraph
  import opened ShelfModel
  import opened ShelfManager
  import opened CameraManager
  import opened FrameCamera
  import opened Raycaster
  import Floor

  datatype Mode = Select | Focus

  /** The flight an awaiting handler is waiting for. */
  datatype Pending = ProductFlight(flight: Flight) | ResetFlight(flight: Flight)

  /** The React state and the refs the handlers use. `mounted` says the
      canvas, raycaster, camera and shelf-manager refs are all set;
      `mountWidth`/`mountHeight` are the window size read when the effect
      ran, `viewWidth`/`viewHeight` the current one. */
  datatype AppState = AppState(
    mode: Mode,
    isAnimating: bool,
    setupComplete: bool,
    mounted: bool,
    selectedProduct: Option<ProductData>,
    registry: Registry,
    camera: CameraState,
    pending: Option<Pending>,
    mountWidth: real,
    mountHeight: real,
    viewWidth: real,
    viewHeight: real,
    progress: real)

  /** What the handlers learn from three.js: the hit chain under a pointer,
      the bounding box of a mesh, and the tangent of half the camera's
      field of view. */
  datatype Scene = Scene(hits: Pointer -> seq<Node>, boxOf: Node -> Box3, tanHalfFov: real)

  datatype Event =
    | Click(clientX: real, clientY: real)
    | AnimationTick(t: real)
    | FlightDone
    | Back
    | Resize(width: real, height: real)
    | ControlsReady

  /** The state right after mounting, before any shelf is loaded. The orbit
      controls do not exist yet: `initOrbitControls` is started but not
      awaited, and they arrive later (`ControlsReady`). */
  function InitialState(width: real, height: real): (app: AppState)
    requires width > 0.0 && height > 0.0
    ensures app.mode == Select && !app.isAnimating && !app.setupComplete
    ensures app.selectedProduct.None? && app.pending.None?
    ensures app.camera.controls.None? && app.camera.camera.aspect * height == width
  {
    AppState(Select, false, false, true, None, NewRegistry(), NewCameraState(width, height), None,
             width, height, width, height, 0.0)
  }

  // ---------------------------------------------------------------------
  // the parent-chain walk
  // ---------------------------------------------------------------------

  /** `while (clickedMesh && clickedMesh.userData?.type !== "product")
      clickedMesh = clickedMesh.parent`: the position in the chain of the
      first object whose live `userData` marks a product. */
  function FirstProductTagged(reg: Registry, chain: seq<Node>): (r: Option<nat>)
    ensures r.Some? ==> r.value < |chain| && LiveTag(reg, chain[r.value]).ProductTag?
    ensures r.Some? ==> forall i :: 0 <= i < r.value ==> !LiveTag(reg, chain[i]).ProductTag?
    ensures r.None? ==> forall i :: 0 <= i < |chain| ==> !LiveTag(reg, chain[i]).ProductTag?
  {
    if |chain| == 0 then None
    else if LiveTag(reg, chain[0]).ProductTag? then Some(0)
    else match FirstProductTagged(reg, chain[1..])
      case None => None
      case Some(i) => Some(i + 1)
  }

  // ---------------------------------------------------------------------
  // the click handler
  // ---------------------------------------------------------------------

  /** `raycasterRef.current.setMousePosition(event, width, height)` with the
      current viewport size. */
  function ViewPointer(app: AppState, clientX: real, clientY: real): Pointer
    requires app.viewWidth > 0.0 && app.viewHeight > 0.0
  {
    NormalizePointer(clientX, clientY, app.viewWidth, app.viewHeight)
  }

  /** The handler's body after the mode test. `seenMode` and `seenAnimating`
      are the values its two guards read. */
  function ClickWith(app: AppState, seenMode: Mode, seenAnimating: bool, pointer: Pointer, scene: Scene): (r: AppState)
    requires scene.tanHalfFov > 0.0
  {
    if seenMode != Select then app
    else if !app.setupComplete || !app.mounted || seenAnimating then app
    else
      var chain := scene.hits(pointer);
      match FirstProductTagged(app.registry, chain)
      case None => app
      case Some(i) =>
        var mesh := chain[i];
        match GetProductByMesh(app.registry, mesh)
        case None => app.(isAnimating := false)
        case Some(sel) =>
          var camera := SetControlsEnabled(app.camera, false);
          var selected := SelectProduct(app.registry, sel.shelfId, sel.meshId);
          if selected.1.Some? then
            var flight := BeginAnimateToProduct(camera, scene.boxOf(mesh), scene.tanHalfFov);
            app.(isAnimating := true, selectedProduct := selected.1, registry := selected.0,
                 camera := flight.0, pending := Some(ProductFlight(flight.1)))
          else
            app.(camera := SetControlsEnabled(camera, true), isAnimating := false)
  }

  /** `handleCanvasClick` as its guards intend: it reads the current mode
      and animation flag, and normalises the pointer against the current
      viewport. */
  function ClickIntent(app: AppState, clientX: real, clientY: real, scene: Scene): (r: AppState)
    requires app.viewWidth > 0.0 && app.viewHeight > 0.0 && scene.tanHalfFov > 0.0
    ensures app.mode == Focus ==> r == app
    ensures !app.setupComplete || !app.mounted || app.isAnimating ==> r == app
    ensures FirstProductTagged(app.registry, scene.hits(ViewPointer(app, clientX, clientY))).None? ==> r == app
  {
    ClickWith(app, app.mode, app.isAnimating, ViewPointer(app, clientX, clientY), scene)
  }

  /** What an accepted click does once the walk has found a product-tagged
      object: a failed lookup changes nothing; a successful lookup whose
      selection fails re-enables the controls and clears the flag; a
      successful selection records the product, and starts the flight to
      the object's box with the flag up, still in SELECT mode. */
  lemma ClickOutcomes(app: AppState, clientX: real, clientY: real, scene: Scene)
    requires app.viewWidth > 0.0 && app.viewHeight > 0.0 && scene.tanHalfFov > 0.0
    requires app.mode == Select && app.setupComplete && app.mounted && !app.isAnimating
    requires FirstProductTagged(app.registry, scene.hits(ViewPointer(app, clientX, clientY))).Some?
    ensures var chain := scene.hits(ViewPointer(app, clientX, clientY));
      var mesh := chain[FirstProductTagged(app.registry, chain).value];
      var r := ClickIntent(app, clientX, clientY, scene);
      && (GetProductByMesh(app.registry, mesh).None? ==> r == app)
      && (GetProductByMesh(app.registry, mesh).Some? ==>
            var sel := GetProductByMesh(app.registry, mesh).value;
            var selected := SelectProduct(app.registry, sel.shelfId, sel.meshId);
            && (selected.1.None? ==>
                  && r.mode == Select && !r.isAnimating && r.pending == app.pending && r.registry == app.registry
                  && (r.camera.controls.Some? ==> r.camera.controls.value.enabled))
            && (selected.1.Some? ==>
                  && r.mode == Select && r.isAnimating
                  && r.selectedProduct == selected.1 && r.registry == selected.0
                  && r.pending == Some(ProductFlight(ToProduct(app.camera.camera.position,
                       StartTarget(app.camera), FrameCameraToBox(scene.boxOf(mesh), scene.tanHalfFov, ProductPadding))))))
  {
  }

  // ---------------------------------------------------------------------
  // the other events
  // ---------------------------------------------------------------------

  /** The end of an awaited flight. After a product flight: `enableFocusMode`,
      controls on, flag down. After a reset: controls on,
      `enableSelectionMode`, flag down. */
  function FlightDoneStep(app: AppState): (r: AppState)
    ensures app.pending.None? ==> r == app
    ensures app.pending.Some? ==> r.pending.None? && !r.isAnimating
    ensures app.pending.Some? && app.pending.value.ProductFlight? ==> r.mode == Focus
    ensures app.pending.Some? && app.pending.value.ResetFlight? ==> r.mode == Select
    ensures app.pending.Some? ==> r.camera == SetControlsEnabled(CompleteFlight(app.camera, app.pending.value.flight), true)
    ensures r.selectedProduct == app.selectedProduct && r.registry == app.registry
  {
    match app.pending
    case None => app
    case Some(p) =>
      var camera := SetControlsEnabled(CompleteFlight(app.camera, p.flight), true);
      app.(camera := camera, pending := None, isAnimating := false,
           mode := if p.ProductFlight? then Focus else Select)
  }

  /** `handleBackToFloor`, up to its `await`: ignored while animating (the
      mode is not consulted); otherwise the flag goes up, the controls off,
      the selection is cleared in the app and in the registry, and the
      reset flight starts. */
  function BackStep(app: AppState): (r: AppState)
    ensures !app.mounted || app.isAnimating ==> r == app
    ensures app.mounted && !app.isAnimating ==>
      && r.isAnimating && r.selectedProduct.None?
      && r.registry == DeselectProduct(app.registry)
      && r.pending.Some? && r.pending.value.ResetFlight?
      && InFlight(r.camera)
      && r.mode == app.mode
  {
    if !app.mounted || app.isAnimating then app
    else
      var flight := BeginResetCamera(SetControlsEnabled(app.camera, false));
      app.(isAnimating := true, selectedProduct := None, registry := DeselectProduct(app.registry),
           camera := flight.0, pending := Some(ResetFlight(flight.1)))
  }

  /** One frame of the render loop: the orbit controls update (to
      `orbited`), then the running tween, if any, moves the camera. While a
      flight runs the controls leave the camera alone, so only the tween
      moves it. */
  function TickStep(app: AppState, t: real, orbited: Vec3): (r: AppState)
    ensures AppInv(app) && app.pending.Some? ==> r.camera == AnimationFrame(app.camera, app.pending.value.flight, t)
    ensures app.pending.None? ==> r.camera == UpdateOrbitControls(app.camera, orbited)
    ensures r == app.(camera := r.camera)
  {
    var camera := UpdateOrbitControls(app.camera, orbited);
    match app.pending
    case None => app.(camera := camera)
    case Some(p) => app.(camera := AnimationFrame(camera, p.flight, t))
  }

  /** `handleWindowResize`: the viewport and the camera's aspect follow the window. */
  function ResizeStep(app: AppState, width: real, height: real): (r: AppState)
    requires width > 0.0 && height > 0.0
    ensures r.viewWidth == width && r.viewHeight == height
    ensures r.camera == OnWindowResize(app.camera, width, height)
    ensures r == app.(viewWidth := width, viewHeight := height, camera := r.camera)
  {
    app.(viewWidth := width, viewHeight := height, camera := OnWindowResize(app.camera, width, height))
  }

  /** The dynamic import of `OrbitControls` resolving: `initOrbitControls`
      finishes and the controls exist from then on, enabled and orbiting
      (0, 2, 0), whatever the app is doing. It resolves once; a state that
      already has controls is left alone. */
  function ControlsReadyStep(app: AppState): (r: AppState)
    ensures r.camera.controls.Some?
    ensures app.camera.controls.None? ==> r.camera == InitOrbitControls(app.camera)
    ensures app.camera.controls.Some? ==> r == app
    ensures r == app.(camera := r.camera)
  {
    if app.camera.controls.Some? then app else app.(camera := InitOrbitControls(app.camera))
  }

  predicate EventOk(e: Event) {
    e.Resize? ==> e.width > 0.0 && e.height > 0.0
  }

  /** One event, handled as the handlers intend. */
  function Step(app: AppState, e: Event, scene: Scene, orbited: Vec3): AppState
    requires app.viewWidth > 0.0 && app.viewHeight > 0.0 && scene.tanHalfFov > 0.0
    requires EventOk(e)
  {
    match e
    case Click(x, y) => ClickIntent(app, x, y, scene)
    case AnimationTick(t) => TickStep(app, t, orbited)
    case FlightDone => FlightDoneStep(app)
    case Back => BackStep(app)
    case Resize(w, h) => ResizeStep(app, w, h)
    case ControlsReady => ControlsReadyStep(app)
  }

  // ---------------------------------------------------------------------
  // the controller invariant
  // ---------------------------------------------------------------------

  /** The registry is consistent; a handler awaits a flight exactly while
      the app's flag is up, and the camera manager's flag agrees; when no
      flight runs, existing controls are enabled; the camera's aspect is the
      viewport's width over its height; the app's selection and the
      registry's agree; a product flight is started only in SELECT mode for
      a recorded selection; FOCUS mode always has a selection, except while
      the reset flight that ends it runs. */
  predicate AppInv(app: AppState) {
    && Consistent(app.registry)
    && app.viewWidth > 0.0 && app.viewHeight > 0.0
    && (app.pending.Some? <==> app.isAnimating)
    && app.camera.isAnimating == app.isAnimating
    && (!app.isAnimating && app.camera.controls.Some? ==> app.camera.controls.value.enabled)
    && app.camera.camera.aspect == app.viewWidth / app.viewHeight
    && (app.selectedProduct.Some? <==> app.registry.selectedProduct.Some?)
    && (app.pending.Some? && app.pending.value.ProductFlight? ==> app.mode == Select && app.selectedProduct.Some?)
    && (app.mode == Focus ==> app.selectedProduct.Some? || (app.pending.Some? && app.pending.value.ResetFlight?))
  }

  lemma InitialStateInv(width: real, height: real)
    requires width > 0.0 && height > 0.0
    ensures AppInv(InitialState(width, height))
  {
    NewRegistryConsistent();
  }

  lemma ClickKeepsInv(app: AppState, x: real, y: real, scene: Scene)
    requires AppInv(app) && scene.tanHalfFov > 0.0
    ensures AppInv(ClickIntent(app, x, y, scene))
  {
    var r := ClickIntent(app, x, y, scene);
    var chain := scene.hits(ViewPointer(app, x, y));
    var found := FirstProductTagged(app.registry, chain);
    if app.mode == Select && app.setupComplete && app.mounted && !app.isAnimating && found.Some? {
      var mesh := chain[found.value];
      var sel := GetProductByMesh(app.registry, mesh);
      if sel.Some? {
        var camera := SetControlsEnabled(app.camera, false);
        var selected := SelectProduct(app.registry, sel.value.shelfId, sel.value.meshId);
        SelectConsistent(app.registry, sel.value.shelfId, sel.value.meshId);
        if selected.1.Some? {
          var flight := BeginAnimateToProduct(camera, scene.boxOf(mesh), scene.tanHalfFov);
          assert r == app.(isAnimating := true, selectedProduct := selected.1, registry := selected.0,
                           camera := flight.0, pending := Some(ProductFlight(flight.1)));
          assert flight.0.camera == app.camera.camera && flight.0.isAnimating;
        } else {
          assert r == app.(camera := SetControlsEnabled(camera, true), isAnimating := false);
        }
      } else {
        assert r == app.(isAnimating := false);
      }
    } else {
      assert r == app;
    }
  }

  lemma BackKeepsInv(app: AppState)
    requires AppInv(app)
    ensures AppInv(BackStep(app))
  {
    DeselectConsistent(app.registry);
  }

  lemma StepKeepsInv(app: AppState, e: Event, scene: Scene, orbited: Vec3)
    requires AppInv(app) && scene.tanHalfFov > 0.0 && EventOk(e)
    ensures AppInv(Step(app, e, scene, orbited))
  {
    match e
    case Click(x, y) => ClickKeepsInv(app, x, y, scene);
    case AnimationTick(t) =>
    case FlightDone =>
    case Back => BackKeepsInv(app);
    case Resize(w, h) =>
    case ControlsReady =>
  }

  /** While a flight runs, the controls that existed when it started are
      off. */
  predicate ControlsOffInFlight(app: AppState) {
    app.pending.Some? ==> InFlight(app.camera)
  }

  /** Every event keeps the controls off during a flight, except controls
      that arrive in the middle of one (`ControlsReadyMidFlight`). */
  lemma StepKeepsControlsOff(app: AppState, e: Event, scene: Scene, orbited: Vec3)
    requires AppInv(app) && ControlsOffInFlight(app) && scene.tanHalfFov > 0.0 && EventOk(e)
    requires !(e.ControlsReady? && app.pending.Some?)
    ensures ControlsOffInFlight(Step(app, e, scene, orbited))
  {
    match e
    case Click(x, y) =>
    case AnimationTick(t) =>
      if app.pending.Some? {
        FramesStayInFlight(UpdateOrbitControls(app.camera, orbited), app.pending.value.flight, t);
      }
    case FlightDone =>
    case Back =>
    case Resize(w, h) =>
    case ControlsReady =>
  }

  /** Controls that arrive during a flight come in enabled: the flight that
      switched "the controls" off ran before they existed, so they react to
      input until it completes. */
  lemma ControlsReadyMidFlight(app: AppState, scene: Scene, orbited: Vec3)
    requires AppInv(app) && scene.tanHalfFov > 0.0
    requires app.pending.Some? && app.camera.controls.None?
    ensures var r := Step(app, ControlsReady, scene, orbited);
      && r.pending == app.pending && r.isAnimating
      && r.camera.controls == Some(Controls(true, InitialControlsTarget))
      && !ControlsOffInFlight(r)
  {
  }

  /** Once the controls exist, the first product flight turns from their
      target (0, 2, 0); before, it would turn from the camera manager's
      stored look-at target. */
  lemma ControlsReadyThenFlight(app: AppState)
    requires app.camera.controls.None?
    ensures var r := ControlsReadyStep(app);
      && StartTarget(app.camera) == app.camera.targetLookAt
      && StartTarget(r.camera) == InitialControlsTarget
      && r.camera.controls == Some(Controls(true, InitialControlsTarget))
      && r.camera.camera.position == app.camera.camera.position
  {
  }

  /** The picking pointer and the rendered picture agree: when the camera's
      aspect matches the viewport the pointer is normalised against, as
      `AppInv` keeps it across every event, equal pixel steps across and
      down move the pointer in the proportions the projection draws them. */
  lemma PointerMatchesAspect(app: AppState, clientX: real, clientY: real, d: real)
    requires app.viewWidth > 0.0 && app.viewHeight > 0.0
    requires app.camera.camera.aspect == app.viewWidth / app.viewHeight
    ensures var p := ViewPointer(app, clientX, clientY);
      (ViewPointer(app, clientX + d, clientY).x - p.x) * app.camera.camera.aspect
        == p.y - ViewPointer(app, clientX, clientY + d).y
  {
    PixelStepsFollowAspect(clientX, clientY, d, app.viewWidth, app.viewHeight, app.camera.camera.aspect);
  }

  /** FOCUS mode is entered only by the completion of a product flight, and
      such a flight exists only after `selectProduct` returned a product:
      the product is recorded in the app and in the registry. */
  lemma FocusOnlyAfterSelection(app: AppState, e: Event, scene: Scene, orbited: Vec3)
    requires AppInv(app) && scene.tanHalfFov > 0.0 && EventOk(e)
    requires app.mode == Select && Step(app, e, scene, orbited).mode == Focus
    ensures e.FlightDone?
    ensures app.pending.Some? && app.pending.value.ProductFlight?
    ensures app.selectedProduct.Some? && app.registry.selectedProduct.Some?
    ensures Registered(app.registry, app.registry.selectedProduct.value)
  {
  }

  /** A product flight is only ever started by a click whose selection
      succeeded. */
  lemma ProductFlightOnlyFromSelection(app: AppState, e: Event, scene: Scene, orbited: Vec3)
    requires AppInv(app) && scene.tanHalfFov > 0.0 && EventOk(e)
    requires app.pending.None?
    requires var r := Step(app, e, scene, orbited); r.pending.Some? && r.pending.value.ProductFlight?
    ensures e.Click?
    ensures var r := Step(app, e, scene, orbited);
      r.selectedProduct.Some? && r.registry.selectedProduct.Some? && Registered(r.registry, r.registry.selectedProduct.value)
  {
    StepKeepsInv(app, e, scene, orbited);
  }

  /** Back, once its flight completes, returns to SELECT mode with nothing
      selected, the flag down, every shelf shown, and the camera at the
      default pose. */
  lemma BackThenDone(app: AppState)
    requires AppInv(app) && app.mounted && !app.isAnimating
    ensures var r := FlightDoneStep(BackStep(app));
      && r.mode == Select && !r.isAnimating && r.pending.None?
      && r.selectedProduct.None? && r.registry == DeselectProduct(app.registry)
      && r.camera.camera.position == app.camera.defaultPosition
      && r.camera.targetLookAt == app.camera.defaultLookAt
      && (r.camera.controls.Some? ==> r.camera.controls.value.enabled)
  {
  }

  // ---------------------------------------------------------------------
  // loading progress and the default view
  // ---------------------------------------------------------------------

  /** `handleLoadingProgress(p)`: the reported value is capped at 99. */
  function ReportProgress(p: real): (r: real)
    ensures r <= 99.0
    ensures p <= 99.0 ==> r == p
    ensures p > 99.0 ==> r == 99.0
  {
    Min(p, 99.0)
  }

  /** `(shelvesLoaded / shelves.length) * 80`. */
  function ShelfProgress(loaded: nat, total: nat): real
    requires 0 < total
  {
    (loaded as real / total as real) * 80.0
  }

  /** The values the setup reports, in order: one per loaded shelf, then 85
      before the cleanup, then 100 at the end. */
  function SetupReports(total: nat): (r: seq<real>)
    ensures |r| == total + 2
  {
    seq(total, k requires 0 <= k < total => ReportProgress(ShelfProgress(k + 1, total)))
      + [ReportProgress(85.0), ReportProgress(100.0)]
  }

  lemma ShelfProgressMonotone(j: nat, k: nat, total: nat)
    requires 0 < j <= k <= total
    ensures 0.0 < ShelfProgress(j, total) <= ShelfProgress(k, total) <= 80.0
  {
    var n := total as real;
    DivMonotone(j as real, k as real, n);
    DivMonotone(k as real, n, n);
    DivPositive(j as real, n);
  }

  /** The reported progress never goes back, never exceeds 99, and ends at
      99: the final 100 is capped, so the `loadingProgress` state never
      reaches 100. */
  lemma SetupReportsMonotone(total: nat)
    ensures forall i, j :: 0 <= i <= j < |SetupReports(total)| ==> SetupReports(total)[i] <= SetupReports(total)[j]
    ensures forall i :: 0 <= i < |SetupReports(total)| ==> SetupReports(total)[i] <= 99.0
    ensures SetupReports(total)[|SetupReports(total)| - 1] == 99.0
  {
    var r := SetupReports(total);
    forall i, j | 0 <= i <= j < |r| ensures r[i] <= r[j] {
      if j < total {
        ShelfProgressMonotone(i + 1, j + 1, total);
      } else if i < total {
        ShelfProgressMonotone(i + 1, total, total);
      }
    }
  }

  /** `bboxSize.length() > 0`: a vector has positive length exactly when its
      squared length is positive. */
  predicate HasLength(v: Vec3) {
    v.x * v.x + v.y * v.y + v.z * v.z > 0.0
  }

  /** The app's test on the aisle box and `frameCameraToBox`'s test agree:
      the zero-size fallback of the framing is never reached from the
      branch that calls it. */
  lemma SizeTestsAgree(b: Box3)
    ensures HasLength(Size(b)) <==> MaxComponent(Size(b)) != 0.0
  {
    var s := Size(b);
    if MaxComponent(s) != 0.0 {
      assert s.x * s.x > 0.0 || s.y * s.y > 0.0 || s.z * s.z > 0.0;
    }
  }

  /** The default view: the aisle box framed with padding 1.3 when it has
      any extent; otherwise the camera is put at (0, 5, 15) looking at the
      origin, and the default pose stays where the constructor put it. */
  function DefaultView(camera: CameraState, aisle: Box3, tanHalfFov: real): (r: CameraState)
    requires tanHalfFov > 0.0
    ensures HasLength(Size(aisle)) ==> r == SetDefaultAisleView(camera, aisle, tanHalfFov)
    ensures !HasLength(Size(aisle)) ==>
      && r.camera.position == Vec3(0.0, 5.0, 15.0) && r.camera.lookAt == Origin
      && r.defaultPosition == camera.defaultPosition && r.defaultLookAt == camera.defaultLookAt
    ensures r.isAnimating == camera.isAnimating && r.camera.aspect == camera.camera.aspect
    ensures r.controls.Some? <==> camera.controls.Some?
    ensures r.controls.Some? ==> r.controls.value.enabled == camera.controls.value.enabled
  {
    if HasLength(Size(aisle)) then SetDefaultAisleView(camera, aisle, tanHalfFov)
    else camera.(camera := camera.camera.(position := Vec3(0.0, 5.0, 15.0), lookAt := Origin))
  }

  /** With an aisle of any extent, the default pose looks at the aisle's
      centre from above and in front of it. */
  lemma DefaultViewFramesAisle(camera: CameraState, aisle: Box3, tanHalfFov: real)
    requires tanHalfFov > 0.0 && HasLength(Size(aisle))
    ensures var r := DefaultView(camera, aisle, tanHalfFov);
      && r.defaultLookAt == Center(aisle)
      && r.defaultPosition.y > r.defaultLookAt.y && r.defaultPosition.z > r.defaultLookAt.z
  {
    SizeTestsAgree(aisle);
    FrameAboveAndInFront(aisle, tanHalfFov, AislePadding);
  }

  /** The shelf the floor is built from: the first one stored. */
  function FloorShelf(reg: Registry): (r: Option<Shelf>)
    ensures Consistent(reg) ==> (r.Some? <==> |reg.shelves| > 0)
    ensures r.Some? ==> |reg.shelfOrder| > 0 && reg.shelfOrder[0] in reg.shelves && r.value == reg.shelves[reg.shelfOrder[0]]
  {
    if |reg.shelfOrder| > 0 && reg.shelfOrder[0] in reg.shelves then Some(reg.shelves[reg.shelfOrder[0]])
    else
      assert Consistent(reg) ==> reg.shelves.Keys == {} by {
        if Consistent(reg) && |reg.shelfOrder| == 0 {
          assert forall sid :: sid in reg.shelves ==> sid in reg.shelfOrder;
        }
      }
      None
  }

  /** The floor the setup adds: `createBoundingBoxFloor` on the group of
      the first stored shelf alone; no floor when there is no shelf. */
  function SetupFloor(reg: Registry, boxOf: Shelf -> Box3, id: NodeId): (r: Option<Floor.FloorMesh>)
    ensures r.Some? <==> FloorShelf(reg).Some?
  {
    match FloorShelf(reg)
    case None => None
    case Some(first) => Some(Floor.CreateBoundingBoxFloor(boxOf(first), id))
  }

  /** With at least one shelf there is a floor, sized from the first shelf
      whatever the others are: at least 1.3 times that shelf's larger
      horizontal extent, and under it when it stands centred on the origin. */
  lemma FloorFromFirstShelf(reg: Registry, boxOf: Shelf -> Box3, id: NodeId)
    requires Consistent(reg) && |reg.shelves| > 0
    ensures FloorShelf(reg).Some? && SetupFloor(reg, boxOf, id).Some?
    ensures var b := boxOf(FloorShelf(reg).value);
      var f := SetupFloor(reg, boxOf, id).value;
      && Floor.Side(f) >= Floor.BoundingBoxFloorFactor * Size(b).x
      && Floor.Side(f) >= Floor.BoundingBoxFloorFactor * Size(b).z
      && (!IsEmpty(b) && Center(b).x == 0.0 && Center(b).z == 0.0 ==>
            Floor.CoversHorizontally(f.x, f.z, Floor.Side(f), b))
  {
    var b := boxOf(FloorShelf(reg).value);
    if !IsEmpty(b) && Center(b).x == 0.0 && Center(b).z == 0.0 {
      Floor.BoundingBoxFloorCoversCentredBox(b, id);
    }
  }

  /** The end of setup, once the shelves are loaded: every shelf group is
      shown, the default view is chosen from the aisle box, 100 is reported
      (and stored as 99), and clicks are accepted from then on. Without the
      refs only the last step happens. */
  function FinishSetup(app: AppState, boxOf: Shelf -> Box3, tanHalfFov: real): (r: AppState)
    requires tanHalfFov > 0.0
    ensures r.setupComplete
    ensures !app.mounted ==> r == app.(setupComplete := true)
    ensures app.mounted ==>
      && r.progress == 99.0
      && r.registry.shelves.Keys == app.registry.shelves.Keys
      && (forall sid :: sid in r.registry.shelves ==> r.registry.shelves[sid] == Show(app.registry.shelves[sid]))
      && r.camera == DefaultView(app.camera, GetAisleBoundingBox(r.registry, boxOf), tanHalfFov)
      && r == app.(setupComplete := true, progress := r.progress, registry := r.registry, camera := r.camera)
  {
    if !app.mounted then app.(setupComplete := true)
    else
      var shown := map sid | sid in app.registry.shelves :: Show(app.registry.shelves[sid]);
      var reg := app.registry.(shelves := shown);
      app.(setupComplete := true, progress := ReportProgress(100.0), registry := reg,
           camera := DefaultView(app.camera, GetAisleBoundingBox(reg, boxOf), tanHalfFov))
  }

  lemma FinishSetupKeepsInv(app: AppState, boxOf: Shelf -> Box3, tanHalfFov: real)
    requires AppInv(app) && tanHalfFov > 0.0
    ensures AppInv(FinishSetup(app, boxOf, tanHalfFov))
  {
    if app.mounted {
      VisibilityOnlyConsistent(app.registry, FinishSetup(app, boxOf, tanHalfFov).registry);
    }
  }

  // ---------------------------------------------------------------------
  // as written: the handler's captured state
  // ---------------------------------------------------------------------

  /** `setMousePosition(event, width, height)` as written: `width` and
      `height` are the window size read when the component mounted. */
  function PointerAsWritten(app: AppState, clientX: real, clientY: real): Pointer
    requires app.mountWidth > 0.0 && app.mountHeight > 0.0
  {
    NormalizePointer(clientX, clientY, app.mountWidth, app.mountHeight)
  }

  /** `handleCanvasClick` as written: created once when the component
      mounts, it sees the initial mode and animation flag forever, and it
      normalises the pointer against the window size read at mount time. */
  function ClickAsWritten(app: AppState, clientX: real, clientY: real, scene: Scene): AppState
    requires app.mountWidth > 0.0 && app.mountHeight > 0.0 && scene.tanHalfFov > 0.0
  {
    ClickWith(app, Select, false, PointerAsWritten(app, clientX, clientY), scene)
  }

  /** In FOCUS mode, or while a flight runs, a click on a selectable product
      is meant to be ignored; as written it selects the product and starts
      a new flight. */
  lemma StaleClickStillSelects(app: AppState, clientX: real, clientY: real, scene: Scene)
    requires AppInv(app) && scene.tanHalfFov > 0.0
    requires app.mountWidth > 0.0 && app.mountHeight > 0.0
    requires app.viewWidth == app.mountWidth && app.viewHeight == app.mountHeight
    requires app.mode == Focus || app.isAnimating
    requires app.setupComplete && app.mounted
    requires var chain := scene.hits(ViewPointer(app, clientX, clientY));
      var found := FirstProductTagged(app.registry, chain);
      found.Some? && chain[found.value].id in app.registry.selectable
    ensures ClickIntent(app, clientX, clientY, scene) == app
    ensures var r := ClickAsWritten(app, clientX, clientY, scene);
      r.pending.Some? && r.pending.value.ProductFlight? && r.isAnimating
  {
    var chain := scene.hits(ViewPointer(app, clientX, clientY));
    var mesh := chain[FirstProductTagged(app.registry, chain).value];
    LookupSelectable(app.registry, mesh);
  }

  /** After the window shrinks from 1000 x 800 to 500 x 400, a click on the
      bottom-right corner of the canvas is meant as (1, -1); as written it
      is read as the centre (0, 0). */
  lemma MountSizePointerMisplaced(app: AppState)
    requires app.mountWidth == 1000.0 && app.mountHeight == 800.0
    requires app.viewWidth == 500.0 && app.viewHeight == 400.0
    ensures PointerAsWritten(app, 500.0, 400.0) == Pointer(0.0, 0.0)
    ensures ViewPointer(app, 500.0, 400.0) == Pointer(1.0, -1.0)
  {
  }

  /** After any resize the intended pointer maps the new viewport's corners
      to the corners of the normalised square. */
  lemma ResizeThenPointer(app: AppState, width: real, height: real)
    requires width > 0.0 && height > 0.0
    ensures ViewPointer(ResizeStep(app, width, height), 0.0, 0.0) == Pointer(-1.0, 1.0)
    ensures ViewPointer(ResizeStep(app, width, height), width, height) == Pointer(1.0, -1.0)
  {
  }
}
