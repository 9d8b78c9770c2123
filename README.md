# FanalVR: animated-node discovery and VR controller input, in Dafny

FanalVR is a small Three.js/WebXR scene: a ground plane, a rock sphere, two
loaded glTF models, two point lights, a skybox and two VR controllers, drawn by
a per-frame render loop. Almost all of `main.js` builds library objects. This
project models the two parts that have behaviour of their own:

- **Animated-node discovery** (`findObjectsWithAnimations`). Every frame, the
  render loop walks the whole scene graph depth-first. It pushes every node
  whose `actions` list is non-empty into one shared result array, then
  advances those nodes' mixers. The model is in `scene_graph.dfy` and
  `animation_discovery.dfy`:
  - A node is a value: `Node(id, actions, children)`.
  - The result array is a `NodeList` object whose `items` the walk appends to.
  - The walk is a recursive method. Its `while` loop over the children stands
    for `forEach`.
  - The method is proved against `AnimatedPreorder`. Lemmas characterise that
    function in two ways. First, it is the pre-order listing of the tree
    (`Subtrees`) filtered to the animated nodes. Second, position by position,
    the k-th reported node is the node at the k-th of a strictly increasing
    list of child-index paths, and that list holds every animated position.
  - Lexicographic order on paths is pre-order: ancestors come before
    descendants, and earlier children before later ones.
- **Controller input** (the listeners installed by `vrElements`). Each of the
  two controllers has a `children` list and a `userData.isSelecting` flag:
  - "selectstart" sets the flag and "selectend" clears it.
  - "connected" adds the visual that `buildController` returns for the
    device's target-ray mode: a line for `"tracked-pointer"` and a ring mesh
    for `"gaze"`. For any other mode it returns `undefined`.
  - "disconnected" removes `children[0]`.

  In `controller.dfy` a `Controller` class holds the two fields. The handlers
  are its methods, each proved against the pure transition `Step`. Lemmas
  about `Run` (a sequence of events) describe what the handlers add up to.
  In `xr_input.dfy` a `Session` holds the two controller objects. A lemma
  shows that each controller's state depends only on the events fired on it.

The three.js calls `Object3D.add` and `Object3D.remove` are not part of this
model. The model follows their library behaviour:
- `add(undefined)` reports an error and adds nothing.
- `add(visual)` appends to `children`.
- `remove(undefined)` finds no index and removes nothing.

So "connected" with an unknown mode and "disconnected" on a controller with no
children leave the children unchanged.

## Model

| member | source | states |
|---|---|---|
| `AnimationDiscovery.FindObjectsWithAnimationsInto` | main.js:157-172 | Returns the array it was given. The array's old contents stay as a prefix, and exactly the animated nodes of the tree are appended after them, in pre-order (`AnimatedPreorder`). |
| `AnimationDiscovery.FindObjectsWithAnimations` | main.js:157 | Called with the default empty accumulator, the walk returns exactly `AnimatedPreorder(scene)`. |
| `AnimationDiscovery.DiscoverOnTwoFrames` | main.js:146-153 | Two frames over an unchanged scene graph find the same nodes in the same order. |
| `AnimationDiscovery.AnimatedIsFilteredPreorder` | main.js:158-169 | The walk's output equals the full depth-first pre-order listing of the tree, filtered to the nodes whose `actions` list is non-empty. |
| `AnimationDiscovery.AnimatedMembership` | main.js:158-161 | A node is reported if and only if it is in the tree and has a non-empty `actions` list. |
| `AnimationDiscovery.AnimatedNodeFound` | main.js:163-169 | The node at any valid position of the tree is reported when it has actions, however deep it sits. |
| `AnimationDiscovery.DiscoveryOrder` | main.js:157-172 | The k-th reported node is the node at the k-th path of a strictly increasing list of valid paths, and it has actions. Every position holding a node with actions is on that list. |
| `SceneGraph.PathsIncreasing` | main.js:163-169 | The pre-order listing of the paths of a tree is strictly increasing in lexicographic order. |
| `SceneGraph.PathsLocateSubtrees` | main.js:163-169 | The i-th path of the tree is valid and leads to the i-th node of the pre-order listing. |
| `SceneGraph.PathsComplete` | main.js:163-169 | Every valid path of the tree is in its listing, so the walk reaches every node. |
| `SceneGraph.PreorderPosition` | main.js:158-169 | When one listed path is lexicographically below another, its node is listed first. |
| `SceneGraph.AncestorBeforeDescendant` | main.js:158-168 | A node's path is below the path of each of its descendants, so a node is pushed before anything under it. |
| `SceneGraph.EarlierSiblingFirst` | main.js:166-168 | Everything under an earlier child is below everything under a later child, so children are visited in list order. |
| `Controllers.BuildController` | main.js:69-95 | Returns a visual exactly when the mode is the one `TargetRayModeOf` assigns to it: `Line` for `"tracked-pointer"` and `Ring` for `"gaze"`. Any other mode gives no visual. |
| `Controllers.Controller.constructor` | main.js:31-32 | A controller starts with no children and the flag unset. |
| `Controllers.Controller.OnSelectStart` | main.js:97-99 | Sets `isSelecting` to true whatever it was. The children are unchanged. |
| `Controllers.Controller.OnSelectEnd` | main.js:101-103 | Sets `isSelecting` to false whatever it was. The children are unchanged. |
| `Controllers.Controller.OnConnected` | main.js:36-38 | `"tracked-pointer"` appends exactly one `Line`, and `"gaze"` appends exactly one `Ring`. Any other mode leaves the children unchanged. The flag is untouched. |
| `Controllers.Controller.OnDisconnected` | main.js:39-41 | Removes only the first child, and the rest keep their order. With no children, nothing changes. The flag is untouched. |
| `Controllers.Controller.Handle` | main.js:34-41 | Delivering an event to a controller moves its state by `Step`. |
| `Controllers.FlagFollowsLastSelection` | main.js:97-103 | After any sequence of events, the flag is the value set by the last "selectstart"/"selectend". With none, the flag keeps its starting value. |
| `Controllers.SelectionKeepsChildren` | main.js:97-103 | Removing every selection event from any sequence leaves the resulting children unchanged. |
| `Controllers.ChildrenWereBuilt` | main.js:36-38 | Every attached visual was either there at the start or built for a "connected" event with that visual's mode. |
| `Controllers.ConnectionCycle` | main.js:34-41 | From no children, the events connected, selectstart, selectend, disconnected leave no visual and the flag false, for any mode. |
| `Controllers.DoubleConnectLeavesSecondVisual` | main.js:39-41 | After two "connected" events with no disconnect between them, "disconnected" removes the older visual and the newer one stays attached. |
| `XrInput.ControllersIndependent` | main.js:31-50 | After any interleaving of events on the two controllers, each controller's state is what its own events alone produce. |
| `XrInput.Session.constructor` | main.js:31-32 | The session starts with two distinct, fresh controllers, both in the initial state. |
| `XrInput.Session.Fire` | main.js:34-50 | An event fired on one controller moves that controller by `Step` and leaves the other unchanged. |

## Left out

- Scene building (`setupScene`, `createElements`, lines 107-134 and 174-271): these only construct three.js objects (renderer, camera, orbit controls, VR button, textures, plane, sphere, lights, skybox). They have no logic of their own.
- Controller grips and `scene.add(controller)` (lines 52-67): library construction with no state of the model's.
- `ModelLoader.loadModel` (lines 3, 223-237): `ModelLoader` is not part of this model. It is an asynchronous foreign loader.
- The per-frame rotation `obj.rotation.y += rotationSpeed * deltaTime` (lines 142-144): floating-point accumulation driven by `Date.now()`. It skips `null` entries of `objects`, and that is not modelled either.
- `object.mixer?.update(deltaTime)`, `renderer.render` and `setAnimationLoop` (lines 148-153): foreign library calls and host frame scheduling. The model stops at the list of nodes whose mixers would be advanced.
- The resize handler (lines 274-282): floating-point window arithmetic and renderer/camera calls.
- Geometry and material contents of the line and the ring (lines 73-93): float buffers and library objects, represented only as the tags `Line` and `Ring`.
- Object identity and aliasing in the scene graph: nodes are values, so the model has no shared nodes and no cycles. Three.js gives an object at most one parent, so the scene graph is a tree, as modelled. Each node carries an `id` so that distinct objects stay distinct values.
- A node with no `actions` property or no `children` property is modelled with an empty list. The walk treats both cases the same way.
- Controllers.Controller.constructor: `userData.isSelecting` is `undefined` until the first selection event. It is modelled as `false`, the value a truth test reads; `main.js` itself never reads the flag.
- Event payloads other than the target-ray mode, and the runtime's own controller lifecycle (which events it fires and when), are not modelled. Any sequence of the four events is allowed.
