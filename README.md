# WebXRController input fusion, modelled in Dafny

This project models the core of `WebXRController`, the Unity component of the
WebXR export package that stands for one tracked controller or hand. Three
sources drive it:

- controller snapshots from the browser (buttons and axes of a gamepad);
- hand snapshots from the browser (25 articulated joints, plus trigger and squeeze strengths);
- in the editor, a native XR device poll used while the broadcast subsystem is unavailable.

From these it keeps one canonical state:

- the analog fields;
- a button-state table with consume-on-read edge detection (`GetButtonDown`, `GetButtonUp`);
- the device pose;
- a cache of hand-joint nodes that grows and is never shrunk;
- the visibility of the controller models (`showGOs`) and of the hand joints.

It also chooses the backend for a haptic pulse.

Modules:

- `ButtonTable` (`button_table.dfy`): the dictionary from `ButtonTypes` to
  `{pressed, value, prevPressedState}` as functions on map values, with the
  edge-detection theorems. `Replay` and `EdgesAlternate` show that over any
  run of writes and polls, down and up edges strictly alternate.
- `HandSkeleton` (`hand_skeleton.dfy`): the joint loop as a fold over joint
  indices, the scale rule, and the guarded `SetHandJointsVisible`, with their
  invariants.
- `Decisions` (`decisions.dfy`): dead-zone snapping, `handFromString`, and the
  `Pulse` dispatch decision.
- `Controller` (`controller.dfy`): the class `WebXRController`. Its fields are
  the fields of the component that the core uses, with two changes: `axes`
  groups the ten analog floats in one record, and `handJointPrefabActive`
  stands for `handJointPrefab`, which is assumed to be assigned (see below). The button
  methods, `SetHandJointsVisible` and `UpdateHandJoints` are proved to
  perform exactly the functions above on their fields. `SetVisible` and the
  accessors `GetAxis` and `GetAxis2D` have no such function; their contracts
  state their effect directly. `GetButtonDown`, `GetButtonUp`,
  `OnControllerUpdate`, `OnHandUpdate` and `TryUpdateButtons` are also
  proved to keep the class invariant `Valid()`; the lower-level setters they
  call (`SetButtonState` and the like) are not, since one of them alone can
  leave an entry out of step with its analog field. The invariant says three
  things:
  - every stored button entry holds the value of the analog field it was
    decoded from, and is pressed exactly when that value is 1;
  - the joint cache only holds joint indices;
  - with an active joint prefab, every joint node is shown exactly when
    `handJointsVisible` says so.
- `Common` (`common.dfy`): `Option` and the Unity vector and quaternion records.

Modelling choices:

- Analog values are `real`. Only the comparisons `== 1`, `<= 0.02` and
  `>= 0.98` matter to the logic.
- Poses are opaque records. The pose arithmetic of the joint loop enters as
  a `JointGeometry` parameter holding two functions:
  - `localize(wrist, joint)` is the wrist-relative pose (lines 292, 300-301
    and 306-307). An existing node takes it as its local pose.
  - `placeNew(p)` is the local pose of a node that `Instantiate` creates
    under the controller's transform at world pose `p` (lines 305-308). The
    four-argument `Instantiate` places the clone in world space, so a new
    node starts at `placeNew(localize(wrist, joint))`. It reaches its
    wrist-relative pose on the next snapshot that reports it
    (`HandSkeleton.ResendAddsNoNode`).
- A Unity joint `Transform` is a `JointNode` record in a map. Its
  GameObject's active flag is a field of that record.
- `showGOs` is an array of active flags.
- The `#if UNITY_EDITOR` fallback is an ordinary runtime branch. Its inputs are
  `subsystemAvailable` and an optional `DevicePoll` that holds what the device
  reported; outside the editor that poll is `None`.

Behaviour of the code that the model keeps:

- The joint loop starts at index 0 (line 294), so the wrist joint also gets
  a cached node.
- The native fallback poll (lines 75-139) does not filter by handedness. The
  device was chosen by its characteristics when it connected (line 434).
- `SetButtonState` keeps `prevPressedState` on an existing entry (lines
  193-197); only `GetButtonUp` clears it (line 223). So `GetButtonDown` fires
  again only after an up poll has reported the release. A consumer that only
  polls for down edges sees one press for the component's whole lifetime
  (`ButtonTable.DownOnlyConsumerSeesOnePress`).
- A disabled controller snapshot hides the controller models and returns
  before anything else (lines 245-249). It leaves the pose, analog fields and
  button table untouched.

Assumptions about files that are not part of this model:

- `WebXRControllerButton`'s constructor is not part of this model. A new
  table entry starts with `prevPressedState = false`, which is the C#
  default for `bool`.
- `WebXRControllerHand` is `NONE = 0, LEFT = 1, RIGHT = 2`.
- The joint prefab's active flag does not change while the component runs.
  It is the constant `handJointPrefabActive`, and `Valid()` relies on it
  being fixed.
- Every configured reference is assigned and `hand` is fixed: `handJointPrefab`
  is set, every `showGOs` slot holds a live GameObject, and the public `hand`
  field is not edited while the component runs (it is the constant `hand`).
  The source behaves differently otherwise, and the model does not cover it:
  - With no prefab, `Instantiate` (line 305) throws on the first enabled joint
    that has no cached node. `OnHandUpdate` has then already hidden the
    models, shown the joints and taken the wrist pose (lines 286-290), but it
    never writes `trigger`, `squeeze` or the Trigger and Grip entries
    (lines 322-328). The cache stays empty, so every later hand snapshot
    stops at the same point.
  - With an unassigned `showGOs` slot, `SetVisible` throws (line 354).
    `OnControllerUpdate` then stops at line 250, before the pose, the analog
    fields and the buttons.
  - Editing `hand` at run time changes which snapshots the filters at lines
    243 and 279 accept.
- `WebXRHandData.LITTLE_PHALANX_TIP` is 24. A hand snapshot carries exactly 25
  joints, the joint count of the WebXR Hand Input module.

## Model

| member | source | states |
|---|---|---|
| `ButtonTable.Ordinal` | Packages/webxr/Runtime/Scripts/WebXRController.cs:13-21 | every button has an ordinal below 6 |
| `ButtonTable.ButtonAt` | Packages/webxr/Runtime/Scripts/WebXRController.cs:144-147 | the cast `(ButtonTypes)i` of a slot index gives the button whose ordinal is i |
| `ButtonTable.OrdinalRoundTrip` | Packages/webxr/Runtime/Scripts/WebXRController.cs:13-21 | casting a button's ordinal back gives the same button |
| `ButtonTable.Sample` | Packages/webxr/Runtime/Scripts/WebXRController.cs:266-272 | a decoded reading keeps its value and is pressed exactly when the value is 1 |
| `ButtonTable.GetButton` | Packages/webxr/Runtime/Scripts/WebXRController.cs:175-182 | true only for an observed button, and then exactly its stored pressed flag |
| `ButtonTable.GetPastButtonState` | Packages/webxr/Runtime/Scripts/WebXRController.cs:184-189 | true only for an observed button, and then exactly its stored previous-pressed flag |
| `ButtonTable.SetButtonState` | Packages/webxr/Runtime/Scripts/WebXRController.cs:191-200 | upsert: the key set gains exactly this button; its pressed and value are the new ones; its prevPressedState is kept (false for a new entry); every other entry is untouched |
| `ButtonTable.SetPastButtonState` | Packages/webxr/Runtime/Scripts/WebXRController.cs:202-207 | keys never change; an absent key is a no-op; a present entry changes only its prevPressedState |
| `ButtonTable.GetButtonDown` | Packages/webxr/Runtime/Scripts/WebXRController.cs:209-217 | fires iff the entry exists, is pressed and its flag is clear; after firing the flag is set; otherwise the table is unchanged; pressed and value of every entry are never changed |
| `ButtonTable.GetButtonUp` | Packages/webxr/Runtime/Scripts/WebXRController.cs:219-227 | the mirror image: fires iff the entry exists, is released and its flag is set; the flag is then cleared |
| `ButtonTable.UpdateButtons` | Packages/webxr/Runtime/Scripts/WebXRController.cs:142-149 | writing an array never removes an entry, and adds only buttons whose ordinal is inside the array (full effect in `UpdateButtonsAt`) |
| `ButtonTable.UpdateButtonsAt` | Packages/webxr/Runtime/Scripts/WebXRController.cs:142-149 | for one button: if its ordinal is inside the array it ends with that slot's pressed and value and keeps its previous flag; otherwise it is untouched, present or absent as before |
| `ButtonTable.UpdateButtonsEffect` | Packages/webxr/Runtime/Scripts/WebXRController.cs:142-149 | the same for all buttons at once: keys grow by exactly the buttons written, each written in ordinal order, the rest untouched |
| `ButtonTable.UpdateButtonsStep` | Packages/webxr/Runtime/Scripts/WebXRController.cs:144-148 | one more loop iteration is one more SetButtonState on the next ordinal |
| `ButtonTable.NeverSetReadsReleased` | Packages/webxr/Runtime/Scripts/WebXRController.cs:175-189 | a button never observed reads as released, neither poll fires, and polling creates no entry |
| `ButtonTable.SecondPollReportsNothing` | Packages/webxr/Runtime/Scripts/WebXRController.cs:209-227 | consume-on-read: a second down (or up) poll in the same state reports nothing |
| `ButtonTable.DownAndUpExclusive` | Packages/webxr/Runtime/Scripts/WebXRController.cs:209-227 | no state lets both a down edge and an up edge fire |
| `ButtonTable.EdgesAlternate` | Packages/webxr/Runtime/Scripts/WebXRController.cs:209-227 | over any sequence of writes and polls of one button, reported edges strictly alternate down/up, the first is the one the initial flag allows, and the final flag records the last edge |
| `ButtonTable.NoUpWithoutUpPoll` | Packages/webxr/Runtime/Scripts/WebXRController.cs:191-227 | only an up poll clears the latched flag, so with no up poll among the events every reported edge is a down edge |
| `ButtonTable.DownOnlyConsumerSeesOnePress` | Packages/webxr/Runtime/Scripts/WebXRController.cs:191-227 | a consumer that never polls for up edges is reported at most one press over any run of writes and polls |
| `ButtonTable.SecondPressUnreportedWithoutUpPoll` | Packages/webxr/Runtime/Scripts/WebXRController.cs:191-227 | press, down poll (fires), release, press, down poll: the second press is not reported |
| `ButtonTable.PressHoldRelease` | Packages/webxr/Runtime/Scripts/WebXRController.cs:191-227 | press, poll twice, hold, poll, release, poll up twice, poll down: exactly the first down poll and the first up poll fire |
| `Decisions.SnapDeadZone` | Packages/webxr/Runtime/Scripts/WebXRController.cs:82-98 | the result is 1 iff the raw value is at least 0.98, 0 iff at most 0.02, otherwise the raw value; [0,1] is preserved |
| `Decisions.SnapIdempotent` | Packages/webxr/Runtime/Scripts/WebXRController.cs:82-98 | snapping twice equals snapping once |
| `Decisions.SnapExamples` | Packages/webxr/Runtime/Scripts/WebXRController.cs:82-98 | 0.015 snaps to 0, 0.985 to 1, and 0.5 is kept and is not a full press |
| `Decisions.HandValue` | Packages/webxr/Runtime/Scripts/WebXRController.cs:243 | the integer a snapshot's hand is compared with lies in 0..2 |
| `Decisions.HandValueInjective` | Packages/webxr/Runtime/Scripts/WebXRController.cs:279 | distinct hands have distinct integers, so the hand filter admits one hand only |
| `Decisions.UpperChar` | Packages/webxr/Runtime/Scripts/WebXRController.cs:340 | lower-case ASCII letters move to upper case; other characters are kept; no lower-case letter remains |
| `Decisions.ToUpper` | Packages/webxr/Runtime/Scripts/WebXRController.cs:340 | upper-casing keeps the length and maps every character |
| `Decisions.ToUpperIdempotent` | Packages/webxr/Runtime/Scripts/WebXRController.cs:340 | upper-casing an upper-cased string changes nothing |
| `Decisions.HandName` | Packages/webxr/Runtime/Scripts/WebXRController.cs:332-348 | every member name is non-empty and already upper case, so upper-casing it before the parse keeps it |
| `Decisions.ParseHandName` | Packages/webxr/Runtime/Scripts/WebXRController.cs:340 | the parse succeeds exactly on the member names: a result is the hand named by the string, and every member name parses to its hand |
| `Decisions.HandFromString` | Packages/webxr/Runtime/Scripts/WebXRController.cs:332-348 | null or empty gives NONE; any other result is the hand whose name the upper-cased string spells; anything unparsable falls back to NONE |
| `Decisions.HandNameRoundTrip` | Packages/webxr/Runtime/Scripts/WebXRController.cs:332-348 | every hand's name parses back to that hand |
| `Decisions.HandFromStringIgnoresCase` | Packages/webxr/Runtime/Scripts/WebXRController.cs:340 | a string and its upper-cased form parse to the same hand |
| `Decisions.PulseDispatch` | Packages/webxr/Runtime/Scripts/WebXRController.cs:372-387 | the subsystem gets the pulse iff it is available (hand, intensity, milliseconds); otherwise the device gets it iff one is bound with known impulse support (channel 0, seconds = ms / 1000); otherwise no call |
| `HandSkeleton.JointScale` | Packages/webxr/Runtime/Scripts/WebXRController.cs:309-316 | a new node's scale is positive: its radius iff the radius is positive, else 0.005 |
| `HandSkeleton.CacheJoint` | Packages/webxr/Runtime/Scripts/WebXRController.cs:296-319 | a disabled joint changes nothing; an enabled one updates or adds exactly its own index; no other node changes |
| `HandSkeleton.UpdateJoints` | Packages/webxr/Runtime/Scripts/WebXRController.cs:294-320 | the joint loop never removes a cached node (full effect in `JointLoopEffect`) |
| `HandSkeleton.JointLoopEffect` | Packages/webxr/Runtime/Scripts/WebXRController.cs:294-320 | the joint loop adds exactly the enabled indices (so nothing shrinks and no key outside them appears); an enabled joint's cached node takes the wrist-relative pose and keeps its scale and active flag; a new node gets the placement of that pose (instantiated in world space), JointScale(radius) and the prefab's flag; all other nodes are untouched |
| `HandSkeleton.JointLoopAt` | Packages/webxr/Runtime/Scripts/WebXRController.cs:294-320 | the same outcome for one key, proved by induction over the loop iterations |
| `HandSkeleton.ResendAddsNoNode` | Packages/webxr/Runtime/Scripts/WebXRController.cs:294-320 | re-sending the same snapshot creates no node, and afterwards every enabled joint's node, new ones included, sits at its wrist-relative pose |
| `HandSkeleton.CacheBounded` | Packages/webxr/Runtime/Scripts/WebXRController.cs:294-320 | from a cache of joint indices, a hand update keeps only joint indices and at most 25 nodes |
| `HandSkeleton.UpdateKeepsAllActive` | Packages/webxr/Runtime/Scripts/WebXRController.cs:305-317 | if every node and the prefab share one active flag, every node still has it after the loop |
| `HandSkeleton.SetAllActive` | Packages/webxr/Runtime/Scripts/WebXRController.cs:365-368 | every cached node takes the flag; keys and the rest of each node are unchanged |
| `HandSkeleton.SetHandJointsVisible` | Packages/webxr/Runtime/Scripts/WebXRController.cs:358-369 | the flag ends equal to the request; an equal request changes nothing; otherwise every node takes the flag; keys and poses never change |
| `HandSkeleton.SetHandJointsVisibleIdempotent` | Packages/webxr/Runtime/Scripts/WebXRController.cs:358-369 | two identical calls in a row equal one |
| `HandSkeleton.GuardOnlySavesWrites` | Packages/webxr/Runtime/Scripts/WebXRController.cs:360-363 | while nodes agree with the flag, the guarded call leaves the nodes exactly as the unguarded loop would |
| `HandSkeleton.HideKeepsInvariant` | Packages/webxr/Runtime/Scripts/WebXRController.cs:281-285 | hiding the joints keeps "only joint indices, and nodes agree with the flag under an active prefab" |
| `HandSkeleton.ShowAndUpdateKeepsInvariant` | Packages/webxr/Runtime/Scripts/WebXRController.cs:286-320 | showing the joints and then running the joint loop keeps that invariant with the flag set |
| `Controller.ButtonsFromAxes` | Packages/webxr/Runtime/Scripts/WebXRController.cs:266-272 | the first n slots in ordinal order, each carrying its button's analog field and pressed iff that field is 1 |
| `Controller.RefreshKeepsConsistent` | Packages/webxr/Runtime/Scripts/WebXRController.cs:266-273 | re-decoding buttons from new analog fields keeps every entry equal to its field and pressed iff 1, and creates an entry for each button written |
| `Controller.ClickValue` | Packages/webxr/Runtime/Scripts/WebXRController.cs:111-126 | a reported click reads 1 exactly when pressed and 0 exactly when released; an unreported one keeps the current value |
| `Controller.PolledAxes` | Packages/webxr/Runtime/Scripts/WebXRController.cs:80-127 | trigger and grip are snapped; each 2D axis and click the device reported replaces the field (click as 1/0); unreported ones keep their value |
| `Controller.PolledButtonsPressed` | Packages/webxr/Runtime/Scripts/WebXRController.cs:129-136 | after a poll the trigger (grip) slot is pressed iff the raw reading is at least 0.98; a reported primary button is pressed iff reported pressed |
| `Controller.WebXRController.constructor` | Packages/webxr/Runtime/Scripts/WebXRController.cs:51-67 | zero analog fields, empty button table and joint cache, joints hidden; the invariant holds |
| `Controller.WebXRController.GetAxis` | Packages/webxr/Runtime/Scripts/WebXRController.cs:151-161 | returns the trigger or squeeze field, which equals the value stored in that button's entry |
| `Controller.WebXRController.GetAxis2D` | Packages/webxr/Runtime/Scripts/WebXRController.cs:163-173 | returns the thumbstick (primary) or touchpad (secondary) pair |
| `Controller.WebXRController.GetButton` | Packages/webxr/Runtime/Scripts/WebXRController.cs:175-182 | the table's pressed flag, false when absent; a pressed button reads full travel (its field is 1) |
| `Controller.WebXRController.GetPastButtonState` | Packages/webxr/Runtime/Scripts/WebXRController.cs:184-189 | the table's previous flag, false when absent |
| `Controller.WebXRController.SetButtonState` | Packages/webxr/Runtime/Scripts/WebXRController.cs:191-200 | the table field becomes ButtonTable.SetButtonState of the old table; no other field changes |
| `Controller.WebXRController.SetPastButtonState` | Packages/webxr/Runtime/Scripts/WebXRController.cs:202-207 | the table field becomes ButtonTable.SetPastButtonState of the old table |
| `Controller.WebXRController.GetButtonDown` | Packages/webxr/Runtime/Scripts/WebXRController.cs:209-217 | returns and latches exactly as ButtonTable.GetButtonDown; the invariant is kept |
| `Controller.WebXRController.GetButtonUp` | Packages/webxr/Runtime/Scripts/WebXRController.cs:219-227 | returns and clears exactly as ButtonTable.GetButtonUp; the invariant is kept |
| `Controller.WebXRController.UpdateButtons` | Packages/webxr/Runtime/Scripts/WebXRController.cs:142-149 | the loop leaves the table equal to ButtonTable.UpdateButtons of the old table |
| `Controller.WebXRController.SetVisible` | Packages/webxr/Runtime/Scripts/WebXRController.cs:350-356 | every controller-model object takes the flag, unconditionally |
| `Controller.WebXRController.SetHandJointsVisible` | Packages/webxr/Runtime/Scripts/WebXRController.cs:358-369 | the nodes and flag become HandSkeleton.SetHandJointsVisible of the old ones; nothing is written when the flag already matches |
| `Controller.WebXRController.UpdateHandJoints` | Packages/webxr/Runtime/Scripts/WebXRController.cs:294-320 | the loop over indices 0..24 leaves the cache equal to HandSkeleton.UpdateJoints of the old cache: cached nodes move to the wrist-relative pose, new ones are created at its world-space placement |
| `Controller.WebXRController.OnControllerUpdate` | Packages/webxr/Runtime/Scripts/WebXRController.cs:241-275 | another hand's snapshot changes nothing; disabled: only the models are hidden; enabled: models shown, pose and all ten fields taken, all six buttons rewritten so each is pressed iff its field is 1; joints and their visibility untouched; the invariant is kept |
| `Controller.WebXRController.OnHandUpdate` | Packages/webxr/Runtime/Scripts/WebXRController.cs:277-330 | another hand's snapshot changes nothing; disabled: only the guarded joint hiding; enabled: models hidden, joints shown, wrist pose taken, joint loop run, only trigger/squeeze and the Trigger and Grip entries rewritten; the invariant is kept |
| `Controller.WebXRController.TryUpdateButtons` | Packages/webxr/Runtime/Scripts/WebXRController.cs:75-139 | without a bound device, or with the subsystem available, nothing changes; otherwise the fields become PolledAxes of the old ones and all six buttons are rewritten from them |
| `Controller.JointCacheBounded` | Packages/webxr/Runtime/Scripts/WebXRController.cs:66 | a valid controller never caches more than 25 joint nodes |
| `Controller.HandThenController` | Packages/webxr/Runtime/Scripts/WebXRController.cs:241-330 | after an enabled hand snapshot and then an enabled controller snapshot, the models are shown and the joints are still shown |

## Left out

- The Unity lifecycle and the subscription to the static `WebXRManager` events
  (`OnEnable`, `OnDisabled`, lines 389-429) are framework plumbing. The model
  calls the handlers directly.
- `onHeadsetUpdate` and the matrix helpers it calls (lines 229-239) are not
  modelled. `WebXRMatrixUtil` is not part of this model, and the stored head
  pose feeds nothing in the core.
- Device discovery (`HandleInputDevicesConnected`, `HandleInputDevicesDisconnected`,
  `InputDevices.*`) and the `TryGetFeatureValue` calls are foreign editor
  APIs. Their results are the `DevicePoll` input.
- The quaternion and vector arithmetic of joint poses is Unity
  floating-point math. It is the uninterpreted `JointGeometry` parameter
  (`localize` and `placeNew`).
- `Instantiate`, `SetActive` and `transform` writes have no scene graph behind
  them. The model keeps records and flags instead. A joint node's parent
  transform is not modelled; only its effect on a new node's pose is, through
  `placeNew`.
- The haptic calls `HapticPulse` and `SendHapticImpulse` are not modelled;
  only the choice of backend is.
- Float precision and rounding are not modelled: every analog value is a real.
- `simulate3dof`, `eyesToElbow`, `elbowHand` and `sitStand` are declared but
  never used by the core.
- `Decisions.HandFromString` does not model every form .NET `Enum.Parse`
  accepts. It treats numeric strings, comma-separated lists and names padded
  with white space as unparsable and returns NONE. `Debug.LogError` is not
  modelled.
- `Decisions.ParseHandName` accepts exactly the three member names. .NET
  `Enum.Parse` also accepts numeric strings ("0", "1" and "2" give NONE, LEFT
  and RIGHT; any other integer gives a value outside the enum),
  comma-separated lists and names padded with white space. The model returns
  None for all of these, so a configured "2" selects NONE here and RIGHT in
  the source.
- `Decisions.ToUpper` upper-cases ASCII letters only. Culture-specific
  casing rules are not modelled.
- `Controller.WebXRController.SetHandJointsVisible` does not count writes. "No
  write when the flag matches" is stated as "the state is unchanged", and the
  method returns before its loop.
