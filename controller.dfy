/**
 * WebXRController: one tracked controller or hand. It keeps the analog
 * readings, the button-state table, the hand-joint cache and the visibility
 * of its two representations (the controller models in showGOs and the hand
 * joints), and it is driven by controller snapshots, hand snapshots and, when
 * the broadcast subsystem is unavailable, a native device poll. Snapshots for
 * another hand are ignored.
 *
 * The class invariant Valid() records what the three snapshot handlers keep
 * true together: every stored button entry carries the value of the analog
 * field it was decoded from and is pressed exactly when that value is 1, the
 * joint cache only holds joint indices, and (with an active joint prefab)
 * every joint node is shown exactly when handJointsVisible says so.
 */
module Controller {
  import opened Common
  import opened ButtonTable
  import opened HandSkeleton
  import opened Decisions

  /** AxisTypes. */
  datatype AxisType = Trigger | Grip

  /** Axis2DTypes: Thumbstick is the primary 2D axis, Touchpad the secondary. */
  datatype Axis2DType = Thumbstick | Touchpad

  /** The ten analog fields of the component. */
  datatype AxisValues = AxisValues(trigger: real, squeeze: real,
                                   thumbstick: real, thumbstickX: real, thumbstickY: real,
                                   touchpad: real, touchpadX: real, touchpadY: real,
                                   buttonA: real, buttonB: real)

  const ZeroAxes := AxisValues(0.0, 0.0, 0.0, 0.0, 0.0, 0.0, 0.0, 0.0, 0.0, 0.0)

  /** The analog field each button is decoded from. */
  function ButtonValue(a: AxisValues, b: ButtonType): (v: real)
  {
    match b
    case Trigger => a.trigger
    case Grip => a.squeeze
    case Thumbstick => a.thumbstick
    case Touchpad => a.touchpad
    case ButtonA => a.buttonA
    case ButtonB => a.buttonB
  }

  /** The button an AxisTypes value reads the same field as. */
  function AxisButton(action: AxisType): (b: ButtonType)
    ensures Ordinal(b) < 2
  {
    match action
    case Trigger => ButtonType.Trigger
    case Grip => ButtonType.Grip
  }

  /**
   * The array a snapshot hands to UpdateButtons: its first n slots, in
   * ordinal order, each decoded as `new WebXRControllerButton(v == 1, v)`
   * from the button's analog field.
   */
  function ButtonsFromAxes(a: AxisValues, n: nat): (s: seq<ButtonSample>)
    requires n <= ButtonCount
    ensures |s| == n
    ensures forall b :: Ordinal(b) < n ==> s[Ordinal(b)].value == ButtonValue(a, b) &&
                                            (s[Ordinal(b)].pressed <==> ButtonValue(a, b) == 1.0)
  {
    seq(n, i requires 0 <= i < n => Sample(ButtonValue(a, ButtonAt(i))))
  }

  /** Every stored entry carries its field's value and is pressed exactly when that value is 1. */
  ghost predicate Consistent(t: Table, a: AxisValues)
  {
    forall b :: b in t ==> t[b].value == ButtonValue(a, b) && (t[b].pressed <==> t[b].value == 1.0)
  }

  /**
   * Decoding the first n buttons from new analog values keeps the table
   * consistent, provided the fields of the buttons not rewritten did not move;
   * afterwards each of those n buttons has an entry.
   */
  lemma RefreshKeepsConsistent(t: Table, before: AxisValues, after: AxisValues, n: nat)
    requires n <= ButtonCount
    requires Consistent(t, before)
    requires forall b :: Ordinal(b) >= n ==> ButtonValue(after, b) == ButtonValue(before, b)
    ensures var r := ButtonTable.UpdateButtons(t, ButtonsFromAxes(after, n));
            Consistent(r, after) && forall b :: Ordinal(b) < n ==> b in r
  {
    UpdateButtonsEffect(t, ButtonsFromAxes(after, n));
  }

  /** WebXRControllerData. */
  datatype ControllerData = ControllerData(hand: int, enabled: bool, position: Vec3, rotation: Quat,
                                           trigger: real, squeeze: real,
                                           thumbstick: real, thumbstickX: real, thumbstickY: real,
                                           touchpad: real, touchpadX: real, touchpadY: real,
                                           buttonA: real, buttonB: real)

  /** The analog fields a controller snapshot carries. */
  function ControllerAxes(d: ControllerData): (a: AxisValues)
  {
    AxisValues(d.trigger, d.squeeze, d.thumbstick, d.thumbstickX, d.thumbstickY,
               d.touchpad, d.touchpadX, d.touchpadY, d.buttonA, d.buttonB)
  }

  /** WebXRHandData. */
  datatype HandData = HandData(hand: int, enabled: bool, joints: seq<JointPose>, trigger: real, squeeze: real)

  /**
   * One poll of the native device: the trigger and grip readings (always
   * written), and for the 2D axes and the four clicks the value when the
   * device reported one.
   */
  datatype DevicePoll = DevicePoll(trigger: real, grip: real,
                                   primary2DAxis: Option<Vec2>, secondary2DAxis: Option<Vec2>,
                                   primary2DAxisClick: Option<bool>, secondary2DAxisClick: Option<bool>,
                                   primaryButton: Option<bool>, secondaryButton: Option<bool>)

  /** A polled click: 1 or 0 when reported, otherwise the current value. */
  function ClickValue(read: Option<bool>, current: real): (v: real)
    ensures read.Some? ==> (v == 1.0 <==> read.value) && (v == 0.0 <==> !read.value)
    ensures read.None? ==> v == current
  {
    match read
    case Some(pressed) => if pressed then 1.0 else 0.0
    case None => current
  }

  /** A polled 2D axis: the reported pair, otherwise the current one. */
  function AxisValue2D(read: Option<Vec2>, current: Vec2): (v: Vec2)
  {
    match read
    case Some(v) => v
    case None => current
  }

  /**
   * The analog fields after a native device poll: trigger and grip snapped
   * to the dead zones, and each 2D axis or click the device reported taken
   * over, a click as 1 or 0.
   */
  function PolledAxes(a: AxisValues, poll: DevicePoll): (r: AxisValues)
    ensures r.trigger == SnapDeadZone(poll.trigger) && r.squeeze == SnapDeadZone(poll.grip)
    ensures Vec2(r.thumbstickX, r.thumbstickY) == AxisValue2D(poll.primary2DAxis, Vec2(a.thumbstickX, a.thumbstickY))
    ensures Vec2(r.touchpadX, r.touchpadY) == AxisValue2D(poll.secondary2DAxis, Vec2(a.touchpadX, a.touchpadY))
    ensures r.thumbstick == ClickValue(poll.primary2DAxisClick, a.thumbstick)
    ensures r.touchpad == ClickValue(poll.secondary2DAxisClick, a.touchpad)
    ensures r.buttonA == ClickValue(poll.primaryButton, a.buttonA)
    ensures r.buttonB == ClickValue(poll.secondaryButton, a.buttonB)
  {
    var thumb := AxisValue2D(poll.primary2DAxis, Vec2(a.thumbstickX, a.thumbstickY));
    var pad := AxisValue2D(poll.secondary2DAxis, Vec2(a.touchpadX, a.touchpadY));
    AxisValues(SnapDeadZone(poll.trigger), SnapDeadZone(poll.grip),
               ClickValue(poll.primary2DAxisClick, a.thumbstick), thumb.x, thumb.y,
               ClickValue(poll.secondary2DAxisClick, a.touchpad), pad.x, pad.y,
               ClickValue(poll.primaryButton, a.buttonA), ClickValue(poll.secondaryButton, a.buttonB))
  }

  /**
   * After a poll every button is pressed exactly when it reads full travel:
   * trigger and grip when the raw reading is at least DEAD_ZONE_HIGH, a click
   * when the device reported it pressed (or, unreported, when it was already
   * at 1).
   */
  lemma PolledButtonsPressed(a: AxisValues, poll: DevicePoll)
    ensures var s := ButtonsFromAxes(PolledAxes(a, poll), ButtonCount);
      && (s[Ordinal(ButtonType.Trigger)].pressed <==> poll.trigger >= DEAD_ZONE_HIGH)
      && (s[Ordinal(ButtonType.Grip)].pressed <==> poll.grip >= DEAD_ZONE_HIGH)
      && (poll.primaryButton.Some? ==> (s[Ordinal(ButtonType.ButtonA)].pressed <==> poll.primaryButton.value))
      && (poll.primaryButton.None? ==> (s[Ordinal(ButtonType.ButtonA)].pressed <==> a.buttonA == 1.0))
  {
  }

  class WebXRController {
    /** The configured hand; snapshots for any other hand are ignored. */
    const hand: Hand
    /** Active flags of the controller-model GameObjects. */
    const showGOs: array<bool>
    /** Active flag of handJointPrefab, which every new joint node inherits. */
    const handJointPrefabActive: bool

    var axes: AxisValues
    var localPosition: Vec3
    var localRotation: Quat
    var buttonStates: Table
    var handJoints: Joints
    var handJointsVisible: bool

    ghost predicate Valid()
      reads this
    {
      && Consistent(buttonStates, axes)
      && JointInvariant(JointSet(handJoints, handJointsVisible), handJointPrefabActive)
    }

    constructor (hand: Hand, showGOs: array<bool>, handJointPrefabActive: bool, position: Vec3, rotation: Quat)
      ensures Valid()
      ensures this.hand == hand && this.showGOs == showGOs && this.handJointPrefabActive == handJointPrefabActive
      ensures axes == ZeroAxes && localPosition == position && localRotation == rotation
      ensures buttonStates == map[] && handJoints == map[] && !handJointsVisible
    {
      this.hand := hand;
      this.showGOs := showGOs;
      this.handJointPrefabActive := handJointPrefabActive;
      axes := ZeroAxes;
      localPosition := position;
      localRotation := rotation;
      buttonStates := map[];
      handJoints := map[];
      handJointsVisible := false;
    }

    /** GetAxis: the stored trigger or squeeze value, which is also the value of that button's entry. */
    function GetAxis(action: AxisType): (r: real)
      reads this
      ensures r == ButtonValue(axes, AxisButton(action))
      ensures Valid() && AxisButton(action) in buttonStates ==> r == buttonStates[AxisButton(action)].value
    {
      match action
      case Grip => axes.squeeze
      case Trigger => axes.trigger
    }

    /** GetAxis2D: the stored thumbstick or touchpad pair. */
    function GetAxis2D(action: Axis2DType): (r: Vec2)
      reads this
      ensures action == Axis2DType.Thumbstick ==> r.x == axes.thumbstickX && r.y == axes.thumbstickY
      ensures action == Axis2DType.Touchpad ==> r.x == axes.touchpadX && r.y == axes.touchpadY
    {
      match action
      case Thumbstick => Vec2(axes.thumbstickX, axes.thumbstickY)
      case Touchpad => Vec2(axes.touchpadX, axes.touchpadY)
    }

    /** GetButton: false for a button never observed; a pressed button reads full travel. */
    function GetButton(action: ButtonType): (r: bool)
      reads this
      ensures r == ButtonTable.GetButton(buttonStates, action)
      ensures r ==> action in buttonStates
      ensures Valid() && r ==> ButtonValue(axes, action) == 1.0
    {
      action in buttonStates && buttonStates[action].pressed
    }

    function GetPastButtonState(action: ButtonType): (r: bool)
      reads this
      ensures r == ButtonTable.GetPastButtonState(buttonStates, action)
      ensures r ==> action in buttonStates
    {
      action in buttonStates && buttonStates[action].prevPressedState
    }

    method SetButtonState(action: ButtonType, isPressed: bool, value: real)
      modifies this`buttonStates
      ensures buttonStates == ButtonTable.SetButtonState(old(buttonStates), action, isPressed, value)
    {
      if action in buttonStates {
        buttonStates := buttonStates[action := buttonStates[action].(pressed := isPressed, value := value)];
      } else {
        buttonStates := buttonStates[action := ButtonState(isPressed, value, false)];
      }
    }

    method SetPastButtonState(action: ButtonType, isPressed: bool)
      modifies this`buttonStates
      ensures buttonStates == ButtonTable.SetPastButtonState(old(buttonStates), action, isPressed)
    {
      if action !in buttonStates {
        return;
      }
      buttonStates := buttonStates[action := buttonStates[action].(prevPressedState := isPressed)];
    }

    method GetButtonDown(action: ButtonType) returns (down: bool)
      requires Valid()
      modifies this`buttonStates
      ensures Valid()
      ensures down == ButtonTable.GetButtonDown(old(buttonStates), action).fired
      ensures buttonStates == ButtonTable.GetButtonDown(old(buttonStates), action).table
    {
      if GetButton(action) && !GetPastButtonState(action) {
        SetPastButtonState(action, true);
        return true;
      }
      return false;
    }

    method GetButtonUp(action: ButtonType) returns (up: bool)
      requires Valid()
      modifies this`buttonStates
      ensures Valid()
      ensures up == ButtonTable.GetButtonUp(old(buttonStates), action).fired
      ensures buttonStates == ButtonTable.GetButtonUp(old(buttonStates), action).table
    {
      if !GetButton(action) && GetPastButtonState(action) {
        SetPastButtonState(action, false);
        return true;
      }
      return false;
    }

    /** UpdateButtons: writes slot i to the button with ordinal i, in order. */
    method UpdateButtons(buttons: seq<ButtonSample>)
      requires |buttons| <= ButtonCount
      modifies this`buttonStates
      ensures buttonStates == ButtonTable.UpdateButtons(old(buttonStates), buttons)
    {
      ghost var start := buttonStates;
      assert buttons[..0] == [];
      for i := 0 to |buttons|
        invariant buttonStates == ButtonTable.UpdateButtons(start, buttons[..i])
      {
        UpdateButtonsStep(start, buttons, i);
        SetButtonState(ButtonAt(i), buttons[i].pressed, buttons[i].value);
      }
      assert buttons[..|buttons|] == buttons;
    }

    /** SetVisible: every controller-model GameObject takes the flag, unconditionally. */
    method SetVisible(visible: bool)
      modifies showGOs
      ensures forall j :: 0 <= j < showGOs.Length ==> showGOs[j] == visible
    {
      for j := 0 to showGOs.Length
        invariant forall m :: 0 <= m < j ==> showGOs[m] == visible
      {
        showGOs[j] := visible;
      }
    }

    /** SetHandJointsVisible: nothing is written when the flag already has the requested value. */
    method SetHandJointsVisible(visible: bool)
      modifies this`handJoints, this`handJointsVisible
      ensures JointSet(handJoints, handJointsVisible) ==
              HandSkeleton.SetHandJointsVisible(old(JointSet(handJoints, handJointsVisible)), visible)
    {
      if handJointsVisible == visible {
        return;
      }
      handJointsVisible := visible;
      ghost var before := handJoints;
      var pending := handJoints.Keys;
      while pending != {}
        invariant handJointsVisible == visible
        invariant pending <= before.Keys
        invariant handJoints.Keys == before.Keys
        invariant forall k :: k in pending ==> handJoints[k] == before[k]
        invariant forall k :: k in before && k !in pending ==> handJoints[k] == before[k].(active := visible)
        decreases pending
      {
        ghost var member := SomeIndex(pending);  // supplies the witness for the such-that below
        var k :| k in pending;
        handJoints := handJoints[k := handJoints[k].(active := visible)];
        pending := pending - {k};
      }
      ghost var expected := SetAllActive(before, visible);
      assert forall k :: k in handJoints ==> handJoints[k] == expected[k];
      assert handJoints == expected;
      assert HandSkeleton.SetHandJointsVisible(JointSet(before, !visible), visible) == JointSet(expected, visible);
    }

    /**
     * The joint loop of OnHandUpdate over indices 0 .. LITTLE_PHALANX_TIP:
     * an enabled joint's node is moved to its wrist-relative pose, or created
     * at that pose in world space (its placement) with scale JointScale(radius)
     * and the prefab's active flag.
     */
    method UpdateHandJoints(joints: seq<JointPose>, geo: JointGeometry)
      requires |joints| == JOINT_COUNT
      modifies this`handJoints
      ensures handJoints == UpdateJoints(old(handJoints), joints, JOINT_COUNT, geo, handJointPrefabActive)
    {
      for i := 0 to LITTLE_PHALANX_TIP + 1
        invariant handJoints == UpdateJoints(old(handJoints), joints, i, geo, handJointPrefabActive)
      {
        var joint := joints[i];
        if joint.enabled {
          var local := geo.localize(joints[0], joint);
          if i in handJoints {
            handJoints := handJoints[i := handJoints[i].(localPosition := local.position, localRotation := local.rotation)];
          } else {
            var placed := geo.placeNew(local);
            handJoints := handJoints[i := JointNode(placed.position, placed.rotation, JointScale(joint.radius), handJointPrefabActive)];
          }
        }
      }
    }

    /** The controller-model GameObjects are all shown (v) or all hidden (!v). */
    ghost predicate AllShown(v: bool)
      reads showGOs
    {
      forall j :: 0 <= j < showGOs.Length ==> showGOs[j] == v
    }

    /**
     * OnControllerUpdate: a snapshot for this hand either hides the
     * controller models (disabled) or shows them, takes the pose and the
     * analog fields and rewrites all six buttons. Joint visibility is never
     * touched.
     */
    method OnControllerUpdate(data: ControllerData)
      requires Valid()
      modifies this, showGOs
      ensures Valid()
      ensures data.hand != HandValue(hand) ==> unchanged(this) && unchanged(showGOs)
      ensures data.hand == HandValue(hand) && !data.enabled ==> unchanged(this) && AllShown(false)
      ensures data.hand == HandValue(hand) && data.enabled ==>
                && AllShown(true)
                && localRotation == data.rotation && localPosition == data.position
                && axes == ControllerAxes(data)
                && buttonStates == ButtonTable.UpdateButtons(old(buttonStates), ButtonsFromAxes(axes, ButtonCount))
                && (forall b :: GetButton(b) <==> ButtonValue(axes, b) == 1.0)
                && handJoints == old(handJoints) && handJointsVisible == old(handJointsVisible)
    {
      if data.hand == HandValue(hand) {
        if !data.enabled {
          SetVisible(false);
          return;
        }
        SetVisible(true);
        localRotation := data.rotation;
        localPosition := data.position;
        ghost var before := axes;
        axes := ControllerAxes(data);
        var buttons := ButtonsFromAxes(axes, ButtonCount);
        RefreshKeepsConsistent(buttonStates, before, axes, ButtonCount);
        UpdateButtons(buttons);
      }
    }

    /**
     * OnHandUpdate: a disabled snapshot for this hand only hides the joints.
     * An enabled one hides the controller models, shows the joints, takes the
     * wrist pose, runs the joint loop over indices 0 .. LITTLE_PHALANX_TIP
     * and rewrites the Trigger and Grip entries only.
     */
    method OnHandUpdate(data: HandData, geo: JointGeometry)
      requires Valid()
      requires |data.joints| == JOINT_COUNT
      modifies this, showGOs
      ensures Valid()
      ensures data.hand != HandValue(hand) ==> unchanged(this) && unchanged(showGOs)
      ensures data.hand == HandValue(hand) && !data.enabled ==>
                && unchanged(showGOs)
                && JointSet(handJoints, handJointsVisible) ==
                   HandSkeleton.SetHandJointsVisible(old(JointSet(handJoints, handJointsVisible)), false)
                && axes == old(axes) && buttonStates == old(buttonStates)
                && localPosition == old(localPosition) && localRotation == old(localRotation)
      ensures data.hand == HandValue(hand) && data.enabled ==>
                && AllShown(false)
                && handJointsVisible
                && handJoints == UpdateJoints(HandSkeleton.SetHandJointsVisible(old(JointSet(handJoints, handJointsVisible)), true).nodes,
                                              data.joints, JOINT_COUNT, geo, handJointPrefabActive)
                && localPosition == data.joints[0].position && localRotation == data.joints[0].rotation
                && axes == old(axes).(trigger := data.trigger, squeeze := data.squeeze)
                && buttonStates == ButtonTable.UpdateButtons(old(buttonStates), ButtonsFromAxes(axes, 2))
    {
      if data.hand == HandValue(hand) {
        if !data.enabled {
          HideKeepsInvariant(JointSet(handJoints, handJointsVisible), handJointPrefabActive);
          SetHandJointsVisible(false);
          return;
        }
        ShowAndUpdateKeepsInvariant(JointSet(handJoints, handJointsVisible), data.joints, geo, handJointPrefabActive);
        SetVisible(false);
        SetHandJointsVisible(true);
        localPosition := data.joints[0].position;
        localRotation := data.joints[0].rotation;

        UpdateHandJoints(data.joints, geo);

        ghost var before := axes;
        axes := axes.(trigger := data.trigger, squeeze := data.squeeze);
        var buttons := ButtonsFromAxes(axes, 2);
        RefreshKeepsConsistent(buttonStates, before, axes, 2);
        UpdateButtons(buttons);
      }
    }

    /**
     * TryUpdateButtons: when the broadcast subsystem is unavailable and a
     * native device is bound, the poll's trigger and grip are snapped to the
     * dead zones, the 2D axes and clicks that the device reported are taken,
     * and all six buttons are rewritten from the resulting fields.
     */
    method TryUpdateButtons(subsystemAvailable: bool, device: Option<DevicePoll>)
      requires Valid()
      modifies this`axes, this`buttonStates
      ensures Valid()
      ensures subsystemAvailable || device.None? ==> axes == old(axes) && buttonStates == old(buttonStates)
      ensures !subsystemAvailable && device.Some? ==>
                var poll := device.value;
                && axes == PolledAxes(old(axes), poll)
                && buttonStates == ButtonTable.UpdateButtons(old(buttonStates), ButtonsFromAxes(axes, ButtonCount))
                && (GetButton(ButtonType.Trigger) <==> poll.trigger >= DEAD_ZONE_HIGH)
                && (GetButton(ButtonType.Grip) <==> poll.grip >= DEAD_ZONE_HIGH)
    {
      if !subsystemAvailable && device.Some? {
        var poll := device.value;
        ghost var before := axes;
        axes := PolledAxes(axes, poll);
        var buttons := ButtonsFromAxes(axes, ButtonCount);
        RefreshKeepsConsistent(buttonStates, before, axes, ButtonCount);
        UpdateButtons(buttons);
      }
    }
  }

  /** A valid controller never holds more joint nodes than a hand has joints. */
  lemma JointCacheBounded(c: WebXRController)
    requires c.Valid()
    ensures |c.handJoints.Keys| <= JOINT_COUNT
  {
    IndexSetBounded(c.handJoints.Keys, JOINT_COUNT);
  }

  /**
   * The two sources drive separate representations: an enabled hand snapshot
   * hides the controller models and shows the joints, and a following enabled
   * controller snapshot shows the models again without hiding the joints.
   */
  method HandThenController(c: WebXRController, handData: HandData, controllerData: ControllerData,
                            geo: JointGeometry)
    requires c.Valid()
    requires |handData.joints| == JOINT_COUNT
    requires handData.hand == HandValue(c.hand) && handData.enabled
    requires controllerData.hand == HandValue(c.hand) && controllerData.enabled
    modifies c, c.showGOs
    ensures c.Valid() && c.AllShown(true) && c.handJointsVisible
  {
    c.OnHandUpdate(handData, geo);
    assert c.AllShown(false) && c.handJointsVisible;
    c.OnControllerUpdate(controllerData);
  }
}
