/**
 * The button-state table of WebXRController: a dictionary from ButtonTypes
 * to {pressed, value, prevPressedState}, written by the snapshot handlers and
 * read by consumers. Edge detection is consume-on-read: GetButtonDown and
 * GetButtonUp latch prevPressedState when they report an edge.
 *
 * Every operation here is a function on the dictionary value; the class
 * WebXRController (module Controller) holds the dictionary in a field and its
 * methods are proved to perform exactly these functions.
 */
module ButtonTable {

  /** ButtonTypes, with its ordinal used to index snapshot arrays. */
  datatype ButtonType = Trigger | Grip | Thumbstick | Touchpad | ButtonA | ButtonB

  const ButtonCount: nat := 6

  function Ordinal(b: ButtonType): (i: nat)
    ensures i < ButtonCount
  {
    match b
    case Trigger => 0
    case Grip => 1
    case Thumbstick => 2
    case Touchpad => 3
    case ButtonA => 4
    case ButtonB => 5
  }

  /** The cast `(ButtonTypes)i`, the inverse of Ordinal. */
  function ButtonAt(i: nat): (b: ButtonType)
    requires i < ButtonCount
    ensures Ordinal(b) == i
  {
    if i == 0 then Trigger
    else if i == 1 then Grip
    else if i == 2 then Thumbstick
    else if i == 3 then Touchpad
    else if i == 4 then ButtonA
    else ButtonB
  }

  lemma OrdinalRoundTrip(b: ButtonType)
    ensures ButtonAt(Ordinal(b)) == b
  {
  }

  /** A WebXRControllerButton as the table stores it. */
  datatype ButtonState = ButtonState(pressed: bool, value: real, prevPressedState: bool)

  /** A WebXRControllerButton as a snapshot hands it to UpdateButtons: only pressed and value are read. */
  datatype ButtonSample = ButtonSample(pressed: bool, value: real)

  type Table = map<ButtonType, ButtonState>

  /** `new WebXRControllerButton(value == 1, value)`, the way every snapshot decodes a reading. */
  function Sample(value: real): (s: ButtonSample)
    ensures s.value == value
    ensures s.pressed <==> value == 1.0
  {
    ButtonSample(value == 1.0, value)
  }

  /** GetButton: the stored pressed flag; an identity never observed reads as released. */
  function GetButton(t: Table, b: ButtonType): (pressed: bool)
    ensures pressed ==> b in t
    ensures b in t ==> (pressed <==> t[b].pressed)
  {
    if b !in t then false else t[b].pressed
  }

  /** GetPastButtonState: the stored previous-pressed flag, false when absent. */
  function GetPastButtonState(t: Table, b: ButtonType): (prev: bool)
    ensures prev ==> b in t
    ensures b in t ==> (prev <==> t[b].prevPressedState)
  {
    if b !in t then false else t[b].prevPressedState
  }

  /**
   * SetButtonState: upsert. An existing entry keeps its prevPressedState; a new
   * entry starts with prevPressedState false. Nothing else in the table moves.
   */
  function SetButtonState(t: Table, b: ButtonType, isPressed: bool, value: real): (r: Table)
    ensures forall k :: k in r <==> k in t || k == b
    ensures r[b].pressed == isPressed && r[b].value == value
    ensures r[b].prevPressedState == GetPastButtonState(t, b)
    ensures forall k :: k in t && k != b ==> r[k] == t[k]
  {
    if b in t then t[b := t[b].(pressed := isPressed, value := value)]
    else t[b := ButtonState(isPressed, value, false)]
  }

  /** SetPastButtonState: overwrites the flag of an existing entry; a no-op on an absent key. */
  function SetPastButtonState(t: Table, b: ButtonType, isPressed: bool): (r: Table)
    ensures r.Keys == t.Keys
    ensures b !in t ==> r == t
    ensures b in t ==> r[b] == t[b].(prevPressedState := isPressed)
    ensures forall k :: k in t && k != b ==> r[k] == t[k]
  {
    if b !in t then t else t[b := t[b].(prevPressedState := isPressed)]
  }

  /** What a poll returns: whether it reported an edge, and the table afterwards. */
  datatype Polled = Polled(fired: bool, table: Table)

  /** Readings (pressed and value) of every entry are the same in both tables, and so are the keys. */
  ghost predicate SameReadings(t: Table, u: Table)
  {
    t.Keys == u.Keys &&
    forall k :: k in t ==> u[k].pressed == t[k].pressed && u[k].value == t[k].value
  }

  /** GetButtonDown: a press edge is reported once and then latched into prevPressedState. */
  function GetButtonDown(t: Table, b: ButtonType): (r: Polled)
    ensures r.fired <==> b in t && t[b].pressed && !t[b].prevPressedState
    ensures r.fired ==> GetPastButtonState(r.table, b)
    ensures !r.fired ==> r.table == t
    ensures SameReadings(t, r.table)
    ensures forall k :: k in t && k != b ==> r.table[k] == t[k]
  {
    if GetButton(t, b) && !GetPastButtonState(t, b) then
      Polled(true, SetPastButtonState(t, b, true))
    else
      Polled(false, t)
  }

  /** GetButtonUp: the mirror image; a release edge is reported once and the flag cleared. */
  function GetButtonUp(t: Table, b: ButtonType): (r: Polled)
    ensures r.fired <==> b in t && !t[b].pressed && t[b].prevPressedState
    ensures r.fired ==> !GetPastButtonState(r.table, b)
    ensures !r.fired ==> r.table == t
    ensures SameReadings(t, r.table)
    ensures forall k :: k in t && k != b ==> r.table[k] == t[k]
  {
    if !GetButton(t, b) && GetPastButtonState(t, b) then
      Polled(true, SetPastButtonState(t, b, false))
    else
      Polled(false, t)
  }

  /** UpdateButtons: element i of the array is written to the button whose ordinal is i, in ordinal order. */
  function UpdateButtons(t: Table, buttons: seq<ButtonSample>): (r: Table)
    requires |buttons| <= ButtonCount
    ensures t.Keys <= r.Keys
    ensures forall k :: k in r ==> k in t || Ordinal(k) < |buttons|
    decreases |buttons|
  {
    if buttons == [] then t
    else
      var n := |buttons| - 1;
      SetButtonState(UpdateButtons(t, buttons[..n]), ButtonAt(n), buttons[n].pressed, buttons[n].value)
  }

  /**
   * What UpdateButtons does to one button: if its ordinal is inside the array
   * it ends with that slot's pressed and value and its old previous flag;
   * otherwise it is untouched (present or absent as before).
   */
  lemma {:induction false} UpdateButtonsAt(t: Table, buttons: seq<ButtonSample>, b: ButtonType)
    requires |buttons| <= ButtonCount
    ensures var r := UpdateButtons(t, buttons);
      && (b in r <==> b in t || Ordinal(b) < |buttons|)
      && (Ordinal(b) < |buttons| ==>
            r[b] == ButtonState(buttons[Ordinal(b)].pressed, buttons[Ordinal(b)].value, GetPastButtonState(t, b)))
      && (b in t && Ordinal(b) >= |buttons| ==> r[b] == t[b])
    decreases |buttons|
  {
    if buttons != [] {
      var n := |buttons| - 1;
      var prefix := buttons[..n];
      UpdateButtonsAt(t, prefix, b);
      var prior := UpdateButtons(t, prefix);
      assert UpdateButtons(t, buttons) == SetButtonState(prior, ButtonAt(n), buttons[n].pressed, buttons[n].value);
      if Ordinal(b) == n {
        assert ButtonAt(n) == b;
      } else {
        assert ButtonAt(n) != b;
        if Ordinal(b) < n {
          assert prefix[Ordinal(b)] == buttons[Ordinal(b)];
        }
      }
    }
  }

  /** UpdateButtonsAt for every button at once. */
  lemma {:induction false} UpdateButtonsEffect(t: Table, buttons: seq<ButtonSample>)
    requires |buttons| <= ButtonCount
    ensures var r := UpdateButtons(t, buttons);
      && (forall b :: b in r <==> b in t || Ordinal(b) < |buttons|)
      && (forall b :: Ordinal(b) < |buttons| ==>
            b in r && r[b] == ButtonState(buttons[Ordinal(b)].pressed, buttons[Ordinal(b)].value, GetPastButtonState(t, b)))
      && (forall b :: b in t && Ordinal(b) >= |buttons| ==> r[b] == t[b])
  {
    forall b: ButtonType
      ensures var r := UpdateButtons(t, buttons);
        && (b in r <==> b in t || Ordinal(b) < |buttons|)
        && (Ordinal(b) < |buttons| ==>
              b in r && r[b] == ButtonState(buttons[Ordinal(b)].pressed, buttons[Ordinal(b)].value, GetPastButtonState(t, b)))
        && (b in t && Ordinal(b) >= |buttons| ==> r[b] == t[b])
    {
      UpdateButtonsAt(t, buttons, b);
    }
  }

  /** UpdateButtons over one more slot is one more SetButtonState. */
  lemma UpdateButtonsStep(t: Table, buttons: seq<ButtonSample>, i: nat)
    requires i < |buttons| <= ButtonCount
    ensures UpdateButtons(t, buttons[..i + 1]) ==
            SetButtonState(UpdateButtons(t, buttons[..i]), ButtonAt(i), buttons[i].pressed, buttons[i].value)
  {
    assert buttons[..i + 1][..i] == buttons[..i];
  }

  /** An identity never passed to SetButtonState reads as released, reports no edge, and polling creates no entry. */
  lemma NeverSetReadsReleased(t: Table, b: ButtonType)
    requires b !in t
    ensures !GetButton(t, b) && !GetPastButtonState(t, b)
    ensures GetButtonDown(t, b) == Polled(false, t)
    ensures GetButtonUp(t, b) == Polled(false, t)
  {
  }

  /** Consume-on-read: a second poll in the same state reports nothing. */
  lemma SecondPollReportsNothing(t: Table, b: ButtonType)
    ensures !GetButtonDown(GetButtonDown(t, b).table, b).fired
    ensures !GetButtonUp(GetButtonUp(t, b).table, b).fired
  {
  }

  /** A press edge and a release edge are never both available in one state. */
  lemma DownAndUpExclusive(t: Table, b: ButtonType)
    ensures !(GetButtonDown(t, b).fired && GetButtonUp(t, b).fired)
  {
  }

  /** What can happen to one button between snapshot writes and consumer polls. */
  datatype ButtonEvent = Observe(pressed: bool, value: real) | PollDown | PollUp

  datatype Edge = Down | Up

  /** The table after a run of events on one button, with the edges the polls reported, in order. */
  datatype Trace = Trace(table: Table, edges: seq<Edge>)

  function Replay(t: Table, b: ButtonType, events: seq<ButtonEvent>): (r: Trace)
    decreases |events|
  {
    if events == [] then Trace(t, [])
    else
      var prior := Replay(t, b, events[..|events| - 1]);
      match events[|events| - 1]
      case Observe(p, v) => Trace(SetButtonState(prior.table, b, p, v), prior.edges)
      case PollDown =>
        var r := GetButtonDown(prior.table, b);
        Trace(r.table, if r.fired then prior.edges + [Down] else prior.edges)
      case PollUp =>
        var r := GetButtonUp(prior.table, b);
        Trace(r.table, if r.fired then prior.edges + [Up] else prior.edges)
  }

  /** The edge a button may report next, given its latched flag. */
  function NextEdge(prevPressed: bool): (e: Edge)
  {
    if prevPressed then Up else Down
  }

  /**
   * Down and up edges strictly alternate over any run of writes and polls,
   * and the first one is the one the initial flag allows: after a down edge
   * no further down edge is reported until an up edge has been, and vice
   * versa. The latched flag afterwards records the last edge reported.
   */
  lemma {:induction false} EdgesAlternate(t: Table, b: ButtonType, events: seq<ButtonEvent>)
    ensures var tr := Replay(t, b, events);
      && (forall j :: 0 <= j < |tr.edges| - 1 ==> tr.edges[j] != tr.edges[j + 1])
      && (|tr.edges| > 0 ==> tr.edges[0] == NextEdge(GetPastButtonState(t, b)))
      && NextEdge(GetPastButtonState(tr.table, b)) ==
           (if tr.edges == [] then NextEdge(GetPastButtonState(t, b))
            else if tr.edges[|tr.edges| - 1] == Down then Up else Down)
    decreases |events|
  {
    if events != [] {
      var prefix := events[..|events| - 1];
      EdgesAlternate(t, b, prefix);
      var prior := Replay(t, b, prefix);
      var expected := NextEdge(GetPastButtonState(prior.table, b));
      match events[|events| - 1]
      case Observe(p, v) =>
        assert GetPastButtonState(SetButtonState(prior.table, b, p, v), b) == GetPastButtonState(prior.table, b);
      case PollDown =>
        var r := GetButtonDown(prior.table, b);
        if r.fired {
          assert expected == Down;
          assert Replay(t, b, events).edges == prior.edges + [Down];
        }
      case PollUp =>
        var r := GetButtonUp(prior.table, b);
        if r.fired {
          assert expected == Up;
          assert Replay(t, b, events).edges == prior.edges + [Up];
        }
    }
  }

  /**
   * Only an up poll clears the latched flag (SetButtonState keeps it), so
   * without PollUp events every edge reported is a down edge.
   */
  lemma {:induction false} NoUpWithoutUpPoll(t: Table, b: ButtonType, events: seq<ButtonEvent>)
    requires forall j :: 0 <= j < |events| ==> !events[j].PollUp?
    ensures Up !in Replay(t, b, events).edges
    decreases |events|
  {
    if events != [] {
      var prefix := events[..|events| - 1];
      assert forall j :: 0 <= j < |prefix| ==> prefix[j] == events[j];
      NoUpWithoutUpPoll(t, b, prefix);
      var prior := Replay(t, b, prefix);
      match events[|events| - 1]
      case Observe(p, v) =>
      case PollDown =>
        assert Up !in prior.edges + [Down];
      case PollUp =>
        assert false;
    }
  }

  /**
   * A consumer that only ever polls for down edges sees at most one press in
   * total: after the first one fires, later presses are never reported.
   */
  lemma DownOnlyConsumerSeesOnePress(t: Table, b: ButtonType, events: seq<ButtonEvent>)
    requires forall j :: 0 <= j < |events| ==> !events[j].PollUp?
    ensures |Replay(t, b, events).edges| <= 1
  {
    NoUpWithoutUpPoll(t, b, events);
    EdgesAlternate(t, b, events);
  }

  /**
   * Press, poll down (fires), release, press again, poll down: the second
   * press goes unreported because no up poll cleared the flag in between.
   */
  lemma SecondPressUnreportedWithoutUpPoll(t: Table, b: ButtonType)
    requires !GetPastButtonState(t, b)
    ensures var first := GetButtonDown(SetButtonState(t, b, true, 1.0), b);
            var again := SetButtonState(SetButtonState(first.table, b, false, 0.0), b, true, 1.0);
            first.fired && !GetButtonDown(again, b).fired
  {
  }

  /**
   * A press, a hold and a release, each followed by polls, report exactly one
   * down edge (on the first poll after the press) and exactly one up edge (on
   * the first poll after the release).
   */
  lemma PressHoldRelease(t: Table, b: ButtonType, v: real)
    requires !GetPastButtonState(t, b)
    ensures var pressed := SetButtonState(t, b, true, v);
            var down1 := GetButtonDown(pressed, b);
            var down2 := GetButtonDown(down1.table, b);
            var held := SetButtonState(down2.table, b, true, v);
            var down3 := GetButtonDown(held, b);
            var released := SetButtonState(down3.table, b, false, 0.0);
            var up1 := GetButtonUp(released, b);
            var up2 := GetButtonUp(up1.table, b);
            var down4 := GetButtonDown(up2.table, b);
            down1.fired && !down2.fired && !down3.fired && up1.fired && !up2.fired && !down4.fired
  {
  }
}
