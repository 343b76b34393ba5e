/**
 * The small pure decisions of WebXRController: the dead-zone snapping of
 * analog values polled from a native device, the parsing of a configured
 * hand name, and the choice of haptics backend for a pulse.
 */
module Decisions {
  import opened Common

  /** Raw values at or below this read as fully released. */
  const DEAD_ZONE_LOW: real := 0.02
  /** Raw values at or above this read as fully pressed. */
  const DEAD_ZONE_HIGH: real := 0.98

  /**
   * The dead-zone snapping applied to a polled trigger or grip value: values
   * within 0.02 of either end of the travel become exactly 0 or 1, others
   * pass through unchanged.
   */
  function SnapDeadZone(raw: real): (v: real)
    ensures v == 1.0 <==> raw >= DEAD_ZONE_HIGH
    ensures v == 0.0 <==> raw <= DEAD_ZONE_LOW
    ensures v != raw ==> raw <= DEAD_ZONE_LOW || raw >= DEAD_ZONE_HIGH
    ensures 0.0 <= raw <= 1.0 ==> 0.0 <= v <= 1.0
  {
    if raw <= DEAD_ZONE_LOW then 0.0
    else if raw >= DEAD_ZONE_HIGH then 1.0
    else raw
  }

  lemma SnapIdempotent(raw: real)
    ensures SnapDeadZone(SnapDeadZone(raw)) == SnapDeadZone(raw)
  {
  }

  /** 0.015 snaps to 0, 0.985 snaps to 1, and 0.5 is kept (and so is not a press). */
  lemma SnapExamples()
    ensures SnapDeadZone(0.015) == 0.0
    ensures SnapDeadZone(0.985) == 1.0
    ensures SnapDeadZone(0.5) == 0.5 && SnapDeadZone(0.5) != 1.0
  {
  }

  /** WebXRControllerHand, with the integer a snapshot carries for it. */
  datatype Hand = NONE | LEFT | RIGHT

  function HandValue(h: Hand): (i: int)
    ensures 0 <= i <= 2
  {
    match h
    case NONE => 0
    case LEFT => 1
    case RIGHT => 2
  }

  /** Distinct hands have distinct snapshot integers, so the handedness filter admits exactly one hand. */
  lemma HandValueInjective(a: Hand, b: Hand)
    ensures HandValue(a) == HandValue(b) ==> a == b
  {
  }

  /** The member name of a hand, already in upper case. */
  function HandName(h: Hand): (name: string)
    ensures |name| > 0 && ToUpper(name) == name
  {
    match h
    case NONE => "NONE"
    case LEFT => "LEFT"
    case RIGHT => "RIGHT"
  }

  /** Upper-casing of one character (ASCII letters only). */
  function UpperChar(c: char): (u: char)
    ensures 'a' <= c <= 'z' ==> u as int == c as int - 32
    ensures !('a' <= c <= 'z') ==> u == c
    ensures !('a' <= u <= 'z')
  {
    if 'a' <= c <= 'z' then (c as int - 32) as char else c
  }

  /** String.ToUpper, restricted to ASCII letters. */
  function ToUpper(s: string): (u: string)
    ensures |u| == |s|
    ensures forall i :: 0 <= i < |s| ==> u[i] == UpperChar(s[i])
  {
    seq(|s|, i requires 0 <= i < |s| => UpperChar(s[i]))
  }

  lemma ToUpperIdempotent(s: string)
    ensures ToUpper(ToUpper(s)) == ToUpper(s)
  {
  }

  /** Enum.Parse of an upper-cased name: Some(hand) exactly when it names a member. */
  function ParseHandName(upper: string): (r: Option<Hand>)
    ensures r.Some? ==> HandName(r.value) == upper
    ensures forall h :: upper == HandName(h) ==> r == Some(h)
  {
    if upper == HandName(NONE) then Some(NONE)
    else if upper == HandName(LEFT) then Some(LEFT)
    else if upper == HandName(RIGHT) then Some(RIGHT)
    else None
  }

  /**
   * handFromString: null, the empty string and anything that is not a
   * member name (in any letter case) give NONE; the parse error is only
   * logged.
   */
  function HandFromString(handValue: Option<string>): (h: Hand)
    ensures handValue == None || handValue == Some("") ==> h == NONE
    ensures h != NONE ==> handValue.Some? && ToUpper(handValue.value) == HandName(h)
  {
    if handValue == None || handValue.value == "" then NONE
    else
      match ParseHandName(ToUpper(handValue.value))
      case Some(parsed) => parsed
      case None => NONE
  }

  /** Every hand's own name parses back to it. */
  lemma HandNameRoundTrip(h: Hand)
    ensures HandFromString(Some(HandName(h))) == h
  {
  }

  /** Parsing ignores letter case: a name and its upper-cased form give the same hand. */
  lemma HandFromStringIgnoresCase(s: string)
    ensures HandFromString(Some(s)) == HandFromString(Some(ToUpper(s)))
  {
  }

  /** UnityEngine.XR.HapticCapabilities, reduced to the one flag Pulse reads. */
  datatype HapticCapabilities = HapticCapabilities(supportsImpulse: bool)

  /** The backend call a pulse turns into. */
  datatype HapticRequest =
    | ManagerPulse(hand: Hand, intensity: real, durationMs: real)
    | DeviceImpulse(channel: nat, amplitude: real, durationSeconds: real)
    | NoPulse

  /**
   * Pulse: the broadcast subsystem takes the request when it is available
   * (keyed by hand, duration in milliseconds); otherwise a bound native device
   * that reports impulse support gets it on channel 0 with the duration in
   * seconds; otherwise nothing happens.
   */
  function PulseDispatch(subsystemAvailable: bool, hand: Hand, hasInputDevice: bool,
                         capabilities: Option<HapticCapabilities>, intensity: real, duration: real): (r: HapticRequest)
    ensures r.ManagerPulse? <==> subsystemAvailable
    ensures r.ManagerPulse? ==> r.hand == hand && r.intensity == intensity && r.durationMs == duration
    ensures r.DeviceImpulse? <==>
              !subsystemAvailable && hasInputDevice && capabilities.Some? && capabilities.value.supportsImpulse
    ensures r.DeviceImpulse? ==> r.channel == 0 && r.amplitude == intensity && r.durationSeconds * 1000.0 == duration
  {
    if subsystemAvailable then ManagerPulse(hand, intensity, duration)
    else if hasInputDevice && capabilities.Some? && capabilities.value.supportsImpulse then
      DeviceImpulse(0, intensity, duration * 0.001)
    else NoPulse
  }
}
