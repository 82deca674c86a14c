/**
  The device side: send_hid_report, which checks the interface's readiness
  and dispatches on the report id, and the delivery of a batch of actions
  under a readiness oracle. Readiness is an input: `ready(k)` is the answer
  of tud_hid_ready() at the k-th send attempt of the batch.
 */
module Device {
  import opened Hid

  /** The canned mouse movement: no button, 5 right, 5 down, no wheel, no pan. */
  const MouseDelta: int8 := 5

  /** One call of send_hid_report; `ready` is the readiness answer for it. */
  function SendHidReport(ready: bool, reportId: byte, modifier: byte, keycode: Keys): (r: seq<Event>)
    ensures !ready ==> r == []
    ensures ready && reportId == ReportIdKeyboard ==> r == [KeyboardOut(modifier, keycode)]
    ensures ready && reportId == ReportIdMouse ==> r == [MouseOut(0, MouseDelta, MouseDelta, 0, 0)]
    ensures reportId != ReportIdKeyboard && reportId != ReportIdMouse ==> r == []
  {
    if !ready then []
    else if reportId == ReportIdKeyboard then [KeyboardOut(modifier, keycode)]
    else if reportId == ReportIdMouse then [MouseOut(0x00, MouseDelta, MouseDelta, 0, 0)]
    else []
  }

  /**
    Delivers a batch in order: each Send consults the next readiness answer,
    starting with query `q`, and each Sleep becomes a delay marker. A send
    that finds the interface busy is dropped, never retried.
   */
  function Transmit(actions: seq<Action>, ready: nat -> bool, q: nat): (r: seq<Event>)
    ensures |r| <= |actions|
    ensures (forall k :: q <= k ==> !ready(k)) ==> forall i :: 0 <= i < |r| ==> r[i].Delay?
    decreases |actions|
  {
    if actions == [] then []
    else match actions[0]
      case Sleep(ms) => [Delay(ms)] + Transmit(actions[1..], ready, q)
      case Send(id, m, k) => SendHidReport(ready(q), id, m, k) + Transmit(actions[1..], ready, q + 1)
  }

  /** Reference rendering of a keyboard batch when nothing is ever dropped. */
  function Render(actions: seq<Action>): seq<Event>
  {
    if actions == [] then []
    else match actions[0]
      case Sleep(ms) => [Delay(ms)] + Render(actions[1..])
      case Send(_, m, k) => [KeyboardOut(m, k)] + Render(actions[1..])
  }

  /** The delay markers of a batch, in order. */
  function Delays(actions: seq<Action>): seq<Event>
  {
    if actions == [] then []
    else match actions[0]
      case Sleep(ms) => [Delay(ms)] + Delays(actions[1..])
      case Send(_, _, _) => Delays(actions[1..])
  }

  predicate KeyboardOnly(actions: seq<Action>) {
    forall i :: 0 <= i < |actions| ==> actions[i].Send? ==> actions[i].reportId == ReportIdKeyboard
  }

  /** A keyboard batch sent to an always-ready interface comes out unchanged and in order. */
  lemma {:induction false} TransmitWhenAlwaysReady(actions: seq<Action>, ready: nat -> bool, q: nat)
    requires KeyboardOnly(actions)
    requires forall k :: q <= k ==> ready(k)
    ensures Transmit(actions, ready, q) == Render(actions)
    decreases |actions|
  {
    if actions != [] {
      assert KeyboardOnly(actions[1..]) by {
        forall i | 0 <= i < |actions[1..]|
          ensures actions[1..][i].Send? ==> actions[1..][i].reportId == ReportIdKeyboard
        {
          assert actions[1..][i] == actions[i + 1];
        }
      }
      match actions[0]
      case Sleep(ms) =>
        TransmitWhenAlwaysReady(actions[1..], ready, q);
      case Send(id, m, k) =>
        assert actions[0].reportId == ReportIdKeyboard;
        assert ready(q);
        TransmitWhenAlwaysReady(actions[1..], ready, q + 1);
    }
  }

  /** An interface that is never ready receives nothing; only the pauses remain. */
  lemma {:induction false} TransmitWhenNeverReady(actions: seq<Action>, ready: nat -> bool, q: nat)
    requires forall k :: q <= k ==> !ready(k)
    ensures Transmit(actions, ready, q) == Delays(actions)
    decreases |actions|
  {
    if actions != [] {
      match actions[0]
      case Sleep(ms) =>
        TransmitWhenNeverReady(actions[1..], ready, q);
      case Send(id, m, k) =>
        assert !ready(q);
        TransmitWhenNeverReady(actions[1..], ready, q + 1);
    }
  }

  /** Rendering distributes over concatenation of batches. */
  lemma {:induction false} RenderAppend(a: seq<Action>, b: seq<Action>)
    ensures Render(a + b) == Render(a) + Render(b)
    decreases |a|
  {
    if a != [] {
      assert (a + b)[1..] == a[1..] + b;
      RenderAppend(a[1..], b);
    } else {
      assert a + b == b;
    }
  }
}
