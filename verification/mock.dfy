/** The mock transport the device models are exercised with: a log of what
    was written, a FIFO queue of canned replies, a counter of control reads
    that are to time out, and logs of the vendor control transfers. Each
    operation takes the transport's state and returns the next state along
    with its result. */
module Mock {
  import opened Bytes
  import opened Errors
  import opened Types

  /** A recorded vendor control write: request, value, index and data. */
  datatype VendorCall = VendorCall(request: byte, value: u16, index: u16, data: seq<byte>)

  /** A recorded vendor control read: request, value and index. */
  datatype VendorRead = VendorRead(request: byte, value: u16, index: u16)

  datatype MockTransport = MockTransport(
    sent: seq<seq<byte>>,
    responses: seq<seq<byte>>,
    deviceType: DeviceType,
    controlFailures: nat,
    vendorCalls: seq<VendorCall>,
    vendorReads: seq<VendorRead>)

  /** The state after an operation, and what the operation returned. */
  datatype After<+T> = After(mock: MockTransport, result: Result<T>)

  /** `MockTransport::new`: nothing sent, nothing queued, no failures. */
  function New(deviceType: DeviceType): (m: MockTransport)
    ensures m.sent == [] && m.responses == [] && m.controlFailures == 0
    ensures m.vendorCalls == [] && m.vendorReads == [] && m.deviceType == deviceType
  {
    MockTransport([], [], deviceType, 0, [], [])
  }

  /** `push_response`: the reply joins the back of the queue. */
  function PushResponse(m: MockTransport, resp: seq<byte>): (r: MockTransport)
    ensures r.responses == m.responses + [resp]
    ensures r.(responses := m.responses) == m
  {
    m.(responses := m.responses + [resp])
  }

  /** `set_control_failures`. */
  function SetControlFailures(m: MockTransport, n: nat): (r: MockTransport)
    ensures r.controlFailures == n && r.(controlFailures := m.controlFailures) == m
  {
    m.(controlFailures := n)
  }

  /** `pop_sent`: takes the most recent entry off the write log. */
  function PopSent(m: MockTransport): (r: (MockTransport, Option<seq<byte>>))
    ensures |m.sent| == 0 ==> r == (m, None)
    ensures |m.sent| > 0 ==> r.1 == Some(m.sent[|m.sent| - 1]) && r.0.sent + [r.1.value] == m.sent
    ensures r.0.(sent := m.sent) == m
  {
    if |m.sent| == 0 then (m, None)
    else (m.(sent := m.sent[..|m.sent| - 1]), Some(m.sent[|m.sent| - 1]))
  }

  /** `send`: logged, and always accepted. */
  function Send(m: MockTransport, data: seq<byte>): (r: After<()>)
    ensures r.result.Ok? && r.mock.sent == m.sent + [data]
    ensures r.mock.(sent := m.sent) == m
  {
    After(m.(sent := m.sent + [data]), Ok(()))
  }

  /** `control_write`: logged in the same write log as `send`. */
  function ControlWrite(m: MockTransport, data: seq<byte>): (r: After<()>)
    ensures r == Send(m, data)
  {
    After(m.(sent := m.sent + [data]), Ok(()))
  }

  /** `receive`: the front of the queue, or `Timeout` when it is empty. */
  function Receive(m: MockTransport): (r: After<seq<byte>>)
    ensures |m.responses| == 0 <==> r.result == Err(Timeout)
    ensures |m.responses| == 0 ==> r.mock == m
    ensures |m.responses| > 0 ==> r.result == Ok(m.responses[0]) && [m.responses[0]] + r.mock.responses == m.responses
    ensures r.mock.(responses := m.responses) == m
  {
    if |m.responses| == 0 then After(m, Err(Timeout))
    else After(m.(responses := m.responses[1..]), Ok(m.responses[0]))
  }

  /** `device_type`. */
  function DeviceTypeOf(m: MockTransport): (r: Result<DeviceType>)
    ensures r == Ok(m.deviceType)
  {
    Ok(m.deviceType)
  }

  /** `reset`: the write log is emptied, the queue is kept. */
  function Reset(m: MockTransport): (r: After<()>)
    ensures r.result.Ok? && r.mock.sent == [] && r.mock.responses == m.responses
    ensures r.mock.(sent := m.sent) == m
  {
    After(m.(sent := []), Ok(()))
  }

  /** `vendor_control_write`: recorded with its parameters, and its data is
      logged as sent too. */
  function VendorControlWrite(m: MockTransport, request: byte, value: u16, index: u16, data: seq<byte>): (r: After<()>)
    ensures r.result.Ok? && r.mock.sent == m.sent + [data]
    ensures r.mock.vendorCalls == m.vendorCalls + [VendorCall(request, value, index, data)]
    ensures r.mock.(sent := m.sent, vendorCalls := m.vendorCalls) == m
  {
    After(m.(vendorCalls := m.vendorCalls + [VendorCall(request, value, index, data)], sent := m.sent + [data]), Ok(()))
  }

  /** `control_read`: while failures are pending, one is used up and the
      read times out without touching the queue; afterwards it is
      `receive`. */
  function ControlRead(m: MockTransport): (r: After<seq<byte>>)
    ensures m.controlFailures > 0 ==>
      r.result == Err(Timeout) && r.mock == m.(controlFailures := m.controlFailures - 1)
    ensures m.controlFailures == 0 ==> r == Receive(m)
  {
    if m.controlFailures > 0 then After(m.(controlFailures := m.controlFailures - 1), Err(Timeout))
    else Receive(m)
  }

  /** `vendor_control_read`: recorded with its parameters, then `receive`;
      pending control failures do not affect it. */
  function VendorControlRead(m: MockTransport, request: byte, value: u16, index: u16): (r: After<seq<byte>>)
    ensures r.mock.vendorReads == m.vendorReads + [VendorRead(request, value, index)]
    ensures r.result == Receive(m).result
    ensures r.mock.(vendorReads := m.vendorReads) == Receive(m).mock
  {
    var m1 := m.(vendorReads := m.vendorReads + [VendorRead(request, value, index)]);
    Receive(m1)
  }

  // ---- the queue is first in, first out ----

  /** Every reply pushed onto the mock in turn. */
  function PushAll(m: MockTransport, rs: seq<seq<byte>>): (r: MockTransport)
    ensures r.responses == m.responses + rs && r.(responses := m.responses) == m
    decreases |rs|
  {
    if |rs| == 0 then m else PushAll(PushResponse(m, rs[0]), rs[1..])
  }

  /** `n` receives in a row: the replies they return and the final state. */
  function ReceiveN(m: MockTransport, n: nat): (r: (MockTransport, seq<Result<seq<byte>>>))
    ensures |r.1| == n
    decreases n
  {
    if n == 0 then (m, [])
    else
      var a := Receive(m);
      var rest := ReceiveN(a.mock, n - 1);
      (rest.0, [a.result] + rest.1)
  }

  /** Receiving returns the queued replies in the order they were queued,
      then `Timeout` once the queue is empty; nothing but the queue
      changes. */
  lemma {:induction false} ReceiveInOrder(m: MockTransport, n: nat)
    ensures var r := ReceiveN(m, n);
      && (forall i :: 0 <= i < n ==> r.1[i] == if i < |m.responses| then Ok(m.responses[i]) else Err(Timeout))
      && r.0.responses == m.responses[if n < |m.responses| then n else |m.responses|..]
      && r.0.(responses := m.responses) == m
    decreases n
  {
    if n > 0 {
      var a := Receive(m);
      ReceiveInOrder(a.mock, n - 1);
      var rest := ReceiveN(a.mock, n - 1);
      var r := ReceiveN(m, n);
      assert r.1 == [a.result] + rest.1;
      if |m.responses| > 0 {
        assert a.mock.responses == m.responses[1..];
        forall i | 1 <= i < n
          ensures r.1[i] == if i < |m.responses| then Ok(m.responses[i]) else Err(Timeout)
        {
          assert r.1[i] == rest.1[i - 1];
        }
      } else {
        forall i | 1 <= i < n
          ensures r.1[i] == Err(Timeout)
        {
          assert r.1[i] == rest.1[i - 1];
        }
      }
    }
  }

  /** Replies pushed onto a fresh mock come back in push order, and one
      more receive times out. */
  lemma PushedComeBack(deviceType: DeviceType, rs: seq<seq<byte>>)
    ensures var r := ReceiveN(PushAll(New(deviceType), rs), |rs| + 1);
      && (forall i :: 0 <= i < |rs| ==> r.1[i] == Ok(rs[i]))
      && r.1[|rs|] == Err(Timeout)
  {
    var m := PushAll(New(deviceType), rs);
    assert m.responses == rs;
    ReceiveInOrder(m, |rs| + 1);
  }

  /** After a reset the queued replies are still there to be received. */
  lemma ResetKeepsQueue(m: MockTransport)
    requires |m.responses| > 0
    ensures Receive(Reset(m).mock).result == Ok(m.responses[0])
    ensures Reset(m).mock.sent == []
  {
  }

  /** One pending control failure: the first control read times out, the
      second returns the front of the queue. */
  lemma ControlFailureThenRecovery(m: MockTransport)
    requires m.controlFailures == 1 && |m.responses| > 0
    ensures ControlRead(m).result == Err(Timeout)
    ensures ControlRead(ControlRead(m).mock).result == Ok(m.responses[0])
  {
  }

  // ---- what the initialisation handshakes are stated with ----

  /** `n` copies of `x`. */
  function Copies<T>(x: T, n: nat): (r: seq<T>)
    ensures |r| == n && forall i :: 0 <= i < n ==> r[i] == x
  {
    seq(n, _ => x)
  }

  lemma CopiesSnoc<T>(x: T, n: nat)
    ensures Copies(x, n) + [x] == Copies(x, n + 1)
  {
    assert (Copies(x, n) + [x])[n] == x;
  }

  /** The position of the first non-empty reply among the first `n` of
      `rs`, if there is one. */
  function FirstNonEmpty(rs: seq<seq<byte>>, n: nat): (r: Option<nat>)
    ensures r.Some? ==> r.value < n && r.value < |rs|
    decreases n
  {
    if n == 0 || |rs| == 0 then None
    else if rs[0] != [] then Some(0)
    else match FirstNonEmpty(rs[1..], n - 1)
      case Some(j) => Some(j + 1)
      case None => None
  }

  /** `FirstNonEmpty` finds a non-empty reply with only empty ones before
      it, and finds none only when the first `n` are all empty. */
  lemma {:induction false} FirstNonEmptyMeaning(rs: seq<seq<byte>>, n: nat)
    ensures var r := FirstNonEmpty(rs, n);
      && (r.Some? ==> rs[r.value] != [] && forall k :: 0 <= k < r.value ==> rs[k] == [])
      && (r.None? ==> forall k :: 0 <= k < n && k < |rs| ==> rs[k] == [])
    decreases n
  {
    if n > 0 && |rs| > 0 && rs[0] == [] {
      FirstNonEmptyMeaning(rs[1..], n - 1);
      var r := FirstNonEmpty(rs, n);
      if r.Some? {
        forall k | 0 <= k < r.value
          ensures rs[k] == []
        {
          if k > 0 {
            assert rs[k] == rs[1..][k - 1];
          }
        }
      } else {
        forall k | 0 <= k < n && k < |rs|
          ensures rs[k] == []
        {
          if k > 0 {
            assert rs[k] == rs[1..][k - 1];
          }
        }
      }
    }
  }

  /** None of the first `n` queued replies is non-empty. */
  ghost predicate Quiet(rs: seq<seq<byte>>, n: nat)
  {
    FirstNonEmpty(rs, n).None?
  }

  lemma QuietExtend(rs: seq<seq<byte>>, n: nat)
    requires Quiet(rs, n) && (n < |rs| ==> rs[n] == [])
    ensures Quiet(rs, n + 1)
  {
    FirstNonEmptyMeaning(rs, n);
    FirstNonEmptyMeaning(rs, n + 1);
  }

  lemma QuietThenHit(rs: seq<seq<byte>>, n: nat, bound: nat)
    requires Quiet(rs, n) && n < bound && n < |rs| && rs[n] != []
    ensures FirstNonEmpty(rs, bound) == Some(n)
  {
    FirstNonEmptyMeaning(rs, n);
    FirstNonEmptyMeaning(rs, bound);
  }
}
