/** The S310 model's initialisation handshake: up to two attempts, each a
    vendor write of the init command followed by a vendor read, stated here
    against the mock transport. */
module S310Model {
  import opened Bytes
  import opened Errors
  import opened Mock

  const Attempts: nat := 2
  const InitCmd: seq<byte> := [0x54]
  const InitRequest: byte := 0x01

  const InitCall := VendorCall(InitRequest, 0, 0, InitCmd)
  const InitRead := VendorRead(InitRequest, 0, 0)

  function Min(a: nat, b: nat): nat { if a < b then a else b }

  /** The mock after `tries` attempts, each a write of the init command
      and a read, with `taken` queued replies used up. */
  function Expected(m0: MockTransport, tries: nat, taken: nat): MockTransport
    requires taken <= |m0.responses|
  {
    m0.(sent := m0.sent + Copies(InitCmd, tries),
        vendorCalls := m0.vendorCalls + Copies(InitCall, tries),
        vendorReads := m0.vendorReads + Copies(InitRead, tries),
        responses := m0.responses[taken..])
  }

  /** One more attempt takes the next queued reply, if there is one. */
  lemma WriteThenRead(m0: MockTransport, tries: nat, taken: nat)
    requires taken <= |m0.responses|
    ensures var a := VendorControlRead(VendorControlWrite(Expected(m0, tries, taken), InitRequest, 0, 0, InitCmd).mock, InitRequest, 0, 0);
      && a.mock == Expected(m0, tries + 1, Min(taken + 1, |m0.responses|))
      && a.result == (if taken < |m0.responses| then Ok(m0.responses[taken]) else Err(Timeout))
  {
    CopiesSnoc(InitCmd, tries);
    CopiesSnoc(InitCall, tries);
    CopiesSnoc(InitRead, tries);
  }

  /** `initialize`: the first attempt whose read returns a non-empty reply
      succeeds; an empty reply is retried; a failed read on the last
      attempt is returned; if every attempt reads an empty reply the result
      is `Timeout`. On the mock a read fails only when the queue is empty,
      so the outcome is decided by the first non-empty reply among the
      first two queued: each attempt before it costs one write and one
      read, and nothing else in the mock changes. */
  method Initialize(m0: MockTransport) returns (m: MockTransport, r: Result<()>)
    ensures var j := FirstNonEmpty(m0.responses, Attempts);
      var tries := if j.Some? then j.value + 1 else Attempts;
      && (r.Ok? <==> j.Some?)
      && (r.Err? ==> r.error == Timeout)
      && m == Expected(m0, tries, Min(tries, |m0.responses|))
  {
    ghost var rs := m0.responses;
    m := m0;
    assert m == Expected(m0, 0, 0);
    var attempt: nat := 0;
    while attempt < Attempts
      invariant attempt <= Attempts
      invariant Quiet(rs, attempt)
      invariant m == Expected(m0, attempt, Min(attempt, |rs|))
    {
      WriteThenRead(m0, attempt, Min(attempt, |rs|));
      m := VendorControlWrite(m, InitRequest, 0, 0, InitCmd).mock;
      var read := VendorControlRead(m, InitRequest, 0, 0);
      m := read.mock;
      if read.result.Ok? && |read.result.value| > 0 {
        QuietThenHit(rs, attempt, Attempts);
        r := Ok(());
        return;
      }
      QuietExtend(rs, attempt);
      if read.result.Err? && attempt + 1 >= Attempts {
        r := Err(read.result.error);
        return;
      }
      attempt := attempt + 1;
    }
    r := Err(Timeout);
  }

  /** A mock seeded with two non-empty replies: one attempt, one init
      command written, and the second reply left queued. */
  method SeededInit() returns (sent: seq<seq<byte>>, left: seq<seq<byte>>, r: Result<()>)
    ensures r.Ok? && sent == [InitCmd] && left == [[0xAB]]
  {
    var m0 := PushAll(New(Types.S310), [[0xAA], [0xAB]]);
    assert FirstNonEmpty(m0.responses, Attempts) == Some(0);
    var m;
    m, r := Initialize(m0);
    sent, left := m.sent, m.responses;
  }

  /** An empty mock: both attempts are made and the handshake times out. */
  method EmptyInit() returns (sent: seq<seq<byte>>, r: Result<()>)
    ensures r == Err(Timeout) && sent == [InitCmd, InitCmd]
  {
    var m0 := New(Types.S310);
    var m;
    m, r := Initialize(m0);
    sent := m.sent;
  }
}
