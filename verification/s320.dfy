/** The S320 model's initialisation handshake: up to three attempts, each a
    vendor write of the first init command followed by a vendor read and,
    when that brings nothing, a plain receive; after a reply the second init
    command completes the handshake. Stated against the mock transport. */
module S320Model {
  import opened Bytes
  import opened Errors
  import opened Mock

  const Attempts: nat := 3
  const Init1: seq<byte> := [0x5C, 0x01]
  const Init2: seq<byte> := [0x5C, 0x02]
  const Init1Request: byte := 0x01
  const Init2Request: byte := 0x02

  const Init1Call := VendorCall(Init1Request, 0, 0, Init1)
  const Init2Call := VendorCall(Init2Request, 0, 0, Init2)
  const Init1Read := VendorRead(Init1Request, 0, 0)

  function Min(a: nat, b: nat): nat { if a < b then a else b }

  /** The mock after `tries` attempts have written the first init command
      and read, with `taken` queued replies used up and, when `finished`,
      the second init command written. */
  function Expected(m0: MockTransport, tries: nat, taken: nat, finished: bool): MockTransport
    requires taken <= |m0.responses|
  {
    m0.(sent := m0.sent + Copies(Init1, tries) + (if finished then [Init2] else []),
        vendorCalls := m0.vendorCalls + Copies(Init1Call, tries) + (if finished then [Init2Call] else []),
        vendorReads := m0.vendorReads + Copies(Init1Read, tries),
        responses := m0.responses[taken..])
  }

  /** The mock after one more attempt that took `k` queued replies. */
  function Advance(m: MockTransport, k: nat): MockTransport
    requires k <= |m.responses|
  {
    m.(sent := m.sent + [Init1],
       vendorCalls := m.vendorCalls + [Init1Call],
       vendorReads := m.vendorReads + [Init1Read],
       responses := m.responses[k..])
  }

  /** How one attempt ends: a non-empty reply, nothing but empty replies,
      or a failed fallback receive. */
  datatype AttemptOutcome = Replied | NoReply | ReceiveFailed(error: Error)

  /** One attempt of `initialize`: the first init command, the vendor read
      and, unless that brought a non-empty reply, the fallback receive. It
      takes the next two queued replies, stopping early at a non-empty
      one, and fails only when the queue runs out before the receive. */
  method Attempt(m: MockTransport) returns (next: MockTransport, o: AttemptOutcome)
    ensures var rs := m.responses;
      o.Replied? <==> (|rs| > 0 && rs[0] != []) || (|rs| > 1 && rs[1] != [])
    ensures var rs := m.responses;
      && (|rs| > 0 && rs[0] != [] ==> next == Advance(m, 1))
      && (!(|rs| > 0 && rs[0] != []) ==> next == Advance(m, Min(2, |rs|)))
    ensures o.ReceiveFailed? <==> |m.responses| <= 1 && !(|m.responses| > 0 && m.responses[0] != [])
    ensures o.ReceiveFailed? ==> o.error == Timeout
  {
    var m1 := VendorControlWrite(m, Init1Request, 0, 0, Init1).mock;
    var read := VendorControlRead(m1, Init1Request, 0, 0);
    if read.result.Ok? && |read.result.value| > 0 {
      return read.mock, Replied;
    }
    var fallback := Receive(read.mock);
    next := fallback.mock;
    if fallback.result.Ok? && |fallback.result.value| > 0 {
      o := Replied;
    } else if fallback.result.Err? {
      o := ReceiveFailed(fallback.result.error);
    } else {
      o := NoReply;
    }
  }

  /** An attempt made on the expected state after `tries` fruitless
      attempts lands on the expected state after `tries + 1`. */
  lemma AdvanceExpected(m0: MockTransport, tries: nat, taken: nat, k: nat)
    requires taken + k <= |m0.responses|
    ensures Advance(Expected(m0, tries, taken, false), k) == Expected(m0, tries + 1, taken + k, false)
  {
    CopiesSnoc(Init1, tries);
    CopiesSnoc(Init1Call, tries);
    CopiesSnoc(Init1Read, tries);
    assert m0.responses[taken..][k..] == m0.responses[taken + k..];
  }

  /** The second init command after a successful attempt. */
  lemma Finish(m0: MockTransport, tries: nat, taken: nat)
    requires taken <= |m0.responses|
    ensures VendorControlWrite(Expected(m0, tries, taken, false), Init2Request, 0, 0, Init2).mock == Expected(m0, tries, taken, true)
  {
  }

  lemma Half(j: nat, a: nat)
    requires 2 * a <= j <= 2 * a + 1
    ensures j / 2 == a
  {
  }

  /** How the retry loop of `initialize` ends: an attempt got a non-empty
      reply, the last attempt's receive failed, or all attempts passed
      without a reply. */
  datatype LoopEnd = Found | GaveUp(error: Error) | Exhausted

  /** The retry loop of `initialize`. On the mock the first non-empty
      reply among the first six queued decides it: found at position
      `found`, it ends the attempt numbered `found / 2`, with the replies up
      to it used up. */
  method TryAttempts(m0: MockTransport) returns (m: MockTransport, e: LoopEnd, ghost found: nat, ghost tries: nat)
    ensures e.Found? <==> FirstNonEmpty(m0.responses, 2 * Attempts).Some?
    ensures e.Found? ==>
      && FirstNonEmpty(m0.responses, 2 * Attempts) == Some(found)
      && 2 * tries - 2 <= found <= 2 * tries - 1
      && m == Expected(m0, tries, found + 1, false)
    ensures !e.Found? ==> m == Expected(m0, Attempts, Min(2 * Attempts, |m0.responses|), false)
    ensures e.GaveUp? ==> e.error == Timeout
  {
    ghost var rs := m0.responses;
    m := m0;
    assert m == Expected(m0, 0, 0, false);
    var attempt: nat := 0;
    while attempt < Attempts
      invariant attempt <= Attempts
      invariant Quiet(rs, 2 * attempt)
      invariant m == Expected(m0, attempt, Min(2 * attempt, |rs|), false)
    {
      ghost var before := m;
      var outcome;
      m, outcome := Attempt(m);
      found := AfterAttempt(m0, attempt, before, m, outcome);
      if outcome.Replied? {
        return m, Found, found, attempt + 1;
      }
      if outcome.ReceiveFailed? && attempt + 1 >= Attempts {
        return m, GaveUp(outcome.error), 0, 0;
      }
      attempt := attempt + 1;
    }
    FirstNonEmptyMeaning(rs, 2 * Attempts);
    return m, Exhausted, 0, 0;
  }

  /** `initialize`: an attempt succeeds when its vendor read, or failing
      that its receive, returns a non-empty reply; a failed receive on the
      last attempt is returned; three fruitless attempts give `Timeout`;
      success is followed by the second init command. On the mock each
      attempt takes up to two queued replies, so the outcome is decided by
      the first non-empty reply among the first six queued, and an attempt
      is made for every pair of replies before it. */
  method Initialize(m0: MockTransport) returns (m: MockTransport, r: Result<()>)
    ensures var j := FirstNonEmpty(m0.responses, 2 * Attempts);
      var tries := if j.Some? then j.value / 2 + 1 else Attempts;
      var taken := if j.Some? then j.value + 1 else Min(2 * Attempts, |m0.responses|);
      && (r.Ok? <==> j.Some?)
      && (r.Err? ==> r.error == Timeout)
      && m == Expected(m0, tries, taken, j.Some?)
  {
    var e;
    ghost var found, tries;
    m, e, found, tries := TryAttempts(m0);
    match e
    case GaveUp(error) =>
      r := Err(error);
    case Exhausted =>
      r := Err(Timeout);
    case Found =>
      Half(found, tries - 1);
      Finish(m0, tries, found + 1);
      m := VendorControlWrite(m, Init2Request, 0, 0, Init2).mock;
      r := Ok(());
  }

  /** What an attempt means for the whole handshake: it ends `Replied`
      exactly when one of the two replies it takes is the first non-empty
      one queued, and otherwise leaves the first `2 * (attempt + 1)`
      replies all empty. */
  lemma AfterAttempt(m0: MockTransport, attempt: nat, before: MockTransport, next: MockTransport, o: AttemptOutcome)
    returns (found: nat)
    requires attempt < Attempts && Quiet(m0.responses, 2 * attempt)
    requires before == Expected(m0, attempt, Min(2 * attempt, |m0.responses|), false)
    requires var rs := before.responses;
      && (o.Replied? <==> (|rs| > 0 && rs[0] != []) || (|rs| > 1 && rs[1] != []))
      && (|rs| > 0 && rs[0] != [] ==> next == Advance(before, 1))
      && (!(|rs| > 0 && rs[0] != []) ==> next == Advance(before, Min(2, |rs|)))
      && (o.ReceiveFailed? <==> |rs| <= 1 && !(|rs| > 0 && rs[0] != []))
    ensures o.Replied? ==>
      && FirstNonEmpty(m0.responses, 2 * Attempts) == Some(found)
      && 2 * attempt <= found <= 2 * attempt + 1
      && next == Expected(m0, attempt + 1, found + 1, false)
    ensures !o.Replied? ==>
      && Quiet(m0.responses, 2 * attempt + 2)
      && next == Expected(m0, attempt + 1, Min(2 * attempt + 2, |m0.responses|), false)
    ensures o.ReceiveFailed? ==> |m0.responses| <= 2 * attempt + 1
  {
    var rs := m0.responses;
    var taken := Min(2 * attempt, |rs|);
    var q := before.responses;
    assert q == rs[taken..];
    if |q| > 0 && q[0] != [] {
      assert taken == 2 * attempt && q[0] == rs[2 * attempt];
      QuietThenHit(rs, 2 * attempt, 2 * Attempts);
      AdvanceExpected(m0, attempt, taken, 1);
      found := 2 * attempt;
    } else {
      QuietExtend(rs, 2 * attempt);
      AdvanceExpected(m0, attempt, taken, Min(2, |q|));
      if |q| > 1 && q[1] != [] {
        assert taken == 2 * attempt && q[1] == rs[2 * attempt + 1];
        QuietThenHit(rs, 2 * attempt + 1, 2 * Attempts);
        found := 2 * attempt + 1;
      } else {
        assert 2 * attempt + 1 < |rs| ==> rs[2 * attempt + 1] == q[1];
        QuietExtend(rs, 2 * attempt + 1);
        found := 0;
      }
    }
  }

  /** A mock seeded with one reply: one attempt, then the second init
      command. */
  method SeededInit() returns (sent: seq<seq<byte>>, r: Result<()>)
    ensures r.Ok? && sent == [Init1, Init2]
  {
    var m0 := PushAll(New(Types.S320), [[0xAA]]);
    assert FirstNonEmpty(m0.responses, 2 * Attempts) == Some(0);
    var m;
    m, r := Initialize(m0);
    sent := m.sent;
  }

  /** An empty mock: all three attempts are made, the handshake times out
      and the second init command is never sent. */
  method EmptyInit() returns (sent: seq<seq<byte>>, r: Result<()>)
    ensures r == Err(Timeout) && sent == [Init1, Init1, Init1]
  {
    var m0 := New(Types.S320);
    var m;
    m, r := Initialize(m0);
    sent := m.sent;
  }

  /** A pending control failure does not reach the vendor read, which gets
      the queued reply on the first attempt. */
  method ControlFailureIgnored() returns (sent: seq<seq<byte>>, failures: nat, r: Result<()>)
    ensures r.Ok? && sent == [Init1, Init2] && failures == 1
  {
    var m0 := PushAll(SetControlFailures(New(Types.S320), 1), [[0xBB]]);
    assert FirstNonEmpty(m0.responses, 2 * Attempts) == Some(0);
    var m;
    m, r := Initialize(m0);
    sent, failures := m.sent, m.controlFailures;
  }
}
