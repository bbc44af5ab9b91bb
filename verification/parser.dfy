/** Bounds-checked readers over response payloads: every out-of-range access
    becomes an `InvalidLength` error instead of a panic. */
module Parser {
  import opened Bytes
  import opened Errors
  import opened Types

  /** `ensure_len`. */
  function EnsureLen(d: seq<byte>, min: nat): (r: Result<()>)
    ensures r.Ok? <==> |d| >= min
    ensures r.Err? ==> r.error == InvalidLength(min, |d|)
  {
    if |d| < min then Err(InvalidLength(min, |d|)) else Ok(())
  }

  /** `le_u16_at`. */
  function LeU16At(d: seq<byte>, i: nat): (r: Result<u16>)
    ensures r.Ok? <==> i + 2 <= |d|
    ensures r.Ok? ==> ToLe(r.value) == d[i..i + 2]
    ensures r.Err? ==> r.error == InvalidLength(i + 2, |d|)
  {
    var _ :- EnsureLen(d, i + 2);
    Ok(FromLe(d[i], d[i + 1]))
  }

  /** `slice_at`. */
  function SliceAt(d: seq<byte>, i: nat, len: nat): (r: Result<seq<byte>>)
    ensures r.Ok? <==> i + len <= |d|
    ensures r.Ok? ==> r.value == d[i..i + len]
    ensures r.Err? ==> r.error == InvalidLength(i + len, |d|)
  {
    var _ :- EnsureLen(d, i + len);
    Ok(d[i..i + len])
  }

  /** `idm_at`. */
  function IdmAt(d: seq<byte>, start: nat): (r: Result<Idm>)
    ensures r.Ok? <==> start + 8 <= |d|
    ensures r.Ok? ==> r.value.bytes == d[start..start + 8]
  {
    var s :- SliceAt(d, start, 8);
    IdmFrom(s)
  }

  /** `pmm_at`. */
  function PmmAt(d: seq<byte>, start: nat): (r: Result<Pmm>)
    ensures r.Ok? <==> start + 8 <= |d|
    ensures r.Ok? ==> r.value.bytes == d[start..start + 8]
  {
    var s :- SliceAt(d, start, 8);
    PmmFrom(s)
  }

  /** `byte_at`. */
  function ByteAt(d: seq<byte>, i: nat): (r: Result<byte>)
    ensures r.Ok? <==> i < |d|
    ensures r.Ok? ==> r.value == d[i]
    ensures r.Err? ==> r.error == InvalidLength(i + 1, |d|)
  {
    var _ :- EnsureLen(d, i + 1);
    Ok(d[i])
  }

  /** `expect_response_code`: an empty payload is a length error, a wrong
      first byte an unexpected-response error. */
  function ExpectResponseCode(d: seq<byte>, expected: byte): (r: Result<()>)
    ensures r.Ok? <==> |d| > 0 && d[0] == expected
    ensures |d| == 0 ==> r == Err(InvalidLength(1, 0))
    ensures |d| > 0 && d[0] != expected ==> r == Err(UnexpectedResponse(expected, d[0]))
  {
    var actual :- ByteAt(d, 0);
    if actual != expected then Err(UnexpectedResponse(expected, actual)) else Ok(())
  }
}
