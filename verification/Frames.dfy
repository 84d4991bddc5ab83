/** internal/agentrpc/session.go, lines 202 to 280: each message on the wire is four bytes
    of length, then that many bytes. */
module Frames {
  import opened Basics
  import opened Words

  type Bytes = seq<Byte>

  // ---- what a stream means ----

  /** The length goes through a 32-bit conversion. */
  function Frame(payload: Bytes): Bytes {
    SplitBytes(|payload| % WORD) + payload
  }

  /** The payloads' frames, in front of some other bytes. */
  function Stream(payloads: seq<Bytes>, rest: Bytes): Bytes {
    if |payloads| == 0 then rest else Frame(payloads[0]) + Stream(payloads[1..], rest)
  }

  datatype Next = Got(payload: Bytes, rest: Bytes) | Empty | TooLarge | Cut

  /** The first frame of a stream, read with a size limit. */
  function First(s: Bytes, limit: int): Next {
    if |s| < 4 then Cut
    else
      var size := JoinBytes(s[..4]);
      if size == 0 then Empty
      else if size > limit then TooLarge
      else if |s| < 4 + size then Cut
      else Got(s[4..4 + size], s[4 + size..])
  }

  /** Every frame up to the first that cannot be read. */
  function All(s: Bytes, limit: int): seq<Bytes>
    decreases |s|
  {
    match First(s, limit)
    case Got(payload, rest) => [payload] + All(rest, limit)
    case _ => []
  }

  function Ending(s: Bytes, limit: int): Next
    decreases |s|
  {
    match First(s, limit)
    case Got(_, rest) => Ending(rest, limit)
    case end => end
  }

  predicate Sendable(payload: Bytes, limit: int) {
    0 < |payload| <= limit && |payload| < WORD
  }

  predicate AllSendable(payloads: seq<Bytes>, limit: int) {
    forall p <- payloads :: Sendable(p, limit)
  }

  lemma HeaderOf(payload: Bytes, rest: Bytes)
    ensures (Frame(payload) + rest)[..4] == SplitBytes(|payload| % WORD)
    ensures (Frame(payload) + rest)[4..] == payload + rest
    ensures JoinBytes(SplitBytes(|payload| % WORD)) == |payload| % WORD
  {
    SplitThenJoin(|payload| % WORD);
  }

  /** On the wire a payload follows its length, the highest byte first. */
  lemma FrameOnTheWire(payload: Bytes)
    requires |payload| < 0x1_0000_0000
    ensures
      var f := Frame(payload);
      && |f| == 4 + |payload| && f[4..] == payload
      && f[0] as nat * 0x100_0000 + f[1] as nat * 0x1_0000 + f[2] as nat * 0x100 + f[3] as nat == |payload|
  {
    var header := SplitBytes(|payload|);
    assert |payload| % WORD == |payload|;
    HighestByteFirst(|payload|);
    assert Frame(payload) == header + payload;
    hide *;
    assert forall i :: 0 <= i < 4 ==> (header + payload)[i] == header[i];
  }

  /** A frame is read back as what was written exactly when it is not empty, not over
      the reader's limit, and its length fits the header. */
  lemma FrameReadsBack(payload: Bytes, rest: Bytes, limit: int)
    ensures First(Frame(payload) + rest, limit) == Got(payload, rest) <==>
      0 < |payload| <= limit && |payload| < 0x1_0000_0000
  {
    HeaderOf(payload, rest);
    var s := Frame(payload) + rest;
    var size := |payload| % WORD;
    if Sendable(payload, limit) {
      assert s[4..4 + size] == s[4..][..size] == payload;
      assert s[4 + size..] == s[4..][size..] == rest;
    } else if |payload| >= WORD {
      assert size < |payload|;
    }
  }

  lemma OneFrame(payload: Bytes, rest: Bytes, limit: int)
    requires Sendable(payload, limit)
    ensures All(Frame(payload) + rest, limit) == [payload] + All(rest, limit)
    ensures Ending(Frame(payload) + rest, limit) == Ending(rest, limit)
  {
    FrameReadsBack(payload, rest, limit);
  }

  /** Frames in front of anything are read back one by one, and then the rest is read. */
  lemma {:induction false} FramesReadBack(payloads: seq<Bytes>, rest: Bytes, limit: int)
    requires AllSendable(payloads, limit)
    ensures All(Stream(payloads, rest), limit) == payloads + All(rest, limit)
    ensures Ending(Stream(payloads, rest), limit) == Ending(rest, limit)
  {
    hide Frame, First;
    if |payloads| > 0 {
      OneFrame(payloads[0], Stream(payloads[1..], rest), limit);
      FramesReadBack(payloads[1..], rest, limit);
      assert payloads == [payloads[0]] + payloads[1..];
    }
  }

  /** The round trip, and with it: two lists with the same bytes are the same list. */
  lemma RoundTrip(payloads: seq<Bytes>, limit: int)
    requires AllSendable(payloads, limit)
    ensures All(Stream(payloads, []), limit) == payloads && Ending(Stream(payloads, []), limit) == Cut
  {
    FramesReadBack(payloads, [], limit);
  }

  lemma CutFrame(payload: Bytes, k: nat, limit: int)
    requires Sendable(payload, limit) && k < |Frame(payload)|
    ensures All(Frame(payload)[..k], limit) == [] && Ending(Frame(payload)[..k], limit) == Cut
  {
    HeaderOf(payload, []);
    assert Frame(payload) + [] == Frame(payload);
    if k >= 4 {
      assert Frame(payload)[..k][..4] == Frame(payload)[..4];
    }
  }

  /** How many frames are whole within the first k bytes. */
  function Whole(payloads: seq<Bytes>, k: nat): (n: nat)
    ensures n <= |payloads|
  {
    if |payloads| == 0 || k < |Frame(payloads[0])| then 0
    else 1 + Whole(payloads[1..], k - |Frame(payloads[0])|)
  }

  lemma {:induction false} WholeFrames(payloads: seq<Bytes>, k: nat, n: nat)
    requires n <= |payloads|
    ensures n <= Whole(payloads, k) <==> |Stream(payloads[..n], [])| <= k
  {
    if n > 0 {
      assert payloads[..n][1..] == payloads[1..][..n - 1];
      if k >= |Frame(payloads[0])| {
        WholeFrames(payloads[1..], k - |Frame(payloads[0])|, n - 1);
      }
    }
  }

  lemma CutStream(payloads: seq<Bytes>, k: nat)
    requires |payloads| > 0 && k <= |Stream(payloads, [])|
    ensures
      var frame, tail := Frame(payloads[0]), Stream(payloads[1..], []);
      Stream(payloads, [])[..k] == if k < |frame| then frame[..k] else frame + tail[..k - |frame|]
  {
  }

  /** A connection that breaks anywhere hands over exactly the frames that were whole,
      never part of one and never one made of parts of two. */
  lemma {:induction false} BrokenStream(payloads: seq<Bytes>, k: nat, limit: int)
    requires AllSendable(payloads, limit) && k <= |Stream(payloads, [])|
    ensures All(Stream(payloads, [])[..k], limit) == payloads[..Whole(payloads, k)]
    ensures Ending(Stream(payloads, [])[..k], limit) == Cut
  {
    hide Frame;
    if |payloads| > 0 {
      var frame, tail := Frame(payloads[0]), payloads[1..];
      CutStream(payloads, k);
      if k < |frame| {
        CutFrame(payloads[0], k, limit);
      } else {
        OneFrame(payloads[0], Stream(tail, [])[..k - |frame|], limit);
        BrokenStream(tail, k - |frame|, limit);
        assert payloads[..Whole(payloads, k)] == [payloads[0]] + tail[..Whole(tail, k - |frame|)];
      }
    }
  }

  // ---- writing and reading over a connection ----

  /** A connection that takes and gives as many bytes at a time as it likes, and can
      break at any of them. */
  class Wire {
    var sent: Bytes
    var incoming: Bytes
    ghost var failures: nat

    method Write(data: Bytes) returns (n: nat, failed: bool)
      modifies this`sent, this`failures
      ensures n <= |data| && sent == old(sent) + data[..n]
      ensures failures == old(failures) + if failed || (n == 0 && data != []) then 1 else 0
    {
      n :| 0 <= n <= |data|;
      failed := *;
      sent := sent + data[..n];
      failures := failures + if failed || (n == 0 && data != []) then 1 else 0;
    }

    /** Nothing at all is how it breaks or ends. */
    method Read(max: nat) returns (chunk: Bytes)
      modifies this`incoming, this`failures
      ensures |chunk| <= max && old(incoming) == chunk + incoming
      ensures failures == old(failures) + if chunk == [] && max > 0 then 1 else 0
    {
      var n: nat :| n <= max && n <= |incoming|;
      chunk := incoming[..n];
      incoming := incoming[n..];
      failures := failures + if chunk == [] && max > 0 then 1 else 0;
    }
  }

  datatype WriteResult = Written | WriteFailed | ShortWrite | OverLimit

  /** writeFull. It ends because every round either fails or makes progress. */
  method WriteFull(wire: Wire, data: Bytes) returns (r: WriteResult, ghost taken: nat)
    modifies wire`sent, wire`failures
    ensures taken <= |data| && wire.sent == old(wire.sent) + data[..taken]
    ensures r == Written ==> taken == |data|
    ensures wire.failures == old(wire.failures) + if r == Written then 0 else 1
    ensures r != OverLimit
  {
    var rest := data;
    taken := 0;
    while |rest| > 0
      invariant taken <= |data| && rest == data[taken..]
      invariant wire.sent == old(wire.sent) + data[..taken] && wire.failures == old(wire.failures)
      decreases |rest|
    {
      var n, failed := wire.Write(rest);
      assert data[..taken + n] == data[..taken] + rest[..n];
      taken := taken + n;
      if failed {
        return WriteFailed, taken;
      }
      if n == 0 {
        return ShortWrite, taken;
      }
      rest := rest[n..];
    }
    r := Written;
  }

  /** io.ReadFull: all of it or nothing. */
  method ReadFull(wire: Wire, size: nat) returns (data: Option<Bytes>, ghost taken: nat)
    modifies wire`incoming, wire`failures
    ensures taken <= size && taken <= |old(wire.incoming)| && wire.incoming == old(wire.incoming)[taken..]
    ensures data.Some? ==> taken == size && data.value == old(wire.incoming)[..size]
    ensures wire.failures == old(wire.failures) + if data.Some? then 0 else 1
  {
    var got: Bytes := [];
    taken := 0;
    while |got| < size
      invariant taken == |got| <= size && old(wire.incoming) == got + wire.incoming
      invariant wire.failures == old(wire.failures)
    {
      var chunk := wire.Read(size - |got|);
      got := got + chunk;
      taken := |got|;
      if |chunk| == 0 {
        return None, taken;
      }
    }
    data := Some(got);
  }

  /** Session.write, after encoding: a message over the limit sends nothing; otherwise
      what goes out is the frame, or on failure the beginning of it. */
  method WriteFrame(wire: Wire, payload: Bytes, limit: int) returns (r: WriteResult, ghost taken: nat)
    modifies wire`sent, wire`failures
    ensures |payload| > limit <==> r == OverLimit
    ensures wire.failures == old(wire.failures) + if r == Written || r == OverLimit then 0 else 1
    ensures taken <= |Frame(payload)| && wire.sent == old(wire.sent) + Frame(payload)[..taken]
    ensures r == OverLimit ==> taken == 0
    ensures r == Written ==> taken == |Frame(payload)|
  {
    if |payload| > limit {
      return OverLimit, 0;
    }
    var header := SplitBytes(|payload| % WORD);
    r, taken := WriteFull(wire, header);
    assert Frame(payload)[..taken] == header[..taken];
    if r != Written {
      return;
    }
    ghost var more;
    r, more := WriteFull(wire, payload);
    assert Frame(payload)[..4 + more] == header + payload[..more];
    taken := 4 + more;
  }

  /** Session.read, before decoding: it finds the first frame of what arrives, or fails
      for the reason that frame gives, or breaks off inside it. */
  method ReadFrame(wire: Wire, limit: int) returns (r: Next, ghost taken: nat)
    modifies wire`incoming, wire`failures
    ensures wire.failures == old(wire.failures) + if r.Cut? then 1 else 0
    ensures taken <= |old(wire.incoming)| && wire.incoming == old(wire.incoming)[taken..]
    ensures r.Got? || r.Empty? || r.TooLarge? ==> r == First(old(wire.incoming), limit)
    ensures r.Got? ==> wire.incoming == r.rest
    ensures First(old(wire.incoming), limit).Got? ==> taken <= 4 + |First(old(wire.incoming), limit).payload|
  {
    var header;
    header, taken := ReadFull(wire, 4);
    if header.None? {
      return Cut, taken;
    }
    var size := JoinBytes(header.value);
    if size == 0 {
      return Empty, taken;
    }
    if size > limit {
      return TooLarge, taken;
    }
    var payload;
    ghost var more;
    payload, more := ReadFull(wire, size);
    taken := 4 + more;
    if payload.None? {
      return Cut, taken;
    }
    r := Got(payload.value, wire.incoming);
  }
}
