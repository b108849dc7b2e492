/** greetd's wire format (a 32-bit little-endian length before each body) and the thread that speaks it. */
module GreetdSocket {
  import opened Basics
  import opened LoginScreen

  const TWO32: nat := 0x1_0000_0000

  function Le32(n: nat): (bytes: seq<Byte>)
    requires n < TWO32
    ensures |bytes| == 4
  {
    [n % 256, n / 256 % 256, n / 65536 % 256, n / 16777216]
  }

  function FromLe32(b: seq<Byte>): nat
    requires |b| == 4
  {
    (b[0] as int) + 256 * (b[1] as int) + 65536 * (b[2] as int) + 16777216 * (b[3] as int)
  }

  lemma Le32RoundTrip(n: nat)
    requires n < TWO32
    ensures FromLe32(Le32(n)) == n
  {
    var a, b, c := n / 256, n / 65536, n / 16777216;
    assert n / 65536 == a / 256 && n / 16777216 == b / 256;
    assert n == 256 * a + n % 256 && a == 256 * b + a % 256 && b == 256 * c + b % 256;
  }

  /** The bytes written for a body: its length is truncated to 32 bits, as `len() as u32` does. */
  function Frame(body: seq<Byte>): seq<Byte> {
    Le32(|body| % TWO32) + body
  }

  /** The lowest byte of the length comes first. */
  lemma FrameOfShortBody(body: seq<Byte>)
    requires |body| < 256
    ensures Frame(body) == [|body|, 0, 0, 0] + body
  {
  }

  /** The next body of a stream and what follows it; none when the stream ends first. */
  function ReadFrame(stream: seq<Byte>): Option<(seq<Byte>, seq<Byte>)> {
    if |stream| < 4 then None
    else
      var n := FromLe32(stream[..4]);
      if |stream| < 4 + n then None else Some((stream[4..4 + n], stream[4 + n..]))
  }

  /** A frame is read back, with the rest of the stream, exactly when its body is shorter than 2^32 bytes. */
  lemma FrameRoundTrip(body: seq<Byte>, rest: seq<Byte>)
    ensures ReadFrame(Frame(body) + rest) == Some((body, rest)) <==> |body| < TWO32
  {
    var n := |body| % TWO32;
    var stream := Frame(body) + rest;
    Le32RoundTrip(n);
    assert stream[..4] == Le32(n);
    if |body| < TWO32 {
      assert stream[4..4 + n] == body && stream[4 + n..] == rest;
    } else {
      assert |stream[4..4 + n]| == n;
    }
  }

  /** No proper prefix of a frame is taken for a frame. */
  lemma FrameIsNotCutShort(body: seq<Byte>, k: nat)
    requires |body| < TWO32 && k < |Frame(body)|
    ensures ReadFrame(Frame(body)[..k]).None?
  {
    Le32RoundTrip(|body|);
    assert |body| % TWO32 == |body|;
    hide Le32, FromLe32;
    var frame := Frame(body);
    assert |frame| == 4 + |body| && frame[..4] == Le32(|body|);
    if k >= 4 {
      assert frame[..k][..4] == frame[..4];
    }
  }

  function Frames(bodies: seq<seq<Byte>>): seq<Byte> {
    if bodies == [] then [] else Frame(bodies[0]) + Frames(bodies[1..])
  }

  /** Every body that can be read from a stream, in order. */
  function ReadFrames(stream: seq<Byte>): seq<seq<Byte>>
    decreases |stream|
  {
    var r := ReadFrame(stream);
    if r.None? then [] else [r.value.0] + ReadFrames(r.value.1)
  }

  lemma {:induction false} FramesRoundTrip(bodies: seq<seq<Byte>>)
    requires forall i | 0 <= i < |bodies| :: |bodies[i]| < TWO32
    ensures ReadFrames(Frames(bodies)) == bodies
  {
    if bodies != [] {
      FrameRoundTrip(bodies[0], Frames(bodies[1..]));
      FramesRoundTrip(bodies[1..]);
    }
  }

  /** The thread's loop: one reply for each request, in order, up to and including the first error.
      `greetd(i)` is what writing the i-th request and reading its reply gives. */
  method Serve(requests: seq<Request>, greetd: nat -> Reply) returns (responses: seq<Reply>)
    ensures |responses| <= |requests|
    ensures forall i | 0 <= i < |responses| :: responses[i] == greetd(i)
    ensures forall i | 0 <= i < |responses| :: responses[i].Broken? ==> i == |responses| - 1
    ensures |responses| < |requests| ==> responses != [] && responses[|responses| - 1].Broken?
  {
    responses := [];
    var stop := false;
    while !stop && |responses| < |requests|
      invariant |responses| <= |requests|
      invariant forall i | 0 <= i < |responses| :: responses[i] == greetd(i)
      invariant forall i | 0 <= i < |responses| :: responses[i].Broken? ==> stop && i == |responses| - 1
      invariant stop ==> responses != [] && responses[|responses| - 1].Broken?
      decreases |requests| - |responses|
    {
      var result := greetd(|responses|);
      stop := result.Broken?;
      responses := responses + [result];
    }
  }
}
