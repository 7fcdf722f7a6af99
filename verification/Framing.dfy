// Frames on the wire: type and length as little-endian u32, then the payload, read in chunks.
module Framing {
  import opened ByteStrings

  const U32_LIMIT: nat := 0x1_0000_0000
  const MAX_PAYLOAD_SIZE: nat := 16 * 1024 * 1024
  const CHUNK: nat := 64 * 1024

  /** `code` is the wire number of the message type. */
  datatype Frame = Frame(code: nat, payload: bytes)

  /** Frames the peer may send: a type in `known` and a payload within the cap. */
  predicate Valid(f: Frame, known: set<nat>, cap: nat) {
    f.code in known && f.code < U32_LIMIT && |f.payload| <= cap
  }

  // ----- little-endian u32 -----

  function LittleEndian(v: nat): (s: bytes)
    requires v < U32_LIMIT
    ensures |s| == 4
  {
    [v % 0x100, v / 0x100 % 0x100, v / 0x1_0000 % 0x100, v / 0x100_0000]
  }

  function FromLittleEndian(s: bytes): (v: nat)
    requires |s| == 4
    ensures v < U32_LIMIT
  {
    var b0: int, b1: int, b2: int, b3: int := s[0], s[1], s[2], s[3];
    b0 + 0x100 * b1 + 0x1_0000 * b2 + 0x100_0000 * b3
  }

  lemma LittleEndianRoundTrip(v: nat)
    requires v < U32_LIMIT
    ensures FromLittleEndian(LittleEndian(v)) == v
  {
    assert v / 0x100 / 0x100 == v / 0x1_0000 && v / 0x1_0000 / 0x100 == v / 0x100_0000;
  }

  lemma LittleEndianUnique(s: bytes)
    requires |s| == 4
    ensures LittleEndian(FromLittleEndian(s)) == s
  {
    var v := FromLittleEndian(s);
    var b1: int, b2: int, b3: int := s[1], s[2], s[3];
    assert v / 0x100 == b1 + 0x100 * b2 + 0x1_0000 * b3;
    assert v / 0x1_0000 == b2 + 0x100 * b3;
    assert v / 0x100_0000 == b3;
  }

  // ----- frames -----

  predicate Encodable(f: Frame) { f.code < U32_LIMIT && |f.payload| < U32_LIMIT }

  function Encode(f: Frame): bytes
    requires Encodable(f)
  {
    LittleEndian(f.code) + LittleEndian(|f.payload|) + f.payload
  }

  datatype Read = Got(frame: Frame) | UnknownType | TooLarge | UnexpectedEof

  /** The first frame of the stream and what follows it. Reading past the end uses the stream up. */
  function Parse(s: bytes, known: set<nat>, cap: nat): (Read, bytes) {
    if |s| < 8 then (UnexpectedEof, [])
    else
      var code, len := FromLittleEndian(s[..4]), FromLittleEndian(s[4..8]);
      if code !in known then (UnknownType, s[8..])
      else if len > cap then (TooLarge, s[8..])
      else if |s| < 8 + len then (UnexpectedEof, [])
      else (Got(Frame(code, s[8..8 + len])), s[8 + len..])
  }

  class Sink {
    var sent: bytes

    constructor ()
      ensures sent == []
    {
      sent := [];
    }

    method WriteAll(b: bytes)
      modifies this
      ensures sent == old(sent) + b
    {
      sent := sent + b;
    }
  }

  /** The bytes that will still arrive before the peer stops. */
  class Source {
    var rest: bytes

    constructor (s: bytes)
      ensures rest == s
    {
      rest := s;
    }

    method ReadExact(n: nat) returns (ok: bool, b: bytes)
      modifies this
      ensures ok <==> n <= |old(rest)|
      ensures b + rest == old(rest)
      ensures if ok then |b| == n else rest == []
    {
      ok := n <= |rest|;
      var k := if ok then n else |rest|;
      b, rest := rest[..k], rest[k..];
    }
  }

  method FillHeader(header: array<byte>, code: nat, len: nat)
    requires header.Length == 8 && code < U32_LIMIT && len < U32_LIMIT
    modifies header
    ensures header[..] == LittleEndian(code) + LittleEndian(len)
  {
    var c, l := LittleEndian(code), LittleEndian(len);
    forall i | 0 <= i < 4 { header[i] := c[i]; }
    forall i | 0 <= i < 4 { header[4 + i] := l[i]; }
  }

  method WriteFrame(w: Sink, code: nat, payload: bytes) returns (ok: bool)
    requires code < U32_LIMIT
    modifies w
    ensures ok <==> |payload| <= 16_777_216
    ensures w.sent == old(w.sent) + if ok then Encode(Frame(code, payload)) else []
  {
    if |payload| > MAX_PAYLOAD_SIZE {
      return false;
    }
    var header := new byte[8](_ => 0);
    FillHeader(header, code, |payload|);
    w.WriteAll(header[..]);
    w.WriteAll(payload);
    return true;
  }

  /** `held` is the size of the payload buffer when the reader returns or the peer goes silent:
      never more than one chunk beyond the payload bytes that arrived. */
  method ReadFrameInner(r: Source, known: set<nat>, cap: nat) returns (result: Read, held: nat)
    modifies r
    ensures (result, r.rest) == Parse(old(r.rest), known, cap)
    ensures result.Got? ==> held == |result.frame.payload|
    ensures held == 0 || (held <= cap && held <= |old(r.rest)| - 8 + 65_536)
  {
    held := 0;
    var ok, header := r.ReadExact(8);
    if !ok {
      return UnexpectedEof, 0;
    }
    assert old(r.rest)[..8] == header && old(r.rest)[8..] == r.rest;
    assert header[..4] == old(r.rest)[..4] && header[4..] == old(r.rest)[4..8];
    var code := FromLittleEndian(header[..4]);
    var len := FromLittleEndian(header[4..]);
    if code !in known {
      return UnknownType, 0;
    }
    if len > cap {
      return TooLarge, 0;
    }
    var complete, payload, size := ReadChunks(r, len);
    held := size;
    if !complete {
      return UnexpectedEof, held;
    }
    assert old(r.rest)[8..][..len] == old(r.rest)[8..8 + len] && old(r.rest)[8..][len..] == old(r.rest)[8 + len..];
    result := Got(Frame(code, payload));
  }

  /** The chunked loop: the buffer grows by one chunk at a time, each before it is filled. */
  method ReadChunks(r: Source, len: nat) returns (ok: bool, payload: bytes, held: nat)
    modifies r
    ensures ok <==> len <= |old(r.rest)|
    ensures if ok then payload == old(r.rest)[..len] && r.rest == old(r.rest)[len..] && held == len else r.rest == []
    ensures held <= len && held <= |old(r.rest)| + CHUNK
  {
    payload, held := [], 0;
    var remaining := len;
    while remaining > 0
      invariant 0 <= remaining <= len && held == len - remaining == |payload| && held <= |old(r.rest)|
      invariant payload == old(r.rest)[..held] && r.rest == old(r.rest)[held..]
    {
      ghost var before := r.rest;
      var take := if remaining <= CHUNK then remaining else CHUNK;
      var start := |payload|;
      held := start + take;
      var chunk;
      ok, chunk := r.ReadExact(take);
      if !ok {
        return false, payload, held;
      }
      assert old(r.rest)[..start + take] == old(r.rest)[..start] + before[..take];
      payload := payload + chunk;
      remaining := remaining - take;
    }
    ok := true;
  }

  // ----- round trips -----

  lemma EncodeLayout(f: Frame, tail: bytes)
    requires Encodable(f)
    ensures var s := Encode(f) + tail;
      |Encode(f)| == 8 + |f.payload| && s[..4] == LittleEndian(f.code) && s[4..8] == LittleEndian(|f.payload|) &&
      s[8..8 + |f.payload|] == f.payload && s[8 + |f.payload|..] == tail
  {
  }

  /** Four bytes of the stream as a number, the lowest first. */
  function Word(s: bytes, i: nat): nat
    requires i + 4 <= |s|
  {
    var b0: nat, b1: nat, b2: nat, b3: nat := s[i], s[i + 1], s[i + 2], s[i + 3];
    b0 + 256 * (b1 + 256 * (b2 + 256 * b3))
  }

  /** A frame on the wire: its type, its length, its payload. */
  lemma EncodedBytes(f: Frame)
    requires Encodable(f)
    ensures var s := Encode(f); |s| == 8 + |f.payload| && Word(s, 0) == f.code && Word(s, 4) == |f.payload| && s[8..] == f.payload
  {
    EncodeLayout(f, []);
    assert Encode(f) + [] == Encode(f);
    WordOf(Encode(f), 0);
    WordOf(Encode(f), 4);
    LittleEndianRoundTrip(f.code);
    LittleEndianRoundTrip(|f.payload|);
  }

  lemma WordOf(s: bytes, i: nat)
    requires i + 4 <= |s|
    ensures Word(s, i) == FromLittleEndian(s[i..i + 4])
  {
  }

  /** What a stream is answered with. A header alone decides refusals, the type before the length,
      and only the header is then used up. */
  lemma RefusedExactly(s: bytes, known: set<nat>, cap: nat)
    ensures Parse(s, known, cap).0.UnknownType? <==> |s| >= 8 && Word(s, 0) !in known
    ensures Parse(s, known, cap).0.TooLarge? <==> |s| >= 8 && Word(s, 0) in known && Word(s, 4) > cap
    ensures Parse(s, known, cap).0.UnexpectedEof? <==> |s| < 8 || (Word(s, 0) in known && |s| < 8 + Word(s, 4) <= 8 + cap)
    ensures var (r, rest) := Parse(s, known, cap); !r.Got? ==> rest == if r.UnexpectedEof? then [] else s[8..]
  {
    if |s| >= 8 {
      WordOf(s, 0);
      WordOf(s, 4);
    }
  }

  /** The reader returns a frame and a rest exactly when the stream is that frame, as written,
      followed by the rest. So a frame has one encoding, and nothing else is read. */
  lemma ParseInvertsEncode(s: bytes, f: Frame, rest: bytes, known: set<nat>, cap: nat)
    requires cap < U32_LIMIT
    ensures Parse(s, known, cap) == (Got(f), rest) <==> (Valid(f, known, cap) && s == Encode(f) + rest)
  {
    if Valid(f, known, cap) && s == Encode(f) + rest {
      EncodeLayout(f, rest);
      LittleEndianRoundTrip(f.code);
      LittleEndianRoundTrip(|f.payload|);
    }
    if Parse(s, known, cap) == (Got(f), rest) {
      LittleEndianUnique(s[..4]);
      LittleEndianUnique(s[4..8]);
      assert s == s[..4] + s[4..8] + s[8..8 + |f.payload|] + s[8 + |f.payload|..];
    }
  }

  ghost predicate AllValid(frames: seq<Frame>, known: set<nat>, cap: nat) {
    forall i :: 0 <= i < |frames| ==> Encodable(frames[i]) && Valid(frames[i], known, cap)
  }

  function EncodeAll(frames: seq<Frame>): bytes
    requires forall i :: 0 <= i < |frames| ==> Encodable(frames[i])
  {
    if frames == [] then [] else Encode(frames[0]) + EncodeAll(frames[1..])
  }

  /** Reading `n` frames; stops at the first failure. */
  function ParseAll(s: bytes, n: nat, known: set<nat>, cap: nat): (seq<Frame>, bytes) {
    if n == 0 then ([], s) else
      var (r, rest) := Parse(s, known, cap);
      if !r.Got? then ([], rest) else
        var (frames, end) := ParseAll(rest, n - 1, known, cap);
        ([r.frame] + frames, end)
  }

  /** Any concatenation of written frames is read back frame by frame, to the last byte. */
  lemma {:induction false} StreamRoundTrip(frames: seq<Frame>, tail: bytes, known: set<nat>, cap: nat)
    requires AllValid(frames, known, cap) && cap < U32_LIMIT
    ensures ParseAll(EncodeAll(frames) + tail, |frames|, known, cap) == (frames, tail)
  {
    if frames == [] {
      assert EncodeAll(frames) + tail == tail;
    } else {
      var more := EncodeAll(frames[1..]) + tail;
      assert EncodeAll(frames) + tail == Encode(frames[0]) + more;
      ParseInvertsEncode(EncodeAll(frames) + tail, frames[0], more, known, cap);
      StreamRoundTrip(frames[1..], tail, known, cap);
      assert frames == [frames[0]] + frames[1..];
    }
  }

  /** A stream cut anywhere inside a frame is noticed. */
  lemma CutFrameIsNoticed(f: Frame, n: nat, known: set<nat>, cap: nat)
    requires cap < U32_LIMIT && Valid(f, known, cap) && n < |Encode(f)|
    ensures Parse(Encode(f)[..n], known, cap) == (UnexpectedEof, [])
  {
    EncodeLayout(f, []);
    var s := Encode(f)[..n];
    if n >= 8 {
      assert s[..4] == LittleEndian(f.code) && s[4..8] == LittleEndian(|f.payload|);
      LittleEndianRoundTrip(f.code);
      LittleEndianRoundTrip(|f.payload|);
    }
  }
}
