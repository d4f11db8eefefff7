/** Length-prefixed JSON frames over a byte stream (shared/aidesk-local-ipc.ts). */
module Frames {
  import opened Results
  import opened Json
  import opened Utf8

  const MAX_FRAME_BYTES := 1024 * 1024

  datatype FrameError = FrameTooLarge | InvalidFrame

  // ---------------------------------------------------------------- encoding

  /** `writeUInt32BE`. */
  function Header(n: nat): (r: Bytes)
    requires n < 0x1_0000_0000
    ensures |r| == 4
  {
    var high := n / 256;
    var higher := high / 256;
    [higher / 256, higher % 256, high % 256, n % 256]
  }

  /** `readUInt32BE(0)`. */
  function ReadHeader(b: Bytes): (r: nat)
    requires |b| >= 4
    ensures r < 0x1_0000_0000
  {
    var w: int, x: int, y: int, z: int := b[0], b[1], b[2], b[3];
    ((w * 256 + x) * 256 + y) * 256 + z
  }

  lemma HeaderRoundTrip(n: nat, rest: Bytes)
    requires n < 0x1_0000_0000
    ensures ReadHeader(Header(n) + rest) == n
  {
  }

  function Payload(v: Json): Bytes {
    Encode(Stringify(v))
  }

  predicate Encodable(v: Json) {
    v.Obj? && |Payload(v)| <= MAX_FRAME_BYTES
  }

  /** `encodeAideskLocalIpcFrame`. */
  function EncodeFrame(v: Json): Result<Bytes, FrameError> {
    var payload := Payload(v);
    if |payload| == 0 || |payload| > MAX_FRAME_BYTES then Err(FrameTooLarge)
    else Ok(Header(|payload|) + payload)
  }

  /** The number that four bytes stand for, the most significant one first. */
  ghost function BigEndian(b: Bytes): int
    requires |b| >= 4
  {
    var w: int, x: int, y: int, z: int := b[0], b[1], b[2], b[3];
    w * 0x100_0000 + x * 0x1_0000 + y * 0x100 + z
  }

  lemma HeaderIsBigEndian(n: nat)
    requires n < 0x1_0000_0000
    ensures BigEndian(Header(n)) == n
  {
  }

  /** A value is encoded exactly when its JSON text takes at most a mebibyte, and is not empty: as the length of the
      text in four bytes, the most significant one first, and the text in UTF-8. Otherwise it is too large. */
  lemma EncodeFrameIff(v: Json)
    ensures var text := Encode(Stringify(v));
      && (EncodeFrame(v).Ok? <==> 0 < |text| <= 1_048_576)
      && (EncodeFrame(v).Ok? ==>
            var b := EncodeFrame(v).value;
            |b| == 4 + |text| && b[4..] == text && BigEndian(b) == |text|)
      && (EncodeFrame(v).Err? ==> EncodeFrame(v).error == FrameTooLarge)
  {
    var text := Encode(Stringify(v));
    hide Encode, Stringify;
    if 0 < |text| <= 1_048_576 {
      HeaderIsBigEndian(|text|);
      hide Header;
    }
  }

  /** The bytes of one encodable message. */
  function Frame(v: Json): (r: Bytes)
    requires Encodable(v)
  {
    Header(|Payload(v)|) + Payload(v)
  }

  lemma EncodableEncodes(v: Json)
    requires Encodable(v)
    ensures EncodeFrame(v) == Ok(Frame(v)) && 0 < |Payload(v)| && |Frame(v)| == |Payload(v)| + 4
  {
  }

  /** The messages are the objects that are encoded. */
  lemma EncodableIff(v: Json)
    ensures Encodable(v) <==> v.Obj? && EncodeFrame(v).Ok?
  {
    if Encodable(v) {
      EncodableEncodes(v);
    }
  }

  // ---------------------------------------------------------------- decoding

  datatype Drained = Drained(frames: seq<Json>, rest: Bytes, error: Option<FrameError>)

  /** What one pass over a buffer yields: the complete frames at its start, what is left over, and the
      error that stopped the pass, if any. A bad length stays in the buffer; a bad body is consumed. */
  function Drain(buffer: Bytes): Drained
    decreases |buffer|
  {
    if |buffer| < 4 then Drained([], buffer, None)
    else
      var length := ReadHeader(buffer);
      if length == 0 || length > MAX_FRAME_BYTES then Drained([], buffer, Some(FrameTooLarge))
      else if |buffer| < length + 4 then Drained([], buffer, None)
      else
        var parsed := Parse(Decode(buffer[4..length + 4]));
        if parsed.Fail? || !parsed.value.Obj? then Drained([], buffer[length + 4..], Some(InvalidFrame))
        else
          var more := Drain(buffer[length + 4..]);
          Drained([parsed.value] + more.frames, more.rest, more.error)
  }

  /** `AideskLocalIpcFrameDecoder`. */
  class FrameDecoder {
    var buffer: Bytes

    constructor ()
      ensures buffer == []
    {
      buffer := [];
    }

    /** Returns the frames completed by this chunk, or throws; either way the buffer holds what the pass left over. */
    method Push(chunk: Bytes) returns (r: Result<seq<Json>, FrameError>)
      modifies this
      ensures var d := Drain(old(buffer) + chunk);
              buffer == d.rest && r == if d.error.Some? then Err(d.error.value) else Ok(d.frames)
    {
      buffer := buffer + chunk;
      ghost var whole := Drain(buffer);
      var frames: seq<Json> := [];
      assert Passing(whole, frames, buffer);
      hide *;
      while |buffer| >= 4
        invariant Passing(whole, frames, buffer)
        decreases |buffer|
      {
        PassStep(whole, frames, buffer);
        var length := ReadHeader(buffer);
        if length == 0 || length > MAX_FRAME_BYTES { return Err(FrameTooLarge); }
        if |buffer| < length + 4 { break; }
        var parsed := Parse(Decode(buffer[4..length + 4]));
        buffer := buffer[length + 4..];
        if parsed.Fail? || !parsed.value.Obj? { return Err(InvalidFrame); }
        frames := frames + [parsed.value];
      }
      PassStep(whole, frames, buffer);
      r := Ok(frames);
    }
  }

  /** A pass that yields `whole` has read `frames` and still has to read `buffer`. */
  ghost predicate Passing(whole: Drained, frames: seq<Json>, buffer: Bytes) {
    whole == Drained(frames + Drain(buffer).frames, Drain(buffer).rest, Drain(buffer).error)
  }

  /** What the next frame does to it. */
  lemma PassStep(whole: Drained, frames: seq<Json>, buffer: Bytes)
    requires Passing(whole, frames, buffer)
    ensures |buffer| < 4 ==> whole == Drained(frames, buffer, None)
    ensures |buffer| >= 4 ==>
              var length := ReadHeader(buffer);
              if length == 0 || length > MAX_FRAME_BYTES then whole == Drained(frames, buffer, Some(FrameTooLarge))
              else if |buffer| < length + 4 then whole == Drained(frames, buffer, None)
              else
                var parsed := Parse(Decode(buffer[4..length + 4]));
                if parsed.Fail? || !parsed.value.Obj?
                then whole == Drained(frames, buffer[length + 4..], Some(InvalidFrame))
                else Passing(whole, frames + [parsed.value], buffer[length + 4..])
  {
    hide Parse, Decode, ReadHeader;
    assert frames + [] == frames;
    if |buffer| >= 4 && 0 < ReadHeader(buffer) <= MAX_FRAME_BYTES && |buffer| >= ReadHeader(buffer) + 4 {
      var n := ReadHeader(buffer) + 4;
      var parsed := Parse(Decode(buffer[4..n]));
      if parsed.Done? && parsed.value.Obj? {
        DrainStep(buffer, n - 4, parsed.value);
        hide Drain;
        assert frames + ([parsed.value] + Drain(buffer[n..]).frames)
               == (frames + [parsed.value]) + Drain(buffer[n..]).frames;
      }
    }
  }

  /** One unfolding of `Drain` over a good frame. */
  lemma DrainStep(buffer: Bytes, length: nat, v: Json)
    requires |buffer| >= 4 && length == ReadHeader(buffer) && 0 < length <= MAX_FRAME_BYTES && |buffer| >= length + 4
    requires var parsed := Parse(Decode(buffer[4..length + 4])); parsed.Done? && parsed.value == v && v.Obj?
    ensures var more := Drain(buffer[length + 4..]);
            Drain(buffer) == Drained([v] + more.frames, more.rest, more.error)
  {
    hide Parse, Decode, ReadHeader;
  }

  // ---------------------------------------------------------------- chunks

  /** How a decoder that holds `buffer` runs through chunks: the frames the pushes return, and what they leave. It stops
      at the first error; a push that throws returns none of the frames it has read. */
  function PushAll(buffer: Bytes, chunks: seq<Bytes>): Drained
    decreases |chunks|
  {
    if chunks == [] then Drained([], buffer, None)
    else
      var d := Drain(buffer + chunks[0]);
      if d.error.Some? then Drained([], d.rest, d.error)
      else
        var more := PushAll(d.rest, chunks[1..]);
        Drained(d.frames + more.frames, more.rest, more.error)
  }

  function Flatten(chunks: seq<Bytes>): Bytes {
    if chunks == [] then [] else chunks[0] + Flatten(chunks[1..])
  }

  /** `first` and then `more`. */
  function Then(first: Drained, more: Drained): Drained {
    Drained(first.frames + more.frames, more.rest, more.error)
  }

  /** `buffer` starts with a complete frame that holds the object `v` and ends before `n`. */
  ghost predicate StartsWithFrame(buffer: Bytes, n: nat, v: Json) {
    && |buffer| >= 4 && n == ReadHeader(buffer) + 4 && 4 < n <= MAX_FRAME_BYTES + 4 && |buffer| >= n
    && Parse(Decode(buffer[4..n])).Done? && Parse(Decode(buffer[4..n])).value == v && v.Obj?
  }

  lemma StartsWithFrameExtends(a: Bytes, b: Bytes, n: nat, v: Json)
    requires StartsWithFrame(a, n, v)
    ensures StartsWithFrame(a + b, n, v) && (a + b)[n..] == a[n..] + b
  {
    assert (a + b)[4..n] == a[4..n];
    assert ReadHeader(a + b) == ReadHeader(a);
  }

  lemma FrameStep(buffer: Bytes, n: nat, v: Json)
    requires StartsWithFrame(buffer, n, v)
    ensures Drain(buffer) == Then(Drained([v], [], None), Drain(buffer[n..]))
  {
    DrainStep(buffer, n - 4, v);
  }

  /** A pass without error either finds a frame at the start or nothing at all. */
  lemma FrameOrNothing(a: Bytes) returns (n: nat, v: Json)
    requires Drain(a).error.None?
    ensures StartsWithFrame(a, n, v) || Drain(a) == Drained([], a, None)
  {
    n, v := 0, Null;
    if |a| >= 4 && |a| >= ReadHeader(a) + 4 {
      n := ReadHeader(a) + 4;
      v := Parse(Decode(a[4..n])).value;
    }
  }

  /** Draining in two steps is draining at once. */
  lemma {:induction false} DrainAppend(a: Bytes, b: Bytes)
    requires Drain(a).error.None?
    ensures Drain(a + b) == Then(Drain(a), Drain(Drain(a).rest + b))
    decreases |a|
  {
    var n, v := FrameOrNothing(a);
    if StartsWithFrame(a, n, v) {
      StartsWithFrameExtends(a, b, n, v);
      FrameStep(a, n, v);
      FrameStep(a + b, n, v);
      DrainAppend(a[n..], b);
      var head := Drained([v], [], None);
      assert Drain(a).rest == Drain(a[n..]).rest;
      hide *;
      ThenAssociates(head, Drain(a[n..]), Drain(Drain(a).rest + b));
    } else {
      hide Drain;
      NothingThen(a, Drain(a + b));
    }
  }

  lemma ThenAssociates(x: Drained, y: Drained, z: Drained)
    ensures Then(x, Then(y, z)) == Then(Then(x, y), z)
  {
    assert x.frames + (y.frames + z.frames) == (x.frames + y.frames) + z.frames;
  }

  lemma NothingThen(rest: Bytes, z: Drained)
    ensures Then(Drained([], rest, None), z) == z
  {
  }

  /** However a stream is cut into chunks, a decoder that meets no error ends as if it had seen it whole. */
  lemma {:induction false} ChunksDoNotMatter(buffer: Bytes, chunks: seq<Bytes>)
    requires Drain(buffer).frames == [] && Drain(buffer).rest == buffer && Drain(buffer).error.None?
    requires Drain(buffer + Flatten(chunks)).error.None?
    ensures PushAll(buffer, chunks) == Drain(buffer + Flatten(chunks))
    decreases |chunks|
  {
    if chunks == [] {
      assert buffer + Flatten(chunks) == buffer;
    } else {
      var ab := buffer + chunks[0];
      assert buffer + Flatten(chunks) == ab + Flatten(chunks[1..]);
      if Drain(ab).error.Some? {
        DrainErrorStays(ab, Flatten(chunks[1..]));
      }
      DrainAppend(ab, Flatten(chunks[1..]));
      RestIsStuck(ab);
      ChunksDoNotMatter(Drain(ab).rest, chunks[1..]);
    }
  }

  /** An error is met again, behind the same frames, when more bytes follow. */
  lemma {:induction false} DrainErrorStays(a: Bytes, b: Bytes)
    requires Drain(a).error.Some?
    ensures Drain(a + b).error == Drain(a).error && Drain(a + b).frames == Drain(a).frames
    decreases |a|
  {
    assert ReadHeader(a + b) == ReadHeader(a);
    var n := ReadHeader(a) + 4;
    if 4 < n <= MAX_FRAME_BYTES + 4 {
      assert (a + b)[4..n] == a[4..n];
      assert (a + b)[n..] == a[n..] + b;
      var parsed := Parse(Decode(a[4..n]));
      if parsed.Done? && parsed.value.Obj? {
        DrainErrorStays(a[n..], b);
      }
    }
  }

  /** What is left over after a pass yields nothing by itself. */
  lemma {:induction false} RestIsStuck(a: Bytes)
    requires Drain(a).error.None?
    ensures var r := Drain(a).rest; Drain(r) == Drained([], r, None)
    decreases |a|
  {
    if |a| >= 4 && |a| >= ReadHeader(a) + 4 {
      RestIsStuck(a[ReadHeader(a) + 4..]);
    }
  }

  // ---------------------------------------------------------------- bad frames

  /** A bad frame shows at one byte: at the last byte of its header or of its body. */
  lemma {:induction false} BadFrameShows(s: Bytes) returns (e: nat)
    requires Drain(s).error.Some?
    ensures 4 <= e <= |s| && forall k :: 0 <= k <= |s| ==> (Drain(s[..k]).error.Some? <==> e <= k)
    decreases |s|
  {
    var n := ReadHeader(s) + 4;
    if n == 4 || n > MAX_FRAME_BYTES + 4 {
      e := 4;
      forall k | 0 <= k <= |s|
        ensures Drain(s[..k]).error.Some? <==> e <= k
      {
        if k >= 4 {
          assert ReadHeader(s[..k]) == ReadHeader(s);
        }
      }
    } else {
      var parsed := Parse(Decode(s[4..n]));
      if parsed.Done? && parsed.value.Obj? {
        DrainStep(s, n - 4, parsed.value);
        e := BadFrameShows(s[n..]);
        e := n + e;
      } else {
        e := n;
      }
      forall k | 0 <= k <= |s|
        ensures Drain(s[..k]).error.Some? <==> e <= k
      {
        PrefixShows(s, n, e, k);
      }
    }
  }

  lemma SlicesOfPrefix(s: Bytes, n: nat, k: nat)
    requires 4 <= n <= k <= |s|
    ensures s[..k][4..n] == s[4..n] && s[..k][n..] == s[n..][..k - n]
  {
  }

  lemma PrefixShows(s: Bytes, n: nat, e: nat, k: nat)
    requires 4 < n <= MAX_FRAME_BYTES + 4 && |s| >= n && n == ReadHeader(s) + 4 && k <= |s|
    requires var parsed := Parse(Decode(s[4..n]));
             if parsed.Done? && parsed.value.Obj?
             then n <= e && forall m :: 0 <= m <= |s| - n ==> (Drain(s[n..][..m]).error.Some? <==> e - n <= m)
             else e == n
    ensures Drain(s[..k]).error.Some? <==> e <= k
  {
    hide Parse, Decode;
    if k >= 4 {
      assert ReadHeader(s[..k]) == ReadHeader(s);
    }
    if k >= n {
      SlicesOfPrefix(s, n, k);
    }
  }

  /** A run that meets a bad frame has returned exactly the frames that were complete before the push that throws. */
  lemma {:induction false} RunUpToError(buffer: Bytes, chunks: seq<Bytes>) returns (j: nat)
    requires Drain(buffer) == Drained([], buffer, None) && Drain(buffer + Flatten(chunks)).error.Some?
    ensures j < |chunks| && Drain(buffer + Flatten(chunks[..j])).error.None?
    ensures var here := Drain(buffer + Flatten(chunks[..j + 1]));
      && here.error.Some? && here.error == Drain(buffer + Flatten(chunks)).error
      && here.frames == Drain(buffer + Flatten(chunks)).frames
      && PushAll(buffer, chunks) == Drained(Drain(buffer + Flatten(chunks[..j])).frames, here.rest, here.error)
    decreases |chunks|
  {
    assert chunks == [] ==> buffer + Flatten(chunks) == buffer;
    var ab, tail := buffer + chunks[0], chunks[1..];
    FlattenCons(buffer, chunks);
    if Drain(ab).error.Some? {
      j := 0;
      FirstChunk(buffer, chunks);
      DrainErrorStays(ab, Flatten(tail));
    } else {
      var rest := Drain(ab).rest;
      RestIsStuck(ab);
      DrainAppend(ab, Flatten(tail));
      var i := RunUpToError(rest, tail);
      j := i + 1;
      PrefixCons(buffer, chunks, i);
      PrefixCons(buffer, chunks, i + 1);
      DrainAppend(ab, Flatten(tail[..i]));
      DrainAppend(ab, Flatten(tail[..i + 1]));
      hide Drain, Flatten;
    }
  }

  lemma FlattenCons(buffer: Bytes, chunks: seq<Bytes>)
    requires chunks != []
    ensures buffer + Flatten(chunks) == (buffer + chunks[0]) + Flatten(chunks[1..])
  {
  }

  lemma FirstChunk(buffer: Bytes, chunks: seq<Bytes>)
    requires chunks != []
    ensures buffer + Flatten(chunks[..0]) == buffer && buffer + Flatten(chunks[..1]) == buffer + chunks[0]
  {
    assert chunks[..1] == [chunks[0]] && chunks[..1][1..] == [];
  }

  lemma PrefixCons(buffer: Bytes, chunks: seq<Bytes>, i: nat)
    requires i < |chunks|
    ensures buffer + Flatten(chunks[..i + 1]) == (buffer + chunks[0]) + Flatten(chunks[1..][..i])
  {
    assert chunks[..i + 1][1..] == chunks[1..][..i];
    FlattenCons(buffer, chunks[..i + 1]);
  }

  /** What a decoder returns of a stream with a bad frame: chunk `j` is the one with byte number `e`, at which the bad
      frame shows. The pushes before it have returned exactly the frames complete in the earlier chunks; the frames
      completed by chunk `j` itself, in front of the bad one, are lost, so that every good frame is returned exactly
      when chunk `j` completes none. The buffer holds what a single pass over everything up to that chunk leaves. */
  lemma BadFrameLosesItsChunk(chunks: seq<Bytes>) returns (e: nat, j: nat)
    requires Drain(Flatten(chunks)).error.Some?
    ensures e <= |Flatten(chunks)|
            && forall k :: 0 <= k <= |Flatten(chunks)| ==> (Drain(Flatten(chunks)[..k]).error.Some? <==> e <= k)
    ensures j < |chunks| && |Flatten(chunks[..j])| < e <= |Flatten(chunks[..j + 1])|
    ensures var early, here := Drain(Flatten(chunks[..j])), Drain(Flatten(chunks[..j + 1]));
            var whole := Drain(Flatten(chunks));
      && PushAll([], chunks) == Drained(early.frames, here.rest, whole.error)
      && here.frames == whole.frames && early.frames <= whole.frames
      && (PushAll([], chunks).frames == whole.frames <==> |here.frames| == |early.frames|)
  {
    hide *;
    e := BadFrameShows(Flatten(chunks));
    j := FreshRun(chunks);
    FlattenPrefix(chunks, j + 1);
    FlattenPrefix(chunks[..j + 1], j);
    assert chunks[..j + 1][..j] == chunks[..j];
    ErrorIsBetween(Flatten(chunks), Flatten(chunks[..j]), Flatten(chunks[..j + 1]), e);
  }

  /** The same for a decoder that holds nothing yet. */
  lemma FreshRun(chunks: seq<Bytes>) returns (j: nat)
    requires Drain(Flatten(chunks)).error.Some?
    ensures j < |chunks| && Drain(Flatten(chunks[..j])).error.None?
    ensures var here := Drain(Flatten(chunks[..j + 1]));
      && here.error.Some? && here.error == Drain(Flatten(chunks)).error && here.frames == Drain(Flatten(chunks)).frames
      && PushAll([], chunks) == Drained(Drain(Flatten(chunks[..j])).frames, here.rest, here.error)
  {
    var whole := Flatten(chunks);
    assert [] + whole == whole;
    assert Drain([]) == Drained([], [], None);
    hide Drain, PushAll;
    j := RunUpToError([], chunks);
    var a, b := Flatten(chunks[..j]), Flatten(chunks[..j + 1]);
    assert [] + a == a && [] + b == b;
  }

  lemma ErrorIsBetween(whole: Bytes, a: Bytes, b: Bytes, e: nat)
    requires a <= b <= whole && Drain(a).error.None? && Drain(b).error.Some?
    requires forall k :: 0 <= k <= |whole| ==> (Drain(whole[..k]).error.Some? <==> e <= k)
    ensures |a| < e <= |b| && Drain(a).frames <= Drain(b).frames
  {
    hide Drain;
    assert whole[..|a|] == a && whole[..|b|] == b;
    EarlierFrames(a, b);
  }

  lemma EarlierFrames(a: Bytes, b: Bytes)
    requires a <= b && Drain(a).error.None?
    ensures Drain(a).frames <= Drain(b).frames
  {
    DrainAppend(a, b[|a|..]);
    assert a + b[|a|..] == b;
  }

  // ---------------------------------------------------------------- messages

  /** The frames of the messages, one after the other. */
  function Stream(ms: seq<Json>): Bytes
    requires forall m :: m in ms ==> Encodable(m)
  {
    if ms == [] then [] else Frame(ms[0]) + Stream(ms[1..])
  }

  /** Some bytes are the frames of the first `n` messages and then a proper prefix of the next frame. */
  ghost predicate Reaches(bytes: Bytes, ms: seq<Json>, n: nat, rest: Bytes)
    requires forall m :: m in ms ==> Encodable(m)
  {
    && n <= |ms| && bytes == Stream(ms[..n]) + rest
    && (if n == |ms| then rest == [] else rest < Frame(ms[n]))
  }

  lemma FrameDrains(m: Json, rest: Bytes)
    requires Encodable(m)
    ensures Drain(Frame(m) + rest) == Drained([m] + Drain(rest).frames, Drain(rest).rest, Drain(rest).error)
  {
    var payload := Payload(m);
    var b := Frame(m) + rest;
    EncodableEncodes(m);
    ParseStringify(m);
    DecodeEncode(Stringify(m));
    assert b == Header(|payload|) + (payload + rest);
    HeaderRoundTrip(|payload|, payload + rest);
    hide Header, ReadHeader, Parse, Decode, Stringify, Encode, Drain;
    assert b[4..|payload| + 4] == payload;
    assert b[|payload| + 4..] == rest;
    DrainStep(b, |payload|, m);
  }

  /** A proper prefix of a frame yields nothing and waits in the buffer. */
  lemma PartialFrameWaits(m: Json, rest: Bytes)
    requires Encodable(m) && rest < Frame(m)
    ensures Drain(rest) == Drained([], rest, None)
  {
    var payload := Payload(m);
    EncodableEncodes(m);
    if |rest| >= 4 {
      HeaderRoundTrip(|payload|, payload);
      hide Header, Stringify, Encode, Payload;
      assert Frame(m)[..|rest|] == rest;
      assert forall k :: 0 <= k < 4 ==> rest[k] == Frame(m)[k];
      assert ReadHeader(rest) == ReadHeader(Frame(m));
    }
  }

  /** Draining any prefix of a message stream yields exactly the messages whose frames are complete. */
  lemma {:induction false} PrefixDrains(ms: seq<Json>, bytes: Bytes) returns (n: nat)
    requires forall m :: m in ms ==> Encodable(m)
    requires bytes <= Stream(ms)
    ensures n <= |ms| && Drain(bytes).frames == ms[..n] && Drain(bytes).error.None?
    ensures Reaches(bytes, ms, n, Drain(bytes).rest)
    ensures bytes == Stream(ms) ==> n == |ms|
  {
    if ms == [] {
      n := 0;
      assert bytes == [];
    } else if |bytes| < |Frame(ms[0])| {
      n := 0;
      var f := Frame(ms[0]);
      hide Frame, Drain;
      assert bytes < f;
      PartialFrameWaits(ms[0], bytes);
      assert Stream(ms[..0]) + bytes == bytes;
    } else {
      var f := Frame(ms[0]);
      var rest := bytes[|f|..];
      assert Stream(ms) == f + Stream(ms[1..]);
      hide Frame, Drain, Stream, Reaches;
      PrefixTail(bytes, f, Stream(ms[1..]));
      var k := PrefixDrains(ms[1..], rest);
      n := k + 1;
      FrameDrains(ms[0], rest);
      TakeMore(ms, k);
      ReachesMore(bytes, ms, n, rest, Drain(rest).rest);
    }
  }

  lemma PrefixTail(bytes: Bytes, a: Bytes, b: Bytes)
    requires bytes <= a + b && |bytes| >= |a|
    ensures bytes == a + bytes[|a|..] && bytes[|a|..] <= b
    ensures bytes == a + b ==> bytes[|a|..] == b
  {
    assert bytes[..|a|] == a;
  }

  lemma TakeMore(ms: seq<Json>, k: nat)
    requires k < |ms|
    ensures ms[..k + 1] == [ms[0]] + ms[1..][..k]
  {
  }

  lemma ReachesMore(bytes: Bytes, ms: seq<Json>, n: nat, tail: Bytes, rest: Bytes)
    requires forall m :: m in ms ==> Encodable(m)
    requires ms != [] && n > 0 && bytes == Frame(ms[0]) + tail && Reaches(tail, ms[1..], n - 1, rest)
    ensures Reaches(bytes, ms, n, rest)
  {
    hide Frame;
    assert ms[..n][1..] == ms[1..][..n - 1];
    assert Stream(ms[..n]) == Frame(ms[0]) + Stream(ms[1..][..n - 1]);
    assert Frame(ms[0]) + (Stream(ms[1..][..n - 1]) + rest) == (Frame(ms[0]) + Stream(ms[1..][..n - 1])) + rest;
  }

  /** The promise of the codec: for every list of encodable messages and every way of cutting their
      frames into chunks, after any number of pushes the decoder has returned exactly the messages whose
      frames are complete, in order and without error, and buffers exactly the proper prefix of the next
      frame; after all chunks it has returned all messages and buffers nothing. */
  lemma MessagesSurviveChunking(ms: seq<Json>, chunks: seq<Bytes>, j: nat) returns (n: nat)
    requires forall m :: m in ms ==> Encodable(m)
    requires Flatten(chunks) == Stream(ms) && j <= |chunks|
    ensures n <= |ms| && PushAll([], chunks[..j]).frames == ms[..n] && PushAll([], chunks[..j]).error.None?
    ensures Reaches(Flatten(chunks[..j]), ms, n, PushAll([], chunks[..j]).rest)
    ensures j == |chunks| ==> PushAll([], chunks) == Drained(ms, [], None)
  {
    FlattenPrefix(chunks, j);
    var bytes := Flatten(chunks[..j]);
    n := PrefixDrains(ms, bytes);
    assert [] + bytes == bytes;
    ChunksDoNotMatter([], chunks[..j]);
    if j == |chunks| {
      assert chunks[..j] == chunks && ms[..n] == ms;
    }
  }

  lemma {:induction false} FlattenPrefix(chunks: seq<Bytes>, j: nat)
    requires j <= |chunks|
    ensures Flatten(chunks[..j]) <= Flatten(chunks)
    ensures j == |chunks| ==> chunks[..j] == chunks
  {
    if j > 0 {
      FlattenPrefix(chunks[1..], j - 1);
      assert chunks[..j][1..] == chunks[1..][..j - 1];
    }
  }
}
