/** The WebSocket end of the scale tool: base framing and masking, sections 5.2 and 5.3 of RFC 6455. */
module Frames {
  import opened Options

  type Byte = b: int | 0 <= b < 256 witness 0

  // ---- bytes --------------------------------------------------------------------------------

  function Power(base: nat, n: nat): nat { if n == 0 then 1 else base * Power(base, n - 1) }

  /** `n` in `width` bytes, most significant first: `struct.pack(">H", n)` for two of them. */
  function BigEndian(n: nat, width: nat): (bytes: seq<Byte>)
    ensures |bytes| == width
  {
    if width == 0 then [] else BigEndian(n / 256, width - 1) + [n % 256]
  }

  /** `struct.unpack(">H", bytes)`, or `">Q"` of eight bytes. */
  function Number(bytes: seq<Byte>): nat
  {
    if bytes == [] then 0 else 256 * Number(bytes[..|bytes| - 1]) + bytes[|bytes| - 1]
  }

  lemma {:induction false} NumberBack(n: nat, width: nat)
    requires n < Power(256, width)
    ensures Number(BigEndian(n, width)) == n
  {
    if width > 0 {
      assert n / 256 < Power(256, width - 1);
      NumberBack(n / 256, width - 1);
      assert BigEndian(n, width)[..width - 1] == BigEndian(n / 256, width - 1);
    }
  }

  lemma Powers()
    ensures Power(256, 2) == 65536 && Power(256, 8) == 0x1_0000_0000_0000_0000
  {
    assert Power(256, 4) == 256 * Power(256, 3) == 256 * (256 * Power(256, 2));
    assert Power(256, 2) == 256 * Power(256, 1) == 256 * (256 * Power(256, 0));
    assert Power(256, 6) == 256 * Power(256, 5) == 256 * (256 * Power(256, 4));
    assert Power(256, 8) == 256 * Power(256, 7) == 256 * (256 * Power(256, 6));
  }

  /** `a ^ b` on the lowest bits. */
  function XorBits(a: nat, b: nat, bits: nat): (r: nat)
    ensures r < Power(2, bits)
  {
    if bits == 0 then 0 else (a + b) % 2 + 2 * XorBits(a / 2, b / 2, bits - 1)
  }

  function Xor(a: Byte, b: Byte): Byte
  {
    EightBits();
    XorBits(a, b, 8)
  }

  lemma EightBits()
    ensures Power(2, 8) == 256
  {
    assert Power(2, 4) == 2 * Power(2, 3) == 2 * (2 * Power(2, 2)) == 4 * (2 * Power(2, 1)) == 16;
    assert Power(2, 8) == 2 * Power(2, 7) == 2 * (2 * Power(2, 6)) == 4 * (2 * Power(2, 5));
  }

  lemma {:induction false} XorBitsTwice(a: nat, b: nat, bits: nat)
    requires a < Power(2, bits)
    ensures XorBits(XorBits(a, b, bits), b, bits) == a
  {
    if bits > 0 {
      XorBitsTwice(a / 2, b / 2, bits - 1);
      BitTwice(a, b, XorBits(a / 2, b / 2, bits - 1));
    }
  }

  lemma BitTwice(a: nat, b: nat, x: nat)
    ensures var r := (a + b) % 2 + 2 * x; r / 2 == x && (r + b) % 2 + 2 * (a / 2) == a
  {
    var u, v, i, j := a / 2, b / 2, a % 2, b % 2;
    var bit := if i == j then 0 else 1;
    assert a + b == 2 * (u + v) + (i + j);
    Parity(u + v, i + j);
    Parity(x, bit);
    Parity(x + v, bit + j);
    assert bit + 2 * x + b == 2 * (x + v) + (bit + j);
  }

  lemma Parity(k: nat, n: nat)
    requires n <= 2
    ensures (2 * k + n) % 2 == (if n == 1 then 1 else 0) && (n < 2 ==> (2 * k + n) / 2 == k)
  {
  }

  lemma XorTwice(a: Byte, b: Byte)
    ensures Xor(Xor(a, b), b) == a
  {
    EightBits();
    XorBitsTwice(a, b, 8);
  }

  // ---- the wire format ----------------------------------------------------------------------

  /** A frame. Masked frames carry their key. */
  datatype Frame = Frame(fin: bool, reserved: nat, opcode: nat, key: Option<seq<Byte>>, payload: seq<Byte>)

  /** Where the length stands: in the second byte, in two bytes behind it, or in eight. */
  datatype Form = Short | Medium | Long

  predicate Proper(f: Frame, form: Form)
  {
    f.reserved < 8 && f.opcode < 16 && (f.key.Some? ==> |f.key.value| == 4) &&
    match form
    case Short => |f.payload| < 126
    case Medium => |f.payload| < 65536
    case Long => |f.payload| < 0x1_0000_0000_0000_0000
  }

  /** The transformation of section 5.3, which is its own inverse. */
  function Masked(data: seq<Byte>, key: seq<Byte>): (r: seq<Byte>)
    requires |key| == 4
    ensures |r| == |data|
  {
    seq(|data|, i requires 0 <= i < |data| => Xor(data[i], key[i % 4]))
  }

  lemma MaskedTwice(data: seq<Byte>, key: seq<Byte>)
    requires |key| == 4
    ensures Masked(Masked(data, key), key) == data
  {
    forall i | 0 <= i < |data| ensures Masked(Masked(data, key), key)[i] == data[i] {
      XorTwice(data[i], key[i % 4]);
    }
  }

  function Extended(n: nat, form: Form): seq<Byte>
  {
    match form
    case Short => []
    case Medium => BigEndian(n, 2)
    case Long => BigEndian(n, 8)
  }

  function First(f: Frame): Byte
    requires f.reserved < 8 && f.opcode < 16
  {
    (if f.fin then 128 else 0) + 16 * f.reserved + f.opcode
  }

  function Second(f: Frame, form: Form): Byte
    requires Proper(f, form)
  {
    (if f.key.Some? then 128 else 0) +
    match form
    case Short => |f.payload|
    case Medium => 126
    case Long => 127
  }

  /** What stands on the wire behind the length. */
  function Body(f: Frame): seq<Byte>
    requires f.key.Some? ==> |f.key.value| == 4
  {
    match f.key
    case None => f.payload
    case Some(key) => key + Masked(f.payload, key)
  }

  /** The whole frame on the wire. */
  function Wire(f: Frame, form: Form): seq<Byte>
    requires Proper(f, form)
  {
    [First(f), Second(f, form)] + Extended(|f.payload|, form) + Body(f)
  }

  /** How many bytes of length follow the second byte. */
  function Width(second: Byte): nat { if second % 128 == 126 then 2 else if second % 128 == 127 then 8 else 0 }

  function Length(s: seq<Byte>): nat
    requires |s| >= 2 && |s| >= 2 + Width(s[1])
  {
    if Width(s[1]) == 0 then s[1] % 128 else Number(s[2..2 + Width(s[1])])
  }

  /** What stands behind the length, read as `n` bytes of payload with the key before them if there is one. */
  function Opened(s: seq<Byte>, masked: bool, n: nat): Option<(Option<seq<Byte>>, seq<Byte>, seq<Byte>)>
  {
    if masked then
      if |s| < 4 + n then None else Some((Some(s[..4]), Masked(s[4..4 + n], s[..4]), s[4 + n..]))
    else
      if |s| < n then None else Some((None, s[..n], s[n..]))
  }

  /** A reader of that format: the frame the bytes begin with, and the bytes behind it. */
  function Decoded(s: seq<Byte>): Option<(Frame, seq<Byte>)>
  {
    if |s| < 2 || |s| < 2 + Width(s[1]) then None
    else
      match Opened(s[2 + Width(s[1])..], s[1] >= 128, Length(s))
      case None => None
      case Some((key, payload, rest)) => Some((Frame(s[0] >= 128, s[0] / 16 % 8, s[0] % 16, key, payload), rest))
  }

  lemma FirstBack(f: Frame)
    requires f.reserved < 8 && f.opcode < 16
    ensures (First(f) >= 128 <==> f.fin) && First(f) / 16 % 8 == f.reserved && First(f) % 16 == f.opcode
  {
  }

  lemma OpenedBack(f: Frame, rest: seq<Byte>)
    requires f.key.Some? ==> |f.key.value| == 4
    ensures Opened(Body(f) + rest, f.key.Some?, |f.payload|) == Some((f.key, f.payload, rest))
  {
    var s, n := Body(f) + rest, |f.payload|;
    if f.key.Some? {
      var key := f.key.value;
      assert s[..4] == key && s[4..4 + n] == Masked(f.payload, key) && s[4 + n..] == rest;
      MaskedTwice(f.payload, key);
    } else {
      assert s[..n] == f.payload && s[n..] == rest;
    }
  }

  /** The head of a frame says how long the length is, and the length. */
  lemma HeadBack(f: Frame, form: Form, rest: seq<Byte>)
    requires Proper(f, form)
    ensures var s := [First(f), Second(f, form)] + Extended(|f.payload|, form) + rest;
            var width := Width(s[1]);
            s[0] == First(f) && (s[1] >= 128 <==> f.key.Some?) && |s| >= 2 + width &&
            width == |Extended(|f.payload|, form)| && Length(s) == |f.payload| && s[2 + width..] == rest
  {
    Powers();
    if form.Medium? { NumberBack(|f.payload|, 2); }
    if form.Long? { NumberBack(|f.payload|, 8); }
    var s := [First(f), Second(f, form)] + Extended(|f.payload|, form) + rest;
    assert s[2..2 + |Extended(|f.payload|, form)|] == Extended(|f.payload|, form);
  }

  /** The wire format is unambiguous: every frame reads back, in each form that holds its length. */
  lemma DecodedBack(f: Frame, form: Form, rest: seq<Byte>)
    requires Proper(f, form)
    ensures Decoded(Wire(f, form) + rest) == Some((f, rest))
  {
    HeadBack(f, form, Body(f) + rest);
    assert Wire(f, form) + rest == [First(f), Second(f, form)] + Extended(|f.payload|, form) + (Body(f) + rest);
    OpenedBack(f, rest);
    FirstBack(f);
  }

  // ---- sending ------------------------------------------------------------------------------

  /** `_encode_text_frame`, for an encoded message and the mask drawn: `struct.pack(">H", length)` raises from
      65536 bytes on. */
  method EncodeTextFrame(payload: seq<Byte>, mask: seq<Byte>) returns (frame: Option<seq<Byte>>)
    requires |mask| == 4
    ensures frame.Some? <==> |payload| < 65536
    ensures var f := Frame(true, 0, 1, Some(mask), payload);
            frame.Some? ==> frame.value == Wire(f, if |payload| < 126 then Short else Medium)
  {
    var length := |payload|;
    var header: seq<Byte> := [0x81];
    if length < 126 {
      header := header + [128 + length];
    } else {
      header := header + [128 + 126];
      if length >= 65536 { return None; }
      header := header + BigEndian(length, 2);
    }
    ghost var form := if length < 126 then Short else Medium;
    assert header == [0x81, header[1]] + Extended(length, form);
    TextFrameIs(payload, mask, form, header[1]);
    header := header + mask;
    var masked := seq(|payload|, i requires 0 <= i < |payload| => Xor(payload[i], mask[i % 4]));
    assert masked == Masked(payload, mask);
    return Some(header + masked);
  }

  lemma TextFrameIs(payload: seq<Byte>, mask: seq<Byte>, form: Form, second: Byte)
    requires |mask| == 4 && Proper(Frame(true, 0, 1, Some(mask), payload), form)
    requires second == Second(Frame(true, 0, 1, Some(mask), payload), form)
    ensures [0x81, second] + Extended(|payload|, form) + mask + Masked(payload, mask) ==
            Wire(Frame(true, 0, 1, Some(mask), payload), form)
  {
    var f, head := Frame(true, 0, 1, Some(mask), payload), [0x81, second] + Extended(|payload|, form);
    assert Body(f) == mask + Masked(payload, mask);
    assert First(f) == 0x81;
    assert head + mask + Masked(payload, mask) == head + (mask + Masked(payload, mask));
  }

  // ---- receiving ----------------------------------------------------------------------------

  /** What the peer will send before it closes, handed out in pieces of any size. */
  class Socket {
    var stream: seq<Byte>
    var calls: nat
    const sizes: nat -> nat

    constructor (stream: seq<Byte>, sizes: nat -> nat)
      ensures this.stream == stream
    {
      this.stream, this.calls, this.sizes := stream, 0, sizes;
    }

    /** `sock.recv(count)`: at least one byte and at most `count`, nothing only when the peer has closed. */
    method Recv(count: nat) returns (chunk: seq<Byte>)
      requires count > 0
      modifies this
      ensures old(stream) == chunk + stream && |chunk| <= count && (chunk == [] <==> old(stream) == [])
    {
      var most := if count < |stream| then count else |stream|;
      var size := if most == 0 then 0 else 1 + sizes(calls) % most;
      calls := calls + 1;
      chunk := stream[..size];
      stream := stream[size..];
    }
  }

  /** What a read of `count` bytes comes to, and what is left. */
  function Taken(s: seq<Byte>, count: nat): (Option<seq<Byte>>, seq<Byte>)
  {
    if |s| < count then (None, []) else (Some(s[..count]), s[count..])
  }

  /** `_recv_exact` */
  method RecvExact(sock: Socket, count: nat) returns (buffer: Option<seq<Byte>>)
    modifies sock
    ensures (buffer, sock.stream) == Taken(old(sock.stream), count)
  {
    var got: seq<Byte> := [];
    while |got| < count
      invariant |got| <= count && got + sock.stream == old(sock.stream)
    {
      ghost var before := sock.stream;
      var chunk := sock.Recv(count - |got|);
      if chunk == [] { return None; }
      assert got + (chunk + sock.stream) == (got + chunk) + sock.stream;
      got := got + chunk;
    }
    return Some(got);
  }

  /** What `_recv_frame` makes of the bytes to come, however they are split, and what it leaves of them. */
  function Received(s: seq<Byte>): (r: (Option<(nat, seq<Byte>)>, seq<Byte>))
    ensures |r.1| <= |s|
  {
    if |s| < 2 || |s| < 2 + Width(s[1]) then (None, [])
    else
      var n, rest := Length(s), s[2 + Width(s[1])..];
      if s[1] >= 128 then (None, rest)
      else if |rest| < n then (None, [])
      else (Some((s[0] % 16, rest[..n])), rest[n..])
  }

  /** `_recv_frame` */
  method RecvFrame(sock: Socket) returns (frame: Option<(nat, seq<Byte>)>)
    modifies sock
    ensures (frame, sock.stream) == Received(old(sock.stream))
  {
    ghost var s := sock.stream;
    var head := RecvExact(sock, 2);
    if head.None? { return None; }
    var opcode := head.value[0] % 16;
    var masked := head.value[1] >= 128;
    var length := head.value[1] % 128;
    if length == 126 {
      var ext := RecvExact(sock, 2);
      if ext.None? { return None; }
      assert ext.value == s[2..4];
      length := Number(ext.value);
    } else if length == 127 {
      var ext := RecvExact(sock, 8);
      if ext.None? { return None; }
      assert ext.value == s[2..10];
      length := Number(ext.value);
    }
    if masked { return None; }
    var payload := Some([]);
    if length != 0 {
      payload := RecvExact(sock, length);
    }
    return if payload.None? then None else Some((opcode, payload.value));
  }

  /** Every unmasked frame reads back, in each form that holds its length, and exactly its bytes are used up. */
  lemma FrameBack(f: Frame, form: Form, rest: seq<Byte>)
    requires Proper(f, form) && f.key.None?
    ensures Received(Wire(f, form) + rest) == (Some((f.opcode, f.payload)), rest)
  {
    var behind := f.payload + rest;
    var s := [First(f), Second(f, form)] + Extended(|f.payload|, form) + behind;
    assert Wire(f, form) + rest == s;
    HeadBack(f, form, behind);
    assert s[0] % 16 == f.opcode by { FirstBack(f); }
    assert behind[..|f.payload|] == f.payload && behind[|f.payload|..] == rest;
    ReceivedUnmasked(s, |f.payload|, behind);
  }

  lemma ReceivedUnmasked(s: seq<Byte>, n: nat, rest: seq<Byte>)
    requires |s| >= 2 && |s| >= 2 + Width(s[1]) && s[1] < 128 && Length(s) == n <= |rest|
    requires s[2 + Width(s[1])..] == rest
    ensures Received(s) == (Some((s[0] % 16, rest[..n])), rest[n..])
  {
  }

  /** A masked frame is refused once its length is read: key and payload stay in the stream. */
  lemma MaskedRefused(f: Frame, form: Form, rest: seq<Byte>)
    requires Proper(f, form) && f.key.Some?
    ensures Received(Wire(f, form) + rest) == (None, Body(f) + rest)
  {
    HeadBack(f, form, Body(f) + rest);
    assert Wire(f, form) + rest == [First(f), Second(f, form)] + Extended(|f.payload|, form) + (Body(f) + rest);
  }

  /** A peer that closes inside an unmasked frame gives no frame. */
  lemma CutShort(f: Frame, form: Form, k: nat)
    requires Proper(f, form) && f.key.None? && k < |Wire(f, form)|
    ensures Received(Wire(f, form)[..k]) == (None, [])
  {
    var s, w := Wire(f, form)[..k], Wire(f, form);
    HeadBack(f, form, f.payload);
    assert w == [First(f), Second(f, form)] + Extended(|f.payload|, form) + f.payload;
    if k >= 2 {
      assert s[1] == w[1];
      if k >= 2 + Width(s[1]) { SameLength(w, s); }
    }
  }

  lemma SameLength(w: seq<Byte>, s: seq<Byte>)
    requires s <= w && |s| >= 2 && |s| >= 2 + Width(s[1])
    ensures w[1] == s[1] && Length(w) == Length(s)
  {
    assert w[2..2 + Width(s[1])] == s[2..2 + Width(s[1])];
  }

  /** What `n` reads one after another give. */
  function ReceivedAll(s: seq<Byte>, n: nat): seq<Option<(nat, seq<Byte>)>>
    decreases n
  {
    if n == 0 then [] else [Received(s).0] + ReceivedAll(Received(s).1, n - 1)
  }

  function WireAll(frames: seq<(Frame, Form)>): seq<Byte>
    requires forall i :: 0 <= i < |frames| ==> Proper(frames[i].0, frames[i].1)
  {
    if frames == [] then [] else Wire(frames[0].0, frames[0].1) + WireAll(frames[1..])
  }

  /** What the frames say. */
  function Messages(frames: seq<(Frame, Form)>): seq<Option<(nat, seq<Byte>)>>
  {
    if frames == [] then [] else [Some((frames[0].0.opcode, frames[0].0.payload))] + Messages(frames[1..])
  }

  /** Frames sent one after another are read one after another. */
  lemma {:induction false} FramesBack(frames: seq<(Frame, Form)>, rest: seq<Byte>)
    requires forall i :: 0 <= i < |frames| ==> Proper(frames[i].0, frames[i].1) && frames[i].0.key.None?
    ensures ReceivedAll(WireAll(frames) + rest, |frames|) == Messages(frames)
  {
    if frames != [] {
      var (f, form) := frames[0];
      var tail := WireAll(frames[1..]) + rest;
      assert WireAll(frames) + rest == Wire(f, form) + tail;
      FramesBack(frames[1..], rest);
      OneMore(Wire(f, form) + tail, |frames| - 1, Some((f.opcode, f.payload)), tail) by { FrameBack(f, form, tail); }
    }
  }

  lemma OneMore(s: seq<Byte>, n: nat, said: Option<(nat, seq<Byte>)>, rest: seq<Byte>)
    requires Received(s) == (said, rest)
    ensures ReceivedAll(s, n + 1) == [said] + ReceivedAll(rest, n)
  {
  }

  /** What a client frame carries is what `_encode_text_frame` was given. */
  lemma TextFrameBack(payload: seq<Byte>, mask: seq<Byte>)
    requires |mask| == 4 && |payload| < 65536
    ensures var form := if |payload| < 126 then Short else Medium;
            Decoded(Wire(Frame(true, 0, 1, Some(mask), payload), form)) ==
            Some((Frame(true, 0, 1, Some(mask), payload), []))
  {
    var f, form := Frame(true, 0, 1, Some(mask), payload), if |payload| < 126 then Short else Medium;
    DecodedBack(f, form, []);
    assert Wire(f, form) + [] == Wire(f, form);
  }

  // ---- which byte goes where -----------------------------------------------------------------------------

  lemma {:induction false} XorWithNone(b: nat, bits: nat)
    requires b < Power(2, bits)
    ensures XorBits(0, b, bits) == b
  {
    if bits > 0 { XorWithNone(b / 2, bits - 1); }
  }

  /** The mask of a run of zeros is the key over and over, from its first byte on (section 5.3 of RFC 6455). */
  lemma KeyOverAndOver(zeros: seq<Byte>, key: seq<Byte>, i: nat)
    requires |key| == 4 && (forall j :: 0 <= j < |zeros| ==> zeros[j] == 0) && i < |zeros|
    ensures Masked(zeros, key)[i] == key[i % 4]
  {
    EightBits();
    XorWithNone(key[i % 4], 8);
  }

  /** Lengths are in network byte order: 256 bytes, and 64 KiB (section 5.7 of RFC 6455). */
  lemma LengthsOnTheWire()
    ensures Extended(256, Medium) == [0x01, 0x00] && Extended(65536, Long) == [0, 0, 0, 0, 0, 1, 0, 0]
    ensures Number([0x01, 0x00]) == 256 && Number([0, 0, 0, 0, 0, 1, 0, 0]) == 65536
  {
    assert BigEndian(256, 2) == BigEndian(1, 1) + [0] == [1] + [0];
    assert BigEndian(1, 6) == BigEndian(0, 5) + [1] == [0, 0, 0, 0, 0] + [1];
    assert BigEndian(65536, 8) == BigEndian(256, 7) + [0] == BigEndian(1, 6) + [0] + [0];
    assert [0, 0, 0, 0, 0] + [1] + [0] + [0] == [0, 0, 0, 0, 0, 1, 0, 0];
    Powers();
    NumberBack(256, 2);
    NumberBack(65536, 8);
  }
}
