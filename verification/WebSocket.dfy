/**
 `longlink/websocketpacket.cc`: the frame layout of section 5.2 of RFC 6455, the masking of
 section 5.3, the packer, and the resumable frame parser.
 */
module WebSocket {
  import opened Octets
  import opened Sequences

  // -- Exclusive or --

  /** Bitwise exclusive or of the n low bits. */
  function XorBits(a: nat, b: nat, n: nat): nat
    decreases n
  {
    if n == 0 then 0 else (a % 2 + b % 2) % 2 + 2 * XorBits(a / 2, b / 2, n - 1)
  }

  function Pow2(n: nat): nat { if n == 0 then 1 else 2 * Pow2(n - 1) }

  lemma {:induction false} XorBound(a: nat, b: nat, n: nat)
    ensures XorBits(a, b, n) < Pow2(n)
    decreases n
  {
    if n > 0 { XorBound(a / 2, b / 2, n - 1); }
  }

  lemma LowBit(x: nat, rest: nat)
    requires x < 2
    ensures (x + 2 * rest) % 2 == x && (x + 2 * rest) / 2 == rest
  {
  }

  lemma BitTwice(a: nat, b: nat)
    ensures ((a % 2 + b % 2) % 2 + b % 2) % 2 == a % 2
  {
  }

  lemma {:induction false} XorTwice(a: nat, b: nat, n: nat)
    requires a < Pow2(n)
    ensures XorBits(XorBits(a, b, n), b, n) == a
    decreases n
  {
    if n > 0 {
      var x, rest := (a % 2 + b % 2) % 2, XorBits(a / 2, b / 2, n - 1);
      LowBit(x, rest);
      BitTwice(a, b);
      XorTwice(a / 2, b / 2, n - 1);
      calc {
        XorBits(XorBits(a, b, n), b, n);
        XorBits(x + 2 * rest, b, n);
        (x + b % 2) % 2 + 2 * XorBits(rest, b / 2, n - 1);
        a % 2 + 2 * (a / 2);
        a;
      }
    }
  }

  lemma {:induction false} XorCancel(a: nat, b: nat, c: nat, n: nat)
    requires XorBits(a, b, n) == XorBits(a, c, n) && b < Pow2(n) && c < Pow2(n)
    ensures b == c
    decreases n
  {
    if n > 0 {
      var x, y := (a % 2 + b % 2) % 2, (a % 2 + c % 2) % 2;
      LowBit(x, XorBits(a / 2, b / 2, n - 1));
      LowBit(y, XorBits(a / 2, c / 2, n - 1));
      XorCancel(a / 2, b / 2, c / 2, n - 1);
      BitTwice(b, a);
      BitTwice(c, a);
    }
  }

  lemma PowEight()
    ensures Pow2(8) == 256
  {
    assert Pow2(4) == 16 by { assert Pow2(2) == 4; }
    assert Pow2(6) == 64;
  }

  function Xor(a: byte, b: byte): byte {
    XorBound(a, b, 8);
    PowEight();
    XorBits(a, b, 8)
  }

  /** Bit i of a number, counted from the lowest. */
  function Bit(x: nat, i: nat): nat { if i == 0 then x % 2 else Bit(x / 2, i - 1) }

  lemma {:induction false} XorBitsAt(a: nat, b: nat, n: nat, i: nat)
    requires i < n
    ensures Bit(XorBits(a, b, n), i) == if Bit(a, i) == Bit(b, i) then 0 else 1
    decreases n
  {
    LowBit((a % 2 + b % 2) % 2, XorBits(a / 2, b / 2, n - 1));
    if i > 0 {
      XorBitsAt(a / 2, b / 2, n - 1, i - 1);
    }
  }

  /** Bit by bit, it is the exclusive or. */
  lemma XorIsExclusive(a: byte, b: byte, i: nat)
    requires i < 8
    ensures Bit(Xor(a, b), i) == if Bit(a, i) == Bit(b, i) then 0 else 1
  {
    XorBitsAt(a, b, 8, i);
  }

  lemma XorInvolution(a: byte, b: byte)
    ensures Xor(Xor(a, b), b) == a
  {
    PowEight();
    XorTwice(a, b, 8);
  }

  lemma XorInjective(a: byte, b: byte, c: byte)
    ensures Xor(a, b) == Xor(a, c) <==> b == c
  {
    PowEight();
    if Xor(a, b) == Xor(a, c) {
      XorCancel(a, b, c, 8);
    }
  }

  // -- Frames --

  type Key = k: seq<byte> | |k| == 4 witness [0, 0, 0, 0]

  /** Section 5.3: octet i is combined with octet i modulo 4 of the key. */
  function Masked(s: seq<byte>, key: Key): (r: seq<byte>)
    ensures |r| == |s| && forall i :: 0 <= i < |s| ==> r[i] == Xor(s[i], key[i % 4])
  {
    seq(|s|, i requires 0 <= i < |s| => Xor(s[i], key[i % 4]))
  }

  /** A number in n octets, the most significant one first. */
  function BigEndian(x: nat, n: nat): (r: seq<byte>)
    ensures |r| == n
    decreases n
  {
    if n == 0 then [] else BigEndian(x / 256, n - 1) + [x % 256]
  }

  /** A number in n octets as the processor stores it, the least significant one first. */
  function LittleEndian(x: nat, n: nat): (r: seq<byte>)
    ensures |r| == n
    decreases n
  {
    if n == 0 then [] else [x % 256] + LittleEndian(x / 256, n - 1)
  }

  datatype Frame = Frame(first: byte, masked: bool, key: Key, payload: seq<byte>)

  /** The seven-bit length that section 5.2 prescribes for a payload of n octets. */
  function ShortLen(n: nat): (c: nat)
    ensures c < 128
  {
    if n < 126 then n else if n <= 0xffff then 126 else 127
  }

  /** How many octets of extended length follow a seven-bit length. */
  function ExtraLen(c: nat): (n: nat)
    ensures n <= 8
  {
    if c == 126 then 2 else if c == 127 then 8 else 0
  }

  function HeaderLen(f: Frame): (h: nat)
    ensures h >= 2
  {
    2 + ExtraLen(ShortLen(|f.payload|)) + if f.masked then 4 else 0
  }

  /** The payload of a frame as it is on the wire. */
  function Body(f: Frame): (b: seq<byte>)
    ensures |b| == |f.payload|
  {
    if f.masked then Masked(f.payload, f.key) else f.payload
  }

  function Header(f: Frame): (b: seq<byte>)
    ensures |b| == HeaderLen(f)
  {
    var c := ShortLen(|f.payload|);
    [f.first, if f.masked then 128 + c else c]
    + BigEndian(|f.payload|, ExtraLen(c))
    + if f.masked then f.key else []
  }

  function Bytes(f: Frame): (b: seq<byte>)
    ensures |b| == HeaderLen(f) + |f.payload|
  {
    Header(f) + Body(f)
  }

  /** On the wire of a masked frame a bit is set exactly when the payload's and the key's differ. */
  lemma MaskedWire(f: Frame, k: nat, i: nat)
    requires f.masked && k < |f.payload| && i < 8
    ensures Bit(Bytes(f)[HeaderLen(f) + k], i) == if Bit(f.payload[k], i) == Bit(f.key[k % 4], i) then 0 else 1
  {
    hide Bit, Xor, Header;
    XorIsExclusive(f.payload[k], f.key[k % 4], i);
  }

  /** The examples of section 5.7: "Hello", unmasked, and what comes before the payload when it is masked. */
  lemma HelloFrames()
    ensures Bytes(Frame(0x81, false, NO_KEY, [0x48, 0x65, 0x6c, 0x6c, 0x6f]))
         == [0x81, 0x05, 0x48, 0x65, 0x6c, 0x6c, 0x6f]
    ensures Bytes(Frame(0x81, true, [0x37, 0xfa, 0x21, 0x3d], [0x48, 0x65, 0x6c, 0x6c, 0x6f]))[..6]
         == [0x81, 0x85, 0x37, 0xfa, 0x21, 0x3d]
  {
    hide Xor, XorBits, Masked, Body, Header;
    var hello: seq<byte> := [0x48, 0x65, 0x6c, 0x6c, 0x6f];
    HelloHeader(Frame(0x81, false, NO_KEY, hello));
    HelloHeader(Frame(0x81, true, [0x37, 0xfa, 0x21, 0x3d], hello));
    PlainBody(Frame(0x81, false, NO_KEY, hello));
  }

  lemma PlainBody(f: Frame)
    requires !f.masked
    ensures Body(f) == f.payload
  {
  }

  lemma HelloHeader(f: Frame)
    requires |f.payload| == 5
    ensures Header(f) == if f.masked then [f.first, 0x85] + f.key else [f.first, 0x05]
  {
    assert BigEndian(5, 0) == [];
    assert ExtraLen(ShortLen(5)) == 0;
  }

  /** The longer forms of section 5.7: 256 bytes, and 64 Ki bytes. */
  lemma LongHeaders(f: Frame)
    requires !f.masked
    ensures |f.payload| == 256 ==> Header(f) == [f.first, 0x7e, 0x01, 0x00]
    ensures |f.payload| == 65536 ==> Header(f) == [f.first, 0x7f, 0, 0, 0, 0, 0, 1, 0, 0]
  {
    if |f.payload| == 256 {
      assert BigEndian(256, 2) == [1, 0] by { assert BigEndian(1, 1) == [1] by { assert BigEndian(0, 0) == []; } }
    }
    if |f.payload| == 65536 {
      assert BigEndian(65536, 8) == [0, 0, 0, 0, 0, 1, 0, 0];
    }
  }

  // -- The packer --

  const NO_KEY: Key := [0, 0, 0, 0]

  function TextFrame(content: seq<byte>): Frame { Frame(0x81, false, NO_KEY, content) }

  /** `ws::Pack`: an unmasked text frame whose extended length is copied from memory as it is. */
  method Pack(content: seq<byte>) returns (out: seq<byte>)
    ensures var c := ShortLen(|content|);
            out == [0x81, c] + LittleEndian(|content|, ExtraLen(c)) + content
  {
    out := [0x80 + 1];
    var length := |content|;
    if length < 126 {
      out := out + [length];
    } else if length <= 0xffff {
      out := out + [126];
      out := out + LittleEndian(length, 2);
    } else {
      out := out + [127];
      out := out + LittleEndian(length, 8);
    }
    out := out + content;
  }

  /** Octet i of the n-octet form, counted from the least significant one. */
  function Octet(x: nat, i: nat): byte { if i == 0 then x % 256 else Octet(x / 256, i - 1) }

  lemma {:induction false} LittleEndianAt(x: nat, n: nat, i: nat)
    requires i < n
    ensures LittleEndian(x, n)[i] == Octet(x, i)
    decreases n
  {
    if i > 0 { LittleEndianAt(x / 256, n - 1, i - 1); }
  }

  lemma {:induction false} BigEndianAt(x: nat, n: nat, i: nat)
    requires i < n
    ensures BigEndian(x, n)[n - 1 - i] == Octet(x, i)
    decreases n
  {
    if i > 0 { BigEndianAt(x / 256, n - 1, i - 1); }
  }

  predicate Mirrors(x: nat, n: nat, i: nat)
    requires i < n
  {
    Octet(x, i) == Octet(x, n - 1 - i)
  }

  /** The octets of the length read the same in both directions. */
  predicate Palindrome(x: nat, n: nat) { forall i :: 0 <= i < n ==> Mirrors(x, n, i) }

  lemma EndiansAgree(x: nat, n: nat)
    ensures LittleEndian(x, n) == BigEndian(x, n) <==> Palindrome(x, n)
  {
    var little, big := LittleEndian(x, n), BigEndian(x, n);
    forall i | 0 <= i < n
      ensures little[i] == big[i] <==> Mirrors(x, n, i)
    {
      LittleEndianAt(x, n, i);
      BigEndianAt(x, n, n - 1 - i);
    }
    if little == big {
      forall i | 0 <= i < n
        ensures Mirrors(x, n, i)
      {
        assert little[i] == big[i];
      }
    }
  }

  /**
   The packer's output is the frame of section 5.2 for every content below 126 bytes; from there on
   exactly when the octets of the length read the same both ways.
   */
  lemma PackIsStandard(content: seq<byte>, out: seq<byte>)
    requires var c := ShortLen(|content|);
             out == [0x81, c] + LittleEndian(|content|, ExtraLen(c)) + content
    ensures out == Bytes(TextFrame(content))
       <==> |content| < 126 || Palindrome(|content|, if |content| <= 0xffff then 2 else 8)
  {
    hide *;
    var c := ShortLen(|content|);
    var e := ExtraLen(c);
    Forms(|content|);
    EndiansAgree(|content|, e);
    TextBytes(content);
    MiddleDecides([0x81, c], LittleEndian(|content|, e), BigEndian(|content|, e), content);
  }

  lemma Forms(n: nat)
    ensures ExtraLen(ShortLen(n)) == if n < 126 then 0 else if n <= 0xffff then 2 else 8
    ensures n < 126 ==> Palindrome(n, 0)
  {
  }

  lemma TextBytes(content: seq<byte>)
    ensures var c := ShortLen(|content|);
            Bytes(TextFrame(content)) == [0x81, c] + BigEndian(|content|, ExtraLen(c)) + content
  {
    hide BigEndian, ShortLen, ExtraLen, Body, Header, HeaderLen;
    var f, c := TextFrame(content), ShortLen(|content|);
    var head := [0x81, c] + BigEndian(|content|, ExtraLen(c));
    assert Header(f) == head by { TextHeader(content); }
    assert Body(f) == content by { TextBody(content); }
  }

  lemma TextHeader(content: seq<byte>)
    ensures var c := ShortLen(|content|);
            Header(TextFrame(content)) == [0x81, c] + BigEndian(|content|, ExtraLen(c))
  {
    hide BigEndian, ShortLen, ExtraLen;
    var c := ShortLen(|content|);
    var s := [0x81, c] + BigEndian(|content|, ExtraLen(c));
    assert s + [] == s;
  }

  lemma TextBody(content: seq<byte>)
    ensures Body(TextFrame(content)) == content
  {
  }

  // -- The parser's states --

  datatype Position = AtNone | AtFirstByte | AtPayloadLen | AtExtendedLen | AtMaskingKey | AtPayload | AtEnd | AtError

  datatype State = State(
    position: Position, resolved: nat, first: byte, masked: bool, len: nat, key: Key, payload: seq<byte>)

  const FRESH := State(AtNone, 0, 0x81, false, 0, NO_KEY, [])

  /** The header of a buffer, read as far as it is there. */
  function AfterHeader(b: seq<byte>): State {
    if |b| == 0 then FRESH
    else if |b| == 1 then FRESH.(position := AtPayloadLen, resolved := 1, first := b[0])
    else
      var s := FRESH.(resolved := 2, first := b[0], masked := b[1] >= 128, len := b[1] % 128);
      var e := ExtraLen(s.len);
      if |b| < 2 + e then s.(position := AtExtendedLen)
      else if !s.masked then s.(position := AtPayload, resolved := 2 + e)
      else if |b| < 6 + e then s.(position := AtMaskingKey, resolved := 2 + e)
      else s.(position := AtPayload, resolved := 6 + e, key := b[2 + e..6 + e])
  }

  /** `_ResolvePayload`: the key starts over at every read. */
  function AfterPayload(s: State, b: seq<byte>): State
    requires s.resolved <= |b|
  {
    if s.resolved == |b| then s
    else
      var piece := b[s.resolved..];
      var payload := s.payload + (if s.masked then Masked(piece, s.key) else piece);
      s.(resolved := |b|, payload := payload,
         position := if |payload| == s.len then AtEnd else if |payload| > s.len then AtError else AtPayload)
  }

  /** Everything the parser can read of a buffer none of whose payload it has seen. */
  function AfterAll(b: seq<byte>): State {
    var h := AfterHeader(b);
    if h.position == AtPayload then AfterPayload(h, b) else h
  }

  predicate InHeader(s: State) {
    s.position == AtNone || s.position == AtPayloadLen || s.position == AtExtendedLen || s.position == AtMaskingKey
  }

  /** The states the parser can be in when its buffer has grown to b. */
  predicate Ready(s: State, b: seq<byte>) {
    && s.position != AtFirstByte
    && s.resolved <= |b|
    && (InHeader(s) ==> s == AfterHeader(b[..s.resolved]))
  }

  /** `DoParse` on the buffer b, for a parser in state s. */
  function Resumed(s: State, b: seq<byte>): State {
    if s.position == AtEnd || s.position == AtError || |b| <= s.resolved then s
    else if s.position == AtPayload then AfterPayload(s, b)
    else AfterAll(b)
  }

  lemma HeaderDone(b: seq<byte>, n: nat)
    requires n <= |b| && AfterHeader(b[..n]).position == AtPayload
    ensures AfterHeader(b) == AfterHeader(b[..n])
  {
    if AfterHeader(b[..n]).masked {
      var e := ExtraLen(b[1] % 128);
      assert b[..n][2 + e..6 + e] == b[2 + e..6 + e];
    }
  }

  /** However much of the header was there before, the parse goes on as from the start. */
  lemma ResumedHeader(b: seq<byte>, n: nat)
    requires n < |b|
    ensures Resumed(AfterHeader(b[..n]), b) == AfterAll(b)
  {
    hide AfterHeader, AfterPayload;
    HeaderStuck(b[..n]);
    if AfterHeader(b[..n]).position == AtPayload {
      HeaderDone(b, n);
    } else {
      HeaderOpen(b[..n]);
    }
  }

  lemma HeaderOpen(b: seq<byte>)
    ensures InHeader(AfterHeader(b)) || AfterHeader(b).position == AtPayload
  {
  }

  lemma ReadyAfter(s: State, b: seq<byte>, more: seq<byte>)
    requires Ready(s, b)
    ensures Ready(Resumed(s, b), b + more)
  {
    hide AfterHeader;
    var t := Resumed(s, b);
    HeaderStuck(b);
    if InHeader(t) {
      assert (b + more)[..t.resolved] == b[..t.resolved];
    }
  }

  /** A header that is not complete yet is known by the bytes already resolved. */
  lemma HeaderStuck(b: seq<byte>)
    ensures var h := AfterHeader(b);
            h.resolved <= |b| && h.position != AtFirstByte && (InHeader(h) ==> h == AfterHeader(b[..h.resolved]))
  {
  }

  lemma HeaderResumes(s: State, b: seq<byte>)
    requires Ready(s, b) && InHeader(s)
    ensures Resumed(s, b) == AfterAll(b)
  {
    if |b| == s.resolved {
      assert b[..s.resolved] == b;
    }
  }

  /** What is still to come of a parse that stands in s. */
  ghost function Remaining(s: State, b: seq<byte>): State
    requires Ready(s, b)
  {
    if InHeader(s) then AfterAll(b) else if s.position == AtPayload then AfterPayload(s, b) else s
  }

  lemma ReadyFresh(s: State, b: seq<byte>)
    requires Ready(s, b) && s.position == AtNone
    ensures s == FRESH
  {
  }

  // -- The parser as the source runs it --

  class Packet {
    var handShaken: bool
    var first: byte
    var masked: bool
    var len: nat
    var key: Key
    var payload: seq<byte>

    constructor (shaken: bool)
      ensures handShaken == shaken && first == 0x81 && !masked && len == 0 && key == NO_KEY && payload == []
    {
      handShaken := shaken;
      first, masked, len, key, payload := 0x81, false, 0, NO_KEY, [];
    }
  }

  class Parser {
    var buffer: seq<byte>
    var position: Position
    var resolved: nat
    var packet: Packet

    function Now(): State
      reads this, packet
    {
      State(position, resolved, packet.first, packet.masked, packet.len, packet.key, packet.payload)
    }

    constructor (p: Packet)
      ensures buffer == [] && position == AtNone && resolved == 0 && packet == p
    {
      buffer, position, resolved, packet := [], AtNone, 0, p;
    }

    method ResolveFirstByte()
      requires |buffer| >= 1 && Now().(position := AtNone) == FRESH
      modifies this`position, this`resolved, packet`first
      ensures Ready(Now(), buffer) && position == AtPayloadLen
    {
      packet.first := buffer[0];
      resolved := resolved + 1;
      position := AtPayloadLen;
    }

    method ResolvePayloadLen() returns (ok: bool)
      requires Ready(Now(), buffer) && position == AtPayloadLen
      modifies this`position, this`resolved, packet`masked, packet`len
      ensures Ready(Now(), buffer)
      ensures ok ==> Opened() || position == AtExtendedLen || position == AtMaskingKey
      ensures !ok ==> Now() == AfterHeader(buffer) && position == old(position)
    {
      if |buffer| - resolved < 1 {
        assert buffer[..1] == buffer;
        return false;
      }
      var mask, len := buffer[1] >= 128, buffer[1] % 128;
      packet.masked := mask;
      if len == 126 || len == 127 {
        position := AtExtendedLen;
      } else {
        position := if mask then AtMaskingKey else AtPayload;
      }
      packet.len := len;
      resolved := resolved + 1;
      return true;
    }

    method ResolveExtendedLen() returns (ok: bool)
      requires Ready(Now(), buffer) && position == AtExtendedLen
      modifies this`position, this`resolved
      ensures Ready(Now(), buffer)
      ensures ok ==> Opened() || position == AtMaskingKey
      ensures !ok ==> Now() == AfterHeader(buffer) && position == old(position)
    {
      var unresolved := |buffer| - resolved;
      if packet.len == 126 {
        if unresolved < 2 { return false; }
        resolved := resolved + 2;
      } else {
        if unresolved < 8 { return false; }
        resolved := resolved + 8;
      }
      position := if packet.masked then AtMaskingKey else AtPayload;
      return true;
    }

    method ResolveMaskingKey() returns (ok: bool)
      requires Ready(Now(), buffer) && position == AtMaskingKey
      modifies this`position, this`resolved, packet`key
      ensures Ready(Now(), buffer)
      ensures if ok then Opened() else Now() == AfterHeader(buffer) && position == old(position)
    {
      if |buffer| - resolved < 4 {
        return false;
      }
      packet.key := buffer[resolved..resolved + 4];
      resolved := resolved + 4;
      position := AtPayload;
      return true;
    }

    /** The header is complete and nothing of the payload has been read. */
    predicate Opened()
      reads this, packet
    {
      position == AtPayload && Now() == AfterHeader(buffer)
    }

    /** The loop of `_ResolvePayload` over the bytes not read yet. */
    method AppendPayload()
      requires resolved <= |buffer|
      modifies packet`payload
      ensures var piece := buffer[resolved..];
              packet.payload == old(packet.payload) + if packet.masked then Masked(piece, packet.key) else piece
    {
      hide Xor, Masked;
      ghost var before, piece := packet.payload, buffer[resolved..];
      ghost var decoded := if packet.masked then Masked(piece, packet.key) else piece;
      var i := 0;
      while i < |buffer| - resolved
        invariant 0 <= i <= |piece|
        invariant packet.payload == before + decoded[..i]
      {
        var raw := buffer[resolved + i];
        var plain := if packet.masked then Xor(raw, packet.key[i % 4]) else raw;
        assert decoded[..i + 1] == decoded[..i] + [plain];
        packet.payload := packet.payload + [plain];
        i := i + 1;
      }
      assert decoded[..i] == decoded;
    }

    method ResolvePayload() returns (ok: bool)
      requires resolved <= |buffer| && position == AtPayload
      modifies this`position, this`resolved, packet`payload
      ensures Now() == AfterPayload(old(Now()), buffer)
      ensures ok == (position == AtEnd)
    {
      hide Masked;
      var unresolved := |buffer| - resolved;
      if unresolved == 0 {
        return false;
      }
      AppendPayload();
      resolved := resolved + unresolved;
      if |packet.payload| == packet.len {
        position := AtEnd;
        return true;
      } else if |packet.payload| > packet.len {
        position := AtError;
      }
      return false;
    }

    /** The assertion at the head of `DoParse` is the first requirement. */
    method DoParse() returns (rc: int)
      requires packet.handShaken
      requires Ready(Now(), buffer)
      modifies this`position, this`resolved, packet
      ensures Now() == Resumed(old(Now()), buffer)
      ensures packet.handShaken == old(packet.handShaken)
      ensures rc == if position == AtError && old(resolved) < |buffer| then -1 else 0
    {
      hide AfterHeader, AfterPayload;
      if |buffer| - resolved <= 0 {
        return 0;
      }
      ghost var goal := Resumed(Now(), buffer);
      if InHeader(Now()) { HeaderResumes(Now(), buffer); }
      HeaderStuck(buffer);
      while true
        invariant Ready(Now(), buffer)
        invariant packet.handShaken == old(packet.handShaken)
        invariant goal == Remaining(Now(), buffer)
        decreases match position
          case AtNone => 7 case AtFirstByte => 6 case AtPayloadLen => 5 case AtExtendedLen => 4
          case AtMaskingKey => 3 case AtPayload => 2 case AtEnd => 1 case AtError => 0
      {
        var success := false;
        if position == AtNone {
          ReadyFresh(Now(), buffer);
          resolved := 0;
          position := AtFirstByte;
          ResolveFirstByte();
          success := true;
        } else if position == AtPayloadLen {
          success := ResolvePayloadLen();
        } else if position == AtExtendedLen {
          success := ResolveExtendedLen();
        } else if position == AtMaskingKey {
          success := ResolveMaskingKey();
        } else if position == AtPayload {
          success := ResolvePayload();
        }
        if position == AtEnd {
          return 0;
        }
        if position == AtError {
          return -1;
        }
        if !success {
          return 0;
        }
      }
    }

    method Reset()
      modifies this`buffer, this`position, this`resolved
      ensures buffer == [] && position == AtNone && resolved == 0
    {
      position, resolved, buffer := AtNone, 0, [];
    }
  }
}
