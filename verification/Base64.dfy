/**
 `utils/base64.cc`: a streaming encoder and decoder against the 24-bit groups of section 4
 of RFC 4648. Shifts and masks of unsigned bytes are written as division and remainder.
 */
module Base64 {
  import opened Octets

  type sextet = x: int | 0 <= x < 64

  const PADDING := '='

  /** `encode_table`: the alphabet of RFC 4648, table 1, by its runs of consecutive characters. */
  function EncodeSymbol(v: sextet): (c: char)
    ensures c != PADDING && c != '\0'
    ensures DecodeSymbol(c) == v
  {
    if v < 26 then (v + 65) as char
    else if v < 52 then (v + 71) as char
    else if v < 62 then (v - 4) as char
    else if v == 62 then '+'
    else '/'
  }

  /** `decode_table`, by runs, with 255 for every character outside the alphabet. */
  function DecodeSymbol(c: char): (v: int)
    ensures 0 <= v < 64 || v == 255
  {
    if 'A' <= c <= 'Z' then c as int - 65
    else if 'a' <= c <= 'z' then c as int - 71
    else if '0' <= c <= '9' then c as int + 4
    else if c == '+' then 62
    else if c == '/' then 63
    else 255
  }

  const UPPER: string := "ABCDEFGHIJKLMNOPQRSTUVWXYZ"
  const LOWER: string := "abcdefghijklmnopqrstuvwxyz"
  const DIGITS: string := "0123456789"

  /** Table 1 of RFC 4648. */
  const ALPHABET: string := UPPER + LOWER + DIGITS + "+/"

  lemma UpperRun(v: nat)
    requires v < 26
    ensures EncodeSymbol(v) == UPPER[v]
  {
    if v < 13 {
      if v < 6 { assert v in {0, 1, 2, 3, 4, 5}; } else { assert v in {6, 7, 8, 9, 10, 11, 12}; }
    } else {
      if v < 20 { assert v in {13, 14, 15, 16, 17, 18, 19}; } else { assert v in {20, 21, 22, 23, 24, 25}; }
    }
  }

  lemma LowerRun(v: nat)
    requires v < 26
    ensures EncodeSymbol(v + 26) == LOWER[v]
  {
    if v < 13 {
      if v < 6 { assert v in {0, 1, 2, 3, 4, 5}; } else { assert v in {6, 7, 8, 9, 10, 11, 12}; }
    } else {
      if v < 20 { assert v in {13, 14, 15, 16, 17, 18, 19}; } else { assert v in {20, 21, 22, 23, 24, 25}; }
    }
  }

  lemma DigitRun(v: nat)
    requires v < 10
    ensures EncodeSymbol(v + 52) == DIGITS[v]
  {
    if v < 5 { assert v in {0, 1, 2, 3, 4}; } else { assert v in {5, 6, 7, 8, 9}; }
  }

  /** The encoder's table is the standard's. */
  lemma EncodeTable(v: sextet)
    ensures |ALPHABET| == 64 && EncodeSymbol(v) == ALPHABET[v]
  {
    if v < 26 {
      UpperRun(v);
    } else if v < 52 {
      LowerRun(v - 26);
    } else if v < 62 {
      DigitRun(v - 52);
    }
  }

  /** The decoder's table is its inverse, with 255 exactly for the characters outside the alphabet. */
  lemma DecodeTable(c: char)
    ensures DecodeSymbol(c) == 255 <==> c !in ALPHABET
    ensures DecodeSymbol(c) != 255 ==> DecodeSymbol(c) < |ALPHABET| && ALPHABET[DecodeSymbol(c)] == c
  {
    EncodeTable(0);
    if DecodeSymbol(c) != 255 {
      EncodeTable(DecodeSymbol(c));
    } else if c in ALPHABET {
      var i :| 0 <= i < |ALPHABET| && ALPHABET[i] == c;
      EncodeTable(i);
      assert false;
    }
  }

  // -- The standard's groups --

  /** Three bytes as one 24-bit number, the first byte most significant. */
  function Group(a: byte, b: byte, c: byte): (g: nat)
    ensures g < 0x100_0000
  {
    0x1_0000 * a + 0x100 * b + c
  }

  /** The four sextets of a 24-bit number, most significant first. */
  function Sextets(g: nat): (r: seq<sextet>)
    requires g < 0x100_0000
    ensures |r| == 4
  {
    [g / 0x4_0000, g / 0x1000 % 64, g / 64 % 64, g % 64]
  }

  function Symbols(v: seq<sextet>): (s: string)
    ensures |s| == |v|
    ensures forall i :: 0 <= i < |v| ==> s[i] == EncodeSymbol(v[i])
  {
    seq(|v|, i requires 0 <= i < |v| => EncodeSymbol(v[i]))
  }

  /** Section 4 of RFC 4648: groups of three bytes, the last one padded with zero bits. */
  function Encoded(s: seq<byte>): string
  {
    if |s| == 0 then []
    else if |s| == 1 then Symbols(Sextets(Group(s[0], 0, 0))[..2]) + [PADDING, PADDING]
    else if |s| == 2 then Symbols(Sextets(Group(s[0], s[1], 0))[..3]) + [PADDING]
    else Symbols(Sextets(Group(s[0], s[1], s[2]))) + Encoded(s[3..])
  }

  /** Section 10 of RFC 4648: "f", "fo" and "foo". */
  lemma TestVectors()
    ensures Encoded([0x66]) == "Zg==" && Encoded([0x66, 0x6f]) == "Zm8=" && Encoded([0x66, 0x6f, 0x6f]) == "Zm9v"
    ensures Encoded([]) == ""
  {
    VectorSextets();
    VectorSymbols();
    hide Sextets, Group, Symbols, EncodeSymbol;
    assert [25, 32, 0, 0][..2] == [25, 32] && [25, 38, 60, 0][..3] == [25, 38, 60];
    assert [0x66, 0x6f, 0x6f][3..] == [];
  }

  lemma VectorSextets()
    ensures Sextets(Group(0x66, 0, 0)) == [25, 32, 0, 0] && Sextets(Group(0x66, 0x6f, 0)) == [25, 38, 60, 0]
    ensures Sextets(Group(0x66, 0x6f, 0x6f)) == [25, 38, 61, 47]
  {
    assert Group(0x66, 0, 0) == 6684672 && Group(0x66, 0x6f, 0) == 6713088 && Group(0x66, 0x6f, 0x6f) == 6713199;
    hide Group;
    assert 6684672 / 0x4_0000 == 25 && 6684672 / 0x1000 == 1632 && 6684672 / 64 == 104448;
    assert 6713088 / 0x4_0000 == 25 && 6713088 / 0x1000 == 1638 && 6713088 / 64 == 104892;
    assert 6713199 / 0x4_0000 == 25 && 6713199 / 0x1000 == 1638 && 6713199 / 64 == 104893;
  }

  lemma VectorSymbols()
    ensures Symbols([25, 32]) == "Zg" && Symbols([25, 38, 60]) == "Zm8" && Symbols([25, 38, 61, 47]) == "Zm9v"
  {
    assert EncodeSymbol(25) == 'Z' && EncodeSymbol(32) == 'g' && EncodeSymbol(38) == 'm';
    assert EncodeSymbol(60) == '8' && EncodeSymbol(61) == '9' && EncodeSymbol(47) == 'v';
  }

  /** Up to four sextets as one number, six bits each, most significant first. */
  function Number(v: seq<sextet>): (g: nat)
    requires |v| <= 4
    ensures |v| == 0 ==> g == 0
    ensures |v| == 1 ==> g < 64
    ensures |v| == 2 ==> g < 0x1000
    ensures |v| == 3 ==> g < 0x4_0000
    ensures |v| == 4 ==> g < 0x100_0000
  {
    if |v| == 0 then 0 else 64 * Number(v[..|v| - 1]) + v[|v| - 1]
  }

  /** The whole bytes in a string of sextets; left-over low bits are dropped. */
  function Bytes(v: seq<sextet>): (r: seq<byte>)
    ensures |r| == |v| * 6 / 8
  {
    if |v| < 2 then []
    else if |v| == 2 then [Number(v) / 16]
    else if |v| == 3 then [Number(v) / 0x400, Number(v) / 4 % 256]
    else
      var g := Number(v[..4]);
      [g / 0x1_0000, g / 0x100 % 256, g % 256] + Bytes(v[4..])
  }

  // -- The encoder --

  /** The sextets as the encoder picks them out of one byte and the byte before it. */
  function First(a: byte): sextet { a / 4 % 64 }
  function Second(a: byte, b: byte): sextet { a % 4 * 16 + b / 16 % 16 }
  function Third(b: byte, c: byte): sextet { b % 16 * 4 + c / 64 % 4 }
  function Fourth(c: byte): sextet { c % 64 }

  lemma GroupFirst(a: byte, b: byte, c: byte)
    ensures Group(a, b, c) / 0x4_0000 == First(a)
  {
  }

  lemma Remainder64(q: int, r: int)
    requires 0 <= r < 64
    ensures (64 * q + r) % 64 == r
  {
  }

  lemma Remainder256(q: int, r: int)
    requires 0 <= r < 256
    ensures (256 * q + r) % 256 == r
  {
  }

  lemma GroupSecond(a: byte, b: byte, c: byte)
    ensures Group(a, b, c) / 0x1000 % 64 == Second(a, b)
  {
    assert Group(a, b, c) / 0x1000 == 16 * a + b / 16 == 64 * (a / 4) + Second(a, b);
    Remainder64(a / 4, Second(a, b));
  }

  lemma GroupThird(a: byte, b: byte, c: byte)
    ensures Group(a, b, c) / 64 % 64 == Third(b, c)
  {
    assert Group(a, b, c) / 64 == 1024 * a + 4 * b + c / 64 == 64 * (16 * a + b / 16) + Third(b, c);
    Remainder64(16 * a + b / 16, Third(b, c));
  }

  lemma GroupFourth(a: byte, b: byte, c: byte)
    ensures Group(a, b, c) % 64 == Fourth(c)
  {
    assert Group(a, b, c) == 64 * (1024 * a + 4 * b + c / 64) + Fourth(c);
    Remainder64(1024 * a + 4 * b + c / 64, Fourth(c));
  }

  lemma GroupSextets(a: byte, b: byte, c: byte)
    ensures Sextets(Group(a, b, c)) == [First(a), Second(a, b), Third(b, c), Fourth(c)]
  {
    hide Group, First, Second, Third, Fourth;
    GroupFirst(a, b, c);
    GroupSecond(a, b, c);
    GroupThird(a, b, c);
    GroupFourth(a, b, c);
  }

  /** A group's symbols, from the bits the encoder picks out of each byte. */
  function Quad(a: byte, b: byte, c: byte): string {
    [EncodeSymbol(First(a)), EncodeSymbol(Second(a, b)), EncodeSymbol(Third(b, c)), EncodeSymbol(Fourth(c))]
  }

  lemma QuadIsGroup(a: byte, b: byte, c: byte)
    ensures Symbols(Sextets(Group(a, b, c))) == Quad(a, b, c)
    ensures Symbols(Sextets(Group(a, b, c))[..2]) == Quad(a, b, c)[..2]
    ensures Symbols(Sextets(Group(a, b, c))[..3]) == Quad(a, b, c)[..3]
  {
    hide EncodeSymbol, Group, Sextets, First, Second, Third, Fourth;
    GroupSextets(a, b, c);
  }

  lemma EncodedByQuads(s: seq<byte>)
    ensures |s| == 1 ==> Encoded(s) == Quad(s[0], 0, 0)[..2] + [PADDING, PADDING]
    ensures |s| == 2 ==> Encoded(s) == Quad(s[0], s[1], 0)[..3] + [PADDING]
    ensures |s| > 2 ==> Encoded(s) == Quad(s[0], s[1], s[2]) + Encoded(s[3..])
  {
    hide Symbols, Group, Sextets, Quad;
    if |s| > 0 {
      QuadIsGroup(s[0], if |s| > 1 then s[1] else 0, if |s| > 2 then s[2] else 0);
    }
  }

  /** The symbols written for the one or two bytes of a group still being read. */
  function Started(s: seq<byte>): string
    requires |s| < 3
  {
    if |s| == 0 then []
    else if |s| == 1 then Quad(s[0], 0, 0)[..1]
    else Quad(s[0], s[1], 0)[..2]
  }

  lemma {:induction false} EncodedConcat(p: seq<byte>, q: seq<byte>)
    requires |p| % 3 == 0
    ensures Encoded(p + q) == Encoded(p) + Encoded(q)
  {
    hide Quad;
    if |p| == 0 {
      assert p + q == q;
    } else {
      assert (p + q)[3..] == p[3..] + q;
      EncodedConcat(p[3..], q);
      EncodedByQuads(p);
      EncodedByQuads(p + q);
    }
  }

  /** The encoder after reading head + open: full groups encoded, the open group's symbols behind. */
  ghost predicate EncoderInvariant(head: seq<byte>, open: seq<byte>, last: byte, out: string) {
    && |head| % 3 == 0 && |open| < 3
    && (|open| > 0 ==> last == open[|open| - 1])
    && out == Encoded(head) + Started(open)
  }

  /** What the encoder writes for byte b when the byte before it was `last`. */
  function Written(where: int, last: byte, b: byte): string {
    if where == 0 then [EncodeSymbol(First(b))]
    else if where == 1 then [EncodeSymbol(Second(last, b))]
    else [EncodeSymbol(Third(last, b)), EncodeSymbol(Fourth(b))]
  }

  lemma GroupGrows(open: seq<byte>, last: byte, b: byte)
    requires |open| < 3 && (|open| > 0 ==> last == open[|open| - 1])
    ensures |open| < 2 ==> Started(open + [b]) == Started(open) + Written(|open|, last, b)
    ensures |open| == 2 ==> Encoded(open + [b]) == Started(open) + Written(|open|, last, b)
  {
    hide EncodeSymbol, Encoded, First, Second, Third, Fourth;
    if |open| == 2 {
      EncodedByQuads(open + [b]);
      assert (open + [b])[3..] == [];
      EncodedNothing();
    }
  }

  lemma EncodedNothing()
    ensures Encoded([]) == []
  {
  }

  /** What the encoder appends for one more byte keeps the invariant. */
  lemma EncoderStep(head: seq<byte>, open: seq<byte>, last: byte, b: byte, out: string)
    requires EncoderInvariant(head, open, last, out)
    ensures |open| < 2 ==> EncoderInvariant(head, open + [b], b, out + Written(|open|, last, b))
    ensures |open| == 2 ==> EncoderInvariant(head + (open + [b]), [], b, out + Written(|open|, last, b))
  {
    hide Encoded, Started, Written;
    GroupGrows(open, last, b);
    if |open| == 2 {
      EncodedConcat(head, open + [b]);
      NothingStarted([]);
    }
  }

  lemma NothingStarted(s: seq<byte>)
    requires s == []
    ensures Started(s) == []
  {
  }

  /** The padding written after the loop. */
  function Closing(where: int, last: byte): string {
    if where == 1 then [EncodeSymbol(Second(last, 0)), PADDING, PADDING]
    else if where == 2 then [EncodeSymbol(Third(last, 0)), PADDING]
    else []
  }

  lemma GroupCloses(open: seq<byte>, last: byte)
    requires |open| < 3 && (|open| > 0 ==> last == open[|open| - 1])
    ensures Encoded(open) == Started(open) + Closing(|open|, last)
  {
    hide EncodeSymbol, Encoded, First, Second, Third, Fourth;
    EncodedByQuads(open);
    EncodedNothing();
  }

  /** The closing symbols complete the standard's last group. */
  lemma EncoderFinish(head: seq<byte>, open: seq<byte>, last: byte, out: string)
    requires EncoderInvariant(head, open, last, out)
    ensures Encoded(head + open) == out + Closing(|open|, last)
  {
    hide Encoded, Started, Closing;
    EncodedConcat(head, open);
    GroupCloses(open, last);
  }

  /** The loop of `Encode` over the input bytes. */
  method EncodeLoop(input: seq<byte>, res: array<char>)
    returns (curr: nat, where: nat, last: byte, ghost g: nat, ghost head: seq<byte>, ghost open: seq<byte>)
    requires 3 * res.Length >= 4 * |input|
    modifies res
    ensures head + open == input && where == |open| < 3
    ensures |head| == 3 * g && curr == 4 * g + where && curr <= res.Length
    ensures EncoderInvariant(head, open, last, res[..curr])
    ensures forall k :: curr <= k < res.Length ==> res[k] == old(res[k])
  {
    hide EncodeSymbol, EncoderInvariant, First, Second, Third, Fourth, Encoded;
    curr, where, last, g, head, open := 0, 0, 0, 0, [], [];
    EncoderStart(last);
    assert res[..0] == [];
    var i := 0;
    while i < |input|
      invariant 0 <= i <= |input| && where == |open| < 3
      invariant head + open == input[..i]
      invariant |head| == 3 * g && curr == 4 * g + where && curr <= res.Length
      invariant EncoderInvariant(head, open, last, res[..curr])
      invariant forall k :: curr <= k < res.Length ==> res[k] == old(res[k])
    {
      var b := input[i];
      ghost var before, w, k := res[..curr], where, curr;
      EncoderStep(head, open, last, b, before);
      open := open + [b];
      if where == 0 {
        res[curr] := EncodeSymbol(First(b));
        curr := curr + 1;
        where := 1;
      } else if where == 1 {
        res[curr] := EncodeSymbol(Second(last, b));
        curr := curr + 1;
        where := 2;
      } else {
        res[curr] := EncodeSymbol(Third(last, b));
        res[curr + 1] := EncodeSymbol(Fourth(b));
        curr := curr + 2;
        where := 0;
        g, head, open := g + 1, head + open, [];
      }
      assert res[..curr] == before + Written(w, last, b);
      assert input[..i + 1] == input[..i] + [b];
      last := b;
      i := i + 1;
    }
    assert input[..|input|] == input;
  }

  /** `Encode`: the padded text, its length, and a terminating NUL. */
  method Encode(input: seq<byte>, res: array<char>) returns (n: nat)
    requires res.Length > (|input| + 2) / 3 * 4
    modifies res
    ensures n == (|input| + 2) / 3 * 4
    ensures res[..n] == Encoded(input) && res[n] == '\0'
    ensures forall k :: n < k < res.Length ==> res[k] == old(res[k])
  {
    hide EncodeSymbol, EncoderInvariant, First, Second, Third, Fourth, Encoded;
    var curr, where, last, g, head, open := EncodeLoop(input, res);
    ghost var body := res[..curr];
    EncoderFinish(head, open, last, body);
    if where == 1 {
      res[curr] := EncodeSymbol(Second(last, 0));
      res[curr + 1] := PADDING;
      res[curr + 2] := PADDING;
      curr := curr + 3;
    } else if where == 2 {
      res[curr] := EncodeSymbol(Third(last, 0));
      res[curr + 1] := PADDING;
      curr := curr + 2;
    }
    assert res[..curr] == body + Closing(where, last);
    res[curr] := '\0';
    n := curr;
  }

  lemma EncoderStart(last: byte)
    ensures EncoderInvariant([], [], last, [])
  {
  }

  // -- The decoder --

  /** The text before the first padding character. */
  function UpToPadding(s: string): (r: string)
    ensures r <= s && PADDING !in r
    ensures |r| < |s| ==> s[|r|] == PADDING
  {
    if s == [] || s[0] == PADDING then [] else [s[0]] + UpToPadding(s[1..])
  }

  predicate InAlphabet(s: string) {
    forall i :: 0 <= i < |s| ==> DecodeSymbol(s[i]) != 255
  }

  function Values(s: string): (v: seq<sextet>)
    requires InAlphabet(s)
    ensures |v| == |s|
    ensures forall i :: 0 <= i < |s| ==> v[i] == DecodeSymbol(s[i])
  {
    seq(|s|, i requires 0 <= i < |s| => DecodeSymbol(s[i]))
  }

  datatype Outcome = Decoded(n: nat) | IllegalLength | IllegalCharacter

  /** The byte the decoder writes on reading sextet x after sextet `last`. */
  function Joined(where: nat, last: sextet, x: sextet): byte
    requires 1 <= where <= 3
  {
    if where == 1 then last * 4 % 256 + x / 16 % 4
    else if where == 2 then last % 16 * 16 + x / 4 % 16
    else last % 4 * 64 + x % 64
  }

  lemma {:induction false} BytesConcat(p: seq<sextet>, q: seq<sextet>)
    requires |p| % 4 == 0
    ensures Bytes(p + q) == Bytes(p) + Bytes(q)
  {
    hide Number;
    if |p| == 0 {
      assert p + q == q;
    } else {
      assert (p + q)[..4] == p[..4];
      assert (p + q)[4..] == p[4..] + q;
      BytesConcat(p[4..], q);
    }
  }

  lemma NumberOfTwo(a: sextet, b: sextet)
    ensures Number([a, b]) == 64 * a + b
  {
    assert [a, b][..1] == [a] && [a][..0] == [];
  }

  lemma NumberOfThree(a: sextet, b: sextet, c: sextet)
    ensures Number([a, b, c]) == 64 * (64 * a + b) + c
  {
    assert [a, b, c][..2] == [a, b];
    NumberOfTwo(a, b);
  }

  lemma NumberOfFour(a: sextet, b: sextet, c: sextet, d: sextet)
    ensures Number([a, b, c, d]) == 64 * (64 * (64 * a + b) + c) + d
  {
    assert [a, b, c, d][..3] == [a, b, c];
    NumberOfThree(a, b, c);
  }

  /** Byte by byte, the bits of neighbouring sextets are the digits of their number. */
  lemma HighByte(a: sextet, b: sextet, c: sextet, d: sextet)
    ensures (64 * a + b) / 16 == Joined(1, a, b)
    ensures (64 * (64 * a + b) + c) / 0x400 == Joined(1, a, b)
    ensures (64 * (64 * (64 * a + b) + c) + d) / 0x1_0000 == Joined(1, a, b)
  {
  }

  lemma MiddleByte(a: sextet, b: sextet, c: sextet)
    ensures (64 * (64 * a + b) + c) / 4 % 256 == Joined(2, b, c)
  {
    assert (64 * (64 * a + b) + c) / 4 == 1024 * a + 16 * b + c / 4 == 256 * (4 * a + b / 16) + Joined(2, b, c);
    Remainder256(4 * a + b / 16, Joined(2, b, c));
  }

  lemma DropLowSextet(n: nat, d: sextet)
    ensures (64 * n + d) / 0x100 == n / 4
  {
  }

  lemma LowByte(g: nat, c: sextet, d: sextet)
    ensures (64 * (64 * g + c) + d) % 256 == Joined(3, c, d)
  {
    assert 64 * (64 * g + c) + d == 256 * (16 * g + c / 4) + Joined(3, c, d);
    Remainder256(16 * g + c / 4, Joined(3, c, d));
  }

  lemma SecondSextet(a: sextet, b: sextet)
    ensures Bytes([a, b]) == [Joined(1, a, b)]
  {
    hide Number, Joined;
    NumberOfTwo(a, b);
    HighByte(a, b, 0, 0);
  }

  lemma ThirdSextet(a: sextet, b: sextet, c: sextet)
    ensures Bytes([a, b, c]) == [Joined(1, a, b), Joined(2, b, c)]
  {
    hide Number, Joined;
    NumberOfThree(a, b, c);
    HighByte(a, b, c, 0);
    MiddleByte(a, b, c);
  }

  lemma FourthSextet(a: sextet, b: sextet, c: sextet, d: sextet)
    ensures Bytes([a, b, c, d]) == [Joined(1, a, b), Joined(2, b, c), Joined(3, c, d)]
  {
    hide Number, Joined;
    assert [a, b, c, d][..4] == [a, b, c, d] && [a, b, c, d][4..] == [];
    NumberOfFour(a, b, c, d);
    HighByte(a, b, c, d);
    DropLowSextet(64 * (64 * a + b) + c, d);
    MiddleByte(a, b, c);
    LowByte(64 * a + b, c, d);
  }

  /** The decoder after reading head + open: every whole byte of the sextets read is written. */
  ghost predicate DecoderInvariant(head: seq<sextet>, open: seq<sextet>, last: int, out: seq<byte>) {
    && |head| % 4 == 0 && |open| < 4
    && (|open| > 0 ==> last == open[|open| - 1])
    && out == Bytes(head) + Bytes(open)
  }

  lemma {:induction false} OpenGrows(open: seq<sextet>, last: int, x: sextet)
    requires |open| < 4 && (|open| > 0 ==> last == open[|open| - 1])
    ensures Bytes(open + [x]) == Bytes(open) + (if |open| == 0 then [] else [Joined(|open|, last, x)])
  {
    hide *;
    if |open| == 0 {
      assert open + [x] == [x];
      FewBytes(open);
      FewBytes([x]);
    } else if |open| == 1 {
      assert open + [x] == [open[0], x];
      FewBytes(open);
      SecondSextet(open[0], x);
    } else if |open| == 2 {
      assert open == [open[0], open[1]] && open + [x] == [open[0], open[1], x];
      SecondSextet(open[0], open[1]);
      ThirdSextet(open[0], open[1], x);
    } else {
      assert open == [open[0], open[1], open[2]] && open + [x] == [open[0], open[1], open[2], x];
      ThirdSextet(open[0], open[1], open[2]);
      FourthSextet(open[0], open[1], open[2], x);
    }
  }

  lemma FewBytes(v: seq<sextet>)
    requires |v| < 2
    ensures Bytes(v) == []
  {
  }

  /** What the decoder appends for one more sextet keeps the invariant. */
  lemma DecoderStep(head: seq<sextet>, open: seq<sextet>, last: int, x: sextet, out: seq<byte>)
    requires DecoderInvariant(head, open, last, out)
    ensures |open| == 0 ==> DecoderInvariant(head, open + [x], x, out)
    ensures 0 < |open| < 3 ==> DecoderInvariant(head, open + [x], x, out + [Joined(|open|, last, x)])
    ensures |open| == 3 ==> DecoderInvariant(head + (open + [x]), [], x, out + [Joined(|open|, last, x)])
  {
    hide Bytes, Joined;
    OpenGrows(open, last, x);
    if |open| == 3 {
      BytesConcat(head, open + [x]);
      FewBytes([]);
    }
  }

  lemma {:induction false} FirstPadding(s: string, i: nat)
    requires i <= |s| && PADDING !in s[..i]
    ensures s[..i] <= UpToPadding(s)
    ensures i == |s| || s[i] == PADDING ==> UpToPadding(s) == s[..i]
  {
    if i > 0 {
      assert s[0] == s[..i][0];
      assert s[1..][..i - 1] == s[..i][1..];
      FirstPadding(s[1..], i - 1);
      assert s[..i] == [s[0]] + s[1..][..i - 1];
    }
  }

  function DecodeOutcome(input: string): Outcome {
    if |input| % 4 != 0 then IllegalLength
    else if !InAlphabet(UpToPadding(input)) then IllegalCharacter
    else Decoded(|UpToPadding(input)| * 6 / 8)
  }

  /** The loop of `Decode`: stops at the padding, gives up on a foreign symbol. */
  method DecodeLoop(input: string, res: array<byte>) returns (ok: bool, curr: nat)
    requires |input| % 4 == 0 && res.Length > |input| / 4 * 3
    modifies res
    ensures ok == InAlphabet(UpToPadding(input)) && curr < res.Length
    ensures ok ==> res[..curr] == Bytes(Values(UpToPadding(input)))
  {
    hide Bytes, Joined, DecoderInvariant, DecodeSymbol;
    ok, curr := true, 0;
    var last := 255;
    var where := 0;
    ghost var g, head: seq<sextet>, open: seq<sextet> := 0, [], [];
    DecoderStart(last);
    assert res[..0] == [] && input[..0] == [];
    var i := 0;
    while i < |input|
      invariant 0 <= i <= |input| && |head| == 4 * g && where == |open| < 4
      invariant PADDING !in input[..i] && InAlphabet(input[..i])
      invariant Values(input[..i]) == head + open
      invariant curr == 3 * g + (if where == 0 then 0 else where - 1)
      invariant where > 0 ==> 0 <= last < 64
      invariant DecoderInvariant(head, open, last, res[..curr])
    {
      if input[i] == PADDING {
        break;
      }
      var x := DecodeSymbol(input[i]);
      assert input[..i + 1] == input[..i] + [input[i]];
      if x == 255 {
        FirstPadding(input, i + 1);
        assert input[i] == UpToPadding(input)[i];
        return false, curr;
      }
      assert Values(input[..i + 1]) == Values(input[..i]) + [x];
      ghost var before := res[..curr];
      DecoderStep(head, open, last, x, before);
      open := open + [x];
      if where == 0 {
        where := 1;
      } else {
        res[curr] := Joined(where, last, x);
        assert res[..curr + 1] == before + [res[curr]];
        curr := curr + 1;
        if where < 3 {
          where := where + 1;
        } else {
          where := 0;
          g, head, open := g + 1, head + open, [];
        }
      }
      last := x;
      i := i + 1;
    }
    FirstPadding(input, i);
    DecoderEnd(head, open, last, res[..curr]);
  }

  /** `Decode`: errors exactly on a bad length or a foreign symbol before the padding. */
  method Decode(input: string, res: array<byte>) returns (o: Outcome)
    requires res.Length > |input| / 4 * 3
    requires forall c :: c in input ==> c < 128 as char
    modifies res
    ensures o == DecodeOutcome(input)
    ensures o.Decoded? ==> o.n < res.Length && res[..o.n] == Bytes(Values(UpToPadding(input))) && res[o.n] == 0
  {
    if |input| % 4 != 0 {
      return IllegalLength;
    }
    var ok, curr := DecodeLoop(input, res);
    if !ok {
      return IllegalCharacter;
    }
    res[curr] := 0;
    return Decoded(curr);
  }

  /** A character outside the alphabet, with no padding up to it. */
  predicate Foreign(input: string, i: nat)
    requires i < |input|
  {
    '=' !in input[..i + 1] && input[i] !in ALPHABET
  }

  /** The outcomes, by what a caller can see in the text. */
  lemma DecodeJudged(input: string)
    ensures DecodeOutcome(input) == IllegalLength <==> |input| % 4 != 0
    ensures DecodeOutcome(input) == IllegalCharacter
       <==> |input| % 4 == 0 && exists i :: 0 <= i < |input| && Foreign(input, i)
  {
    hide DecodeSymbol;
    var r := UpToPadding(input);
    forall i | 0 <= i < |input|
      ensures Foreign(input, i) <==> i < |r| && DecodeSymbol(r[i]) == 255
    {
      if i < |r| {
        assert input[..i + 1] == r[..i + 1];
        DecodeTable(r[i]);
      } else {
        assert input[..i + 1][|r|] == '=';
      }
    }
  }

  /** The sextets in a text, when every symbol before the padding is in the alphabet. */
  ghost predicate Reads(text: string, v: seq<sextet>) {
    InAlphabet(UpToPadding(text)) && Values(UpToPadding(text)) == v
  }

  /** Every text the encoder writes decodes to the bytes it was written from. */
  lemma {:induction false} DecodeEncoded(s: seq<byte>) returns (v: seq<sextet>)
    ensures |Encoded(s)| == (|s| + 2) / 3 * 4
    ensures Reads(Encoded(s), v) && Bytes(v) == s
  {
    hide EncodeSymbol, DecodeSymbol, Bytes, Group, Sextets, Reads, Symbols;
    if |s| == 0 {
      v := [];
      NothingRead(Encoded(s));
      FewBytes(v);
    } else if |s| == 1 {
      v := Sextets(Group(s[0], 0, 0))[..2];
      PaddedSymbols(v, [PADDING, PADDING]);
      GroupRoundTrip(s[0], 0, 0);
    } else if |s| == 2 {
      v := Sextets(Group(s[0], s[1], 0))[..3];
      PaddedSymbols(v, [PADDING]);
      GroupRoundTrip(s[0], s[1], 0);
    } else {
      var rest := DecodeEncoded(s[3..]);
      var group := Sextets(Group(s[0], s[1], s[2]));
      SymbolsThen(group, Encoded(s[3..]), rest);
      v := group + rest;
      BytesConcat(group, rest);
      GroupRoundTrip(s[0], s[1], s[2]);
      assert s == [s[0], s[1], s[2]] + s[3..];
    }
  }

  /** `Decode` of what `Encode` writes succeeds with the original bytes and length. */
  lemma RoundTrip(s: seq<byte>)
    ensures DecodeOutcome(Encoded(s)) == Decoded(|s|)
    ensures InAlphabet(UpToPadding(Encoded(s))) && Bytes(Values(UpToPadding(Encoded(s)))) == s
  {
    hide Encoded, Bytes, InAlphabet, Values, UpToPadding;
    var v := DecodeEncoded(s);
    MultipleOfFour((|s| + 2) / 3);
  }

  lemma MultipleOfFour(k: nat)
    ensures k * 4 % 4 == 0
  {
  }

  lemma NothingRead(text: string)
    requires text == [] || text[0] == PADDING
    ensures Reads(text, [])
  {
  }

  lemma SymbolsThen(v: seq<sextet>, rest: string, w: seq<sextet>)
    requires Reads(rest, w)
    ensures Reads(Symbols(v) + rest, v + w)
  {
    hide EncodeSymbol, DecodeSymbol;
    NoPaddingIn(Symbols(v), rest);
    var t := UpToPadding(Symbols(v) + rest);
    forall i | 0 <= i < |t|
      ensures DecodeSymbol(t[i]) == (v + w)[i]
    {
      if i < |v| {
        assert t[i] == Symbols(v)[i] == EncodeSymbol(v[i]);
      } else {
        assert t[i] == UpToPadding(rest)[i - |v|];
      }
    }
  }

  lemma {:induction false} NoPaddingIn(p: string, rest: string)
    requires PADDING !in p
    ensures UpToPadding(p + rest) == p + UpToPadding(rest)
  {
    if p == [] {
      assert p + rest == rest;
    } else {
      assert (p + rest)[1..] == p[1..] + rest;
      NoPaddingIn(p[1..], rest);
    }
  }

  lemma PaddedSymbols(v: seq<sextet>, rest: string)
    requires |rest| > 0 && rest[0] == PADDING
    ensures Reads(Symbols(v) + rest, v)
  {
    NothingRead(rest);
    SymbolsThen(v, rest, []);
    assert v + [] == v;
  }

  /** The sextets of a group, whole or cut short where the padding starts, decoded. */
  lemma GroupRoundTrip(a: byte, b: byte, c: byte)
    ensures Bytes(Sextets(Group(a, b, c))) == [a, b, c]
    ensures Bytes(Sextets(Group(a, b, c))[..3]) == [a, b]
    ensures Bytes(Sextets(Group(a, b, c))[..2]) == [a]
  {
    hide Group, Sextets, Bytes, First, Second, Third, Fourth, Joined;
    GroupSextets(a, b, c);
    var v := [First(a), Second(a, b), Third(b, c), Fourth(c)];
    assert v[..3] == [First(a), Second(a, b), Third(b, c)] && v[..2] == [First(a), Second(a, b)];
    FourthSextet(First(a), Second(a, b), Third(b, c), Fourth(c));
    ThirdSextet(First(a), Second(a, b), Third(b, c));
    SecondSextet(First(a), Second(a, b));
    FirstJoined(a, b);
    SecondJoined(a, b, c);
    ThirdJoined(b, c);
  }

  lemma FirstJoined(a: byte, b: byte)
    ensures Joined(1, First(a), Second(a, b)) == a
  {
    assert Second(a, b) / 16 == a % 4;
  }

  lemma SecondJoined(a: byte, b: byte, c: byte)
    ensures Joined(2, Second(a, b), Third(b, c)) == b
  {
    assert Second(a, b) % 16 == b / 16;
    assert Third(b, c) / 4 == b % 16;
  }

  lemma ThirdJoined(b: byte, c: byte)
    ensures Joined(3, Third(b, c), Fourth(c)) == c
  {
    assert Third(b, c) % 4 == c / 64;
  }

  lemma DecoderStart(last: int)
    ensures DecoderInvariant([], [], last, [])
  {
  }

  lemma DecoderEnd(head: seq<sextet>, open: seq<sextet>, last: int, out: seq<byte>)
    requires DecoderInvariant(head, open, last, out)
    ensures out == Bytes(head + open)
  {
    BytesConcat(head, open);
  }
}
