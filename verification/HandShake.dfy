/** The opening handshake of `longlink/websocketpacket.cc`, section 4.2.2 of RFC 6455. */
module HandShake {
  import opened Octets
  import opened StrUtil
  import opened HttpMessage
  import HttpRoundTrip
  import Base64
  import Sha1
  import Sha1Spec

  const GUID: string := "258EAFA5-E914-47DA-95CA-C5AB0DC85B11"
  const SEC_KEY: string := "Sec-WebSocket-Key"
  const SEC_ACCEPT: string := "Sec-WebSocket-Accept"
  const UPGRADE: string := "Upgrade"
  const WEBSOCKET: string := "websocket"

  /** The bytes of a text, each in the low eight bits of its character. */
  function Octet(c: char): bv8 { (c as int % 256) as bv8 }

  function OctetsOf(s: string): (r: seq<bv8>)
    ensures |r| == |s|
  {
    seq(|s|, i requires 0 <= i < |s| => Octet(s[i]))
  }

  function Number(b: bv8): byte { b as int }

  /** A character that is a byte is kept. */
  lemma OctetKept(c: char)
    requires c as int < 256
    ensures Number(Octet(c)) == c as int
  {
  }

  lemma OctetsKept(s: string, i: nat)
    requires i < |s| && s[i] as int < 256
    ensures NumbersOf(OctetsOf(s))[i] == s[i] as int
  {
    hide Octet, Number;
    OctetKept(s[i]);
  }

  function NumbersOf(s: seq<bv8>): (r: seq<byte>)
    ensures |r| == |s|
  {
    seq(|s|, i requires 0 <= i < |s| => Number(s[i]))
  }

  /** The accept value: the Base64 of the SHA-1 of the key followed by the GUID. */
  function Accept(key: string): string {
    Base64.Encoded(NumbersOf(Sha1Spec.Sha1(OctetsOf(key + GUID))))
  }

  lemma {:induction false} EncodedHasNoNul(s: seq<byte>)
    ensures NUL !in Base64.Encoded(s)
  {
    hide Base64.Sextets, Base64.Group, Base64.EncodeSymbol;
    if |s| > 2 {
      EncodedHasNoNul(s[3..]);
    }
  }

  /** It always has twenty-eight characters, none of them a NUL, and decodes to the digest. */
  lemma AcceptDecodes(key: string)
    ensures |Accept(key)| == 28 && NUL !in Accept(key)
    ensures Base64.DecodeOutcome(Accept(key)) == Base64.Decoded(20)
    ensures Base64.InAlphabet(Base64.UpToPadding(Accept(key)))
    ensures Base64.Bytes(Base64.Values(Base64.UpToPadding(Accept(key))))
         == NumbersOf(Sha1Spec.Sha1(OctetsOf(key + "258EAFA5-E914-47DA-95CA-C5AB0DC85B11")))
  {
    hide Sha1Spec.Sha1, Base64.Encoded, Base64.DecodeOutcome, NumbersOf, OctetsOf, Base64.Values, Base64.Bytes;
    DigestLength(OctetsOf(key + GUID));
    var digest := NumbersOf(Sha1Spec.Sha1(OctetsOf(key + GUID)));
    EncodedHasNoNul(digest);
    var _ := Base64.DecodeEncoded(digest);
    Base64.RoundTrip(digest);
  }

  lemma DigestLength(m: seq<bv8>)
    ensures |Sha1Spec.Sha1(m)| == 20
  {
    hide Sha1Spec.HashBlocks, Sha1Spec.Pad, Sha1Spec.WordBytes;
  }

  /** The headers of the reply. */
  function Reply(key: string): seq<Entry> {
    Insert(Insert(Insert([], SEC_ACCEPT, Accept(key)), CONNECTION, UPGRADE), UPGRADE, WEBSOCKET)
  }

  lemma ReplyMap(key: string)
    ensures Sorted(Reply(key))
    ensures ToMap(Reply(key))
         == map["Sec-WebSocket-Accept" := Accept(key), "Connection" := "Upgrade", "Upgrade" := "websocket"]
  {
    hide Accept, Insert, Less;
    var a := Insert([], SEC_ACCEPT, Accept(key));
    var b := Insert(a, CONNECTION, UPGRADE);
    InsertKeepsOrder([], SEC_ACCEPT, Accept(key));
    InsertUpdates([], SEC_ACCEPT, Accept(key));
    InsertKeepsOrder(a, CONNECTION, UPGRADE);
    InsertUpdates(a, CONNECTION, UPGRADE);
    InsertKeepsOrder(b, UPGRADE, WEBSOCKET);
    InsertUpdates(b, UPGRADE, WEBSOCKET);
  }

  /** The entries of the reply, in the order of the map. */
  lemma ReplyEntries(key: string)
    ensures Reply(key) == [(CONNECTION, UPGRADE), (SEC_ACCEPT, Accept(key)), (UPGRADE, WEBSOCKET)]
  {
    hide Accept;
    FieldOrder();
    hide Less;
    var a := Insert([], SEC_ACCEPT, Accept(key));
    assert a == [(SEC_ACCEPT, Accept(key))];
    var b := Insert(a, CONNECTION, UPGRADE);
    assert b == [(CONNECTION, UPGRADE), (SEC_ACCEPT, Accept(key))];
    assert b[1..] == a && a[1..] == [];
    assert Insert(a, UPGRADE, WEBSOCKET) == [(SEC_ACCEPT, Accept(key)), (UPGRADE, WEBSOCKET)];
  }

  lemma FieldOrder()
    ensures Less(CONNECTION, SEC_ACCEPT) && Less(SEC_ACCEPT, UPGRADE) && Less(CONNECTION, UPGRADE)
    ensures !Less(UPGRADE, SEC_ACCEPT) && !Less(UPGRADE, CONNECTION) && !Less(SEC_ACCEPT, CONNECTION)
  {
  }

  /** Inserting them into an empty map gives them back. */
  lemma InsertedAgain(key: string)
    ensures HttpRoundTrip.InsertAll([], Reply(key)) == Reply(key)
  {
    hide Accept, Reply;
    ReplyEntries(key);
    FieldOrder();
    hide Less;
    var h := Reply(key);
    var first, two := [(CONNECTION, UPGRADE)], [(CONNECTION, UPGRADE), (SEC_ACCEPT, Accept(key))];
    assert Insert([], CONNECTION, UPGRADE) == first && first[1..] == [];
    assert Insert(first, SEC_ACCEPT, Accept(key)) == two;
    assert two[1..] == [(SEC_ACCEPT, Accept(key))] && two[1..][1..] == [];
    assert Insert(two[1..], UPGRADE, WEBSOCKET) == [(SEC_ACCEPT, Accept(key)), (UPGRADE, WEBSOCKET)];
    assert Insert(two, UPGRADE, WEBSOCKET) == h;
    assert h[1..] == [h[1], h[2]] && h[1..][1..] == [h[2]] && h[1..][1..][1..] == [];
    assert HttpRoundTrip.InsertAll(h, []) == h;
    assert HttpRoundTrip.InsertAll(two, [h[2]]) == h;
    assert HttpRoundTrip.InsertAll(first, [h[1], h[2]]) == h;
  }

  /** The key string after `Digest` has run over it. */
  ghost predicate KeyAfter(now: seq<bv8>, key: string) {
    |now| == |key| + 36 && Sha1.BlocksOverwritten(now, OctetsOf(key + GUID), |now| / 64)
  }

  /** A key of less than 28 characters, as every standard key of 24 is, stays as it was. */
  lemma ShortKeyKept(now: seq<bv8>, key: string)
    requires KeyAfter(now, key) && |key| < 28
    ensures now == OctetsOf(key + GUID)
  {
  }

  /** `DoHandShake`: `sec` is what is left in the key string. */
  method DoHandShake(req: seq<Entry>) returns (ok: bool, resp: seq<Entry>, ghost sec: seq<bv8>)
    ensures ok == Get(req, "Sec-WebSocket-Key").Some?
    ensures resp == if ok then Reply(Get(req, SEC_KEY).value) else []
    ensures ok ==> KeyAfter(sec, Get(req, SEC_KEY).value)
  {
    hide Get, Insert, Base64.Encoded, Sha1Spec.Sha1, Sha1.BlocksOverwritten, OctetsOf, NumbersOf, Octet, Number;
    sec := [];
    var found := Get(req, SEC_KEY);
    if found.None? {
      return false, [], [];
    }
    var key := found.value;
    var text := OctetsOf(key + GUID);
    var msg := new bv8[|text|](i requires 0 <= i < |text| => text[i]);
    assert msg[..] == text;
    var sha1 := new bv8[21](_ => 0);
    Sha1.Digest(msg, sha1);
    sec := msg[..];
    var value := Text(sha1[..20]);
    AcceptDecodes(key);
    resp := Insert([], SEC_ACCEPT, value);
    resp := Insert(resp, CONNECTION, UPGRADE);
    resp := Insert(resp, UPGRADE, WEBSOCKET);
    ok := true;
  }

  /** The Base64 of a digest as a C string. */
  method Text(digest: seq<bv8>) returns (value: string)
    requires |digest| == 20
    ensures value == Base64.Encoded(NumbersOf(digest))
  {
    hide Base64.Encoded, NumbersOf;
    var base64 := new char[256](_ => NUL);
    var n := Base64.Encode(NumbersOf(digest), base64);
    value := CStr(base64[..]);
    EncodedHasNoNul(NumbersOf(digest));
    UpToNul(base64[..], n);
  }

  lemma UpToNul(s: string, n: nat)
    requires n < |s| && s[n] == NUL && NUL !in s[..n]
    ensures CStr(s) == s[..n]
  {
    assert CLength(s) == n;
  }
}
