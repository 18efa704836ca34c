/**
 * The wire codec of the server store operations.
 *
 * Layout (all numeric fields big-endian):
 *   [op code: 1 octet]
 *   [cache id: 4-octet length, then that many UTF-8 octets]            every kind
 *   [key: 8 octets, two's complement]                                   all but Clear
 *   [payload: 4-octet length, then that many octets]                    Append, GetAndAppend
 *   [expect chain, then update chain: each a 4-octet count, then that
 *    many payload blocks, head first]                                   ReplaceAtHead
 * Decoding dispatches on the op code and fails, without a partial result, on an
 * unknown op code, a buffer that ends inside a field, a length field past the end
 * of the buffer, a length field that is a negative Java `int`, a cache id that is
 * not UTF-8, and octets left over after the message.
 */
module ServerStoreOpCodec {
  import opened Wire
  import opened Wrappers
  import opened Payloads
  import opened ServerStoreMessages
  import Utf8

  datatype DecodeError =
    | Truncated
    | UnknownOpCode(code: byte)
    | NegativeLength(field: int)
    | LengthOverrun(length: nat, remaining: nat)
    | MalformedCacheId
    | TrailingBytes(count: nat)

  /** A decoded value with the octets that follow it. */
  type Parsed<T> = Result<(T, seq<byte>), DecodeError>

  // ---------------------------------------------------------------- encoding

  /** A length-prefixed octet block. */
  function EncodeBlock(b: seq<byte>): seq<byte>
    requires |b| <= MAX_INT
  {
    EncodeLength(|b|) + b
  }

  function EncodeCacheId(id: CacheId): seq<byte> {
    EncodeBlock(Utf8.Encode(id))
  }

  function EncodeKey(key: int64): seq<byte> {
    EncodeInt64(key)
  }

  /** Payload blocks one after another, head first. */
  function EncodePayloads(ps: seq<Payload>): seq<byte> {
    if ps == [] then [] else EncodeBlock(ps[0]) + EncodePayloads(ps[1..])
  }

  /** A chain: its element count, then its payload blocks. */
  function EncodeChain(c: Chain): seq<byte> {
    EncodeLength(|c|) + EncodePayloads(c)
  }

  /** The fields after the cache id: what each kind carries besides it. */
  function EncodeBody(m: ServerStoreOpMessage): seq<byte> {
    match m
    case AppendMessage(_, key, payload) => EncodeKey(key) + EncodeBlock(payload)
    case GetMessage(_, key) => EncodeKey(key)
    case GetAndAppendMessage(_, key, payload) => EncodeKey(key) + EncodeBlock(payload)
    case ReplaceAtHeadMessage(_, key, expectChain, updateChain) =>
      EncodeKey(key) + EncodeChain(expectChain) + EncodeChain(updateChain)
    case ClearMessage(_) => []
  }

  /** The octets of a message; total on every message. */
  function Encode(m: ServerStoreOpMessage): (r: seq<byte>)
    ensures |r| >= 5 && r[0] == m.Operation().OpCode()
  {
    [m.Operation().OpCode()] + EncodeCacheId(m.cacheId) + EncodeBody(m)
  }

  // ---------------------------------------------------------------- decoding

  /** A 4-octet length or count field, which a Java `int` reads as non-negative. */
  function ParseLength(s: seq<byte>): (r: Parsed<nat>)
    ensures r.Success? ==> r.value.0 <= MAX_INT
  {
    if |s| < 4 then Failure(Truncated)
    else
      var n := FromBigEndian(s[..4]);
      if n > MAX_INT then Failure(NegativeLength(n - TWO_TO_32)) else Success((n, s[4..]))
  }

  /** A length-prefixed octet block: a payload, or the UTF-8 octets of a cache id. */
  function ParseBlock(s: seq<byte>): Parsed<Payload> {
    var n :- ParseLength(s);
    var len, rest := n.0, n.1;
    if len > |rest| then Failure(LengthOverrun(len, |rest|)) else Success((rest[..len], rest[len..]))
  }

  function ParseCacheId(s: seq<byte>): Parsed<CacheId> {
    var b :- ParseBlock(s);
    var text := Utf8.Decode(b.0);
    if text.None? then Failure(MalformedCacheId)
    else
      Utf8.EncodeDecode(b.0);
      Success((text.value, b.1))
  }

  function ParseKey(s: seq<byte>): Parsed<int64> {
    if |s| < 8 then Failure(Truncated) else Success((DecodeInt64(s[..8]), s[8..]))
  }

  /** `count` payload blocks, head first. */
  function ParsePayloads(count: nat, s: seq<byte>): (r: Parsed<seq<Payload>>)
    ensures r.Success? ==> |r.value.0| == count
    decreases count
  {
    if count == 0 then Success(([], s))
    else
      var p :- ParseBlock(s);
      var ps :- ParsePayloads(count - 1, p.1);
      Success(([p.0] + ps.0, ps.1))
  }

  function ParseChain(s: seq<byte>): Parsed<Chain> {
    var n :- ParseLength(s);
    var ps :- ParsePayloads(n.0, n.1);
    Success((ps.0, ps.1))
  }

  /** The key and payload of an Append or GetAndAppend message. */
  function ParseKeyAndPayload(s: seq<byte>): Parsed<(int64, Payload)> {
    var k :- ParseKey(s);
    var p :- ParseBlock(k.1);
    Success(((k.0, p.0), p.1))
  }

  /** The key and the expect and update chains of a ReplaceAtHead message. */
  function ParseKeyAndChains(s: seq<byte>): Parsed<(int64, Chain, Chain)> {
    var k :- ParseKey(s);
    var e :- ParseChain(k.1);
    var u :- ParseChain(e.1);
    Success(((k.0, e.0, u.0), u.1))
  }

  /** The fields after the cache id, as the op code says they are laid out. */
  function ParseBody(op: StoreOp, id: CacheId, s: seq<byte>): Parsed<ServerStoreOpMessage> {
    match op
    case Append =>
      var f :- ParseKeyAndPayload(s);
      Success((AppendMessage(id, f.0.0, f.0.1), f.1))
    case Get =>
      var k :- ParseKey(s);
      Success((GetMessage(id, k.0), k.1))
    case GetAndAppend =>
      var f :- ParseKeyAndPayload(s);
      Success((GetAndAppendMessage(id, f.0.0, f.0.1), f.1))
    case ReplaceAtHead =>
      var f :- ParseKeyAndChains(s);
      Success((ReplaceAtHeadMessage(id, f.0.0, f.0.1, f.0.2), f.1))
    case Clear =>
      Success((ClearMessage(id), s))
  }

  /** One message at the start of `s`, dispatched on its op code. */
  function ParseMessage(s: seq<byte>): Parsed<ServerStoreOpMessage> {
    if |s| == 0 then Failure(Truncated)
    else
      match FromOpCode(s[0])
      case None => Failure(UnknownOpCode(s[0]))
      case Some(op) =>
        var id :- ParseCacheId(s[1..]);
        ParseBody(op, id.0, id.1)
  }

  /** The message that `s` holds, exactly and entirely. */
  function Decode(s: seq<byte>): (r: Result<ServerStoreOpMessage, DecodeError>)
    ensures |s| == 0 ==> r == Failure(Truncated)
    ensures r.Success? ==> Encode(r.value) == s
  {
    var m :- ParseMessage(s);
    if m.1 != [] then Failure(TrailingBytes(|m.1|))
    else
      ParseMessageExact(s);
      assert Encode(m.0) + [] == Encode(m.0);
      Success(m.0)
  }

  // ------------------------------------------- each parser inverts its encoder

  lemma ParseLengthRoundTrip(n: nat, rest: seq<byte>)
    requires n <= MAX_INT
    ensures ParseLength(EncodeLength(n) + rest) == Success((n, rest))
  {
    var s := EncodeLength(n) + rest;
    assert s[..4] == EncodeLength(n) && s[4..] == rest;
    Pow256Widths();
    FromToBigEndian(n, 4);
  }

  lemma ParseLengthExact(s: seq<byte>)
    requires ParseLength(s).Success?
    ensures s == EncodeLength(ParseLength(s).value.0) + ParseLength(s).value.1
  {
    Pow256Widths();
    ToFromBigEndian(s[..4]);
    assert s == s[..4] + s[4..];
  }

  lemma ParseBlockRoundTrip(b: seq<byte>, rest: seq<byte>)
    requires |b| <= MAX_INT
    ensures ParseBlock(EncodeBlock(b) + rest) == Success((b, rest))
  {
    assert EncodeBlock(b) + rest == EncodeLength(|b|) + (b + rest);
    ParseLengthRoundTrip(|b|, b + rest);
    assert (b + rest)[..|b|] == b && (b + rest)[|b|..] == rest;
  }

  lemma ParseBlockExact(s: seq<byte>)
    requires ParseBlock(s).Success?
    ensures s == EncodeBlock(ParseBlock(s).value.0) + ParseBlock(s).value.1
  {
    ParseLengthExact(s);
    var (len, rest) := ParseLength(s).value;
    assert rest == rest[..len] + rest[len..];
  }

  lemma ParseCacheIdRoundTrip(id: CacheId, rest: seq<byte>)
    ensures ParseCacheId(EncodeCacheId(id) + rest) == Success((id, rest))
  {
    ParseBlockRoundTrip(Utf8.Encode(id), rest);
    Utf8.DecodeEncode(id);
  }

  lemma ParseCacheIdExact(s: seq<byte>)
    requires ParseCacheId(s).Success?
    ensures s == EncodeCacheId(ParseCacheId(s).value.0) + ParseCacheId(s).value.1
  {
    ParseBlockExact(s);
    Utf8.EncodeDecode(ParseBlock(s).value.0);
  }

  lemma ParseKeyRoundTrip(key: int64, rest: seq<byte>)
    ensures ParseKey(EncodeKey(key) + rest) == Success((key, rest))
  {
    var s := EncodeKey(key) + rest;
    assert s[..8] == EncodeKey(key) && s[8..] == rest;
    Int64RoundTrip(key);
  }

  lemma ParseKeyExact(s: seq<byte>)
    requires ParseKey(s).Success?
    ensures s == EncodeKey(ParseKey(s).value.0) + ParseKey(s).value.1
  {
    Int64OctetsRoundTrip(s[..8]);
    assert s == s[..8] + s[8..];
  }

  lemma {:induction false} ParsePayloadsRoundTrip(ps: seq<Payload>, rest: seq<byte>)
    ensures ParsePayloads(|ps|, EncodePayloads(ps) + rest) == Success((ps, rest))
    decreases |ps|
  {
    if ps == [] {
      assert EncodePayloads(ps) + rest == rest;
    } else {
      var tail := EncodePayloads(ps[1..]) + rest;
      assert EncodePayloads(ps) + rest == EncodeBlock(ps[0]) + tail;
      ParseBlockRoundTrip(ps[0], tail);
      ParsePayloadsRoundTrip(ps[1..], rest);
      assert [ps[0]] + ps[1..] == ps;
    }
  }

  lemma {:induction false} ParsePayloadsExact(count: nat, s: seq<byte>)
    requires ParsePayloads(count, s).Success?
    ensures s == EncodePayloads(ParsePayloads(count, s).value.0) + ParsePayloads(count, s).value.1
    decreases count
  {
    if count > 0 {
      var (p, afterHead) := ParseBlock(s).value;
      ParseBlockExact(s);
      ParsePayloadsExact(count - 1, afterHead);
      var (ps, rest) := ParsePayloads(count, s).value;
      assert ps[0] == p && ps[1..] == ParsePayloads(count - 1, afterHead).value.0;
    }
  }

  lemma ParseChainRoundTrip(c: Chain, rest: seq<byte>)
    ensures ParseChain(EncodeChain(c) + rest) == Success((c, rest))
  {
    assert EncodeChain(c) + rest == EncodeLength(|c|) + (EncodePayloads(c) + rest);
    ParseLengthRoundTrip(|c|, EncodePayloads(c) + rest);
    ParsePayloadsRoundTrip(c, rest);
  }

  lemma ParseChainExact(s: seq<byte>)
    requires ParseChain(s).Success?
    ensures s == EncodeChain(ParseChain(s).value.0) + ParseChain(s).value.1
  {
    ParseLengthExact(s);
    var (n, afterCount) := ParseLength(s).value;
    ParsePayloadsExact(n, afterCount);
  }

  lemma ParseKeyAndPayloadRoundTrip(key: int64, payload: Payload, rest: seq<byte>)
    ensures ParseKeyAndPayload(EncodeKey(key) + EncodeBlock(payload) + rest) == Success(((key, payload), rest))
  {
    assert EncodeKey(key) + EncodeBlock(payload) + rest == EncodeKey(key) + (EncodeBlock(payload) + rest);
    ParseKeyRoundTrip(key, EncodeBlock(payload) + rest);
    ParseBlockRoundTrip(payload, rest);
  }

  lemma ParseKeyAndChainsRoundTrip(key: int64, expectChain: Chain, updateChain: Chain, rest: seq<byte>)
    ensures ParseKeyAndChains(EncodeKey(key) + EncodeChain(expectChain) + EncodeChain(updateChain) + rest)
         == Success(((key, expectChain, updateChain), rest))
  {
    var afterExpect := EncodeChain(updateChain) + rest;
    var afterKey := EncodeChain(expectChain) + afterExpect;
    assert EncodeKey(key) + EncodeChain(expectChain) + EncodeChain(updateChain) + rest == EncodeKey(key) + afterKey;
    ParseKeyRoundTrip(key, afterKey);
    ParseChainRoundTrip(expectChain, afterExpect);
    ParseChainRoundTrip(updateChain, rest);
  }

  lemma ParseBodyRoundTrip(m: ServerStoreOpMessage, rest: seq<byte>)
    ensures ParseBody(m.Operation(), m.cacheId, EncodeBody(m) + rest) == Success((m, rest))
  {
    match m
    case AppendMessage(_, key, payload) =>
      ParseKeyAndPayloadRoundTrip(key, payload, rest);
    case GetMessage(_, key) =>
      ParseKeyRoundTrip(key, rest);
    case GetAndAppendMessage(_, key, payload) =>
      ParseKeyAndPayloadRoundTrip(key, payload, rest);
    case ReplaceAtHeadMessage(_, key, expectChain, updateChain) =>
      ParseKeyAndChainsRoundTrip(key, expectChain, updateChain, rest);
    case ClearMessage(_) =>
      assert EncodeBody(m) + rest == rest;
  }

  lemma ParseKeyAndPayloadExact(s: seq<byte>)
    requires ParseKeyAndPayload(s).Success?
    ensures var ((key, payload), rest) := ParseKeyAndPayload(s).value;
      s == EncodeKey(key) + EncodeBlock(payload) + rest
  {
    ParseKeyExact(s);
    ParseBlockExact(ParseKey(s).value.1);
  }

  lemma ParseKeyAndChainsExact(s: seq<byte>)
    requires ParseKeyAndChains(s).Success?
    ensures var ((key, expectChain, updateChain), rest) := ParseKeyAndChains(s).value;
      s == EncodeKey(key) + EncodeChain(expectChain) + EncodeChain(updateChain) + rest
  {
    ParseKeyExact(s);
    var afterKey := ParseKey(s).value.1;
    ParseChainExact(afterKey);
    ParseChainExact(ParseChain(afterKey).value.1);
  }

  lemma ParseBodyExact(op: StoreOp, id: CacheId, s: seq<byte>)
    requires ParseBody(op, id, s).Success?
    ensures var (m, rest) := ParseBody(op, id, s).value;
      m.Operation() == op && m.cacheId == id && s == EncodeBody(m) + rest
  {
    match op
    case Append =>
      ParseKeyAndPayloadExact(s);
    case Get =>
      ParseKeyExact(s);
    case GetAndAppend =>
      ParseKeyAndPayloadExact(s);
    case ReplaceAtHead =>
      ParseKeyAndChainsExact(s);
    case Clear =>
  }

  /** How ParseMessage goes on once the op code and the cache id have been read. */
  lemma ParseMessageAfterCacheId(s: seq<byte>, op: StoreOp, id: CacheId, afterId: seq<byte>)
    requires |s| > 0 && FromOpCode(s[0]) == Some(op) && ParseCacheId(s[1..]) == Success((id, afterId))
    ensures ParseMessage(s) == ParseBody(op, id, afterId)
  {
  }

  lemma ParseMessageRoundTrip(m: ServerStoreOpMessage, rest: seq<byte>)
    ensures ParseMessage(Encode(m) + rest) == Success((m, rest))
  {
    var s := Encode(m) + rest;
    var afterId := EncodeBody(m) + rest;
    var afterCode := EncodeCacheId(m.cacheId) + afterId;
    EncodeThenRest(m, rest);
    assert s[0] == m.Operation().OpCode() && s[1..] == afterCode;
    ParseCacheIdRoundTrip(m.cacheId, afterId);
    ParseMessageAfterCacheId(s, m.Operation(), m.cacheId, afterId);
    ParseBodyRoundTrip(m, rest);
  }

  lemma ParseMessageExact(s: seq<byte>)
    requires ParseMessage(s).Success?
    ensures Encode(ParseMessage(s).value.0) + ParseMessage(s).value.1 == s
  {
    var op := FromOpCode(s[0]).value;
    var id, afterId := ParseCacheId(s[1..]).value.0, ParseCacheId(s[1..]).value.1;
    ParseCacheIdExact(s[1..]);
    ParseMessageAfterCacheId(s, op, id, afterId);
    ParseBodyExact(op, id, afterId);
    var m, rest := ParseBody(op, id, afterId).value.0, ParseBody(op, id, afterId).value.1;
    assert s[1..] == EncodeCacheId(id) + (EncodeBody(m) + rest);
    SplitFirst(s);
    EncodeThenRest(m, rest);
  }

  lemma SplitFirst(s: seq<byte>)
    requires |s| > 0
    ensures s == [s[0]] + s[1..]
  {
  }

  lemma EncodeThenRest(m: ServerStoreOpMessage, rest: seq<byte>)
    ensures Encode(m) + rest == [m.Operation().OpCode()] + (EncodeCacheId(m.cacheId) + (EncodeBody(m) + rest))
  {
    var code, id, body := [m.Operation().OpCode()], EncodeCacheId(m.cacheId), EncodeBody(m);
    Associative(code + id, body, rest);
    Associative(code, id, body + rest);
  }

  lemma Associative(a: seq<byte>, b: seq<byte>, c: seq<byte>)
    ensures a + b + c == a + (b + c)
  {
  }

  // ------------------------------------------------- properties of the codec

  /** Every message survives encoding and decoding unchanged: kind, cache id, key, payload, chains. */
  lemma DecodeEncode(m: ServerStoreOpMessage)
    ensures Decode(Encode(m)) == Success(m)
  {
    ParseMessageRoundTrip(m, []);
    assert Encode(m) + [] == Encode(m);
  }

  /** Encode and Decode are inverse: `s` decodes to `m` exactly when `s` is the encoding of `m`. */
  lemma DecodeIffEncoded(s: seq<byte>, m: ServerStoreOpMessage)
    ensures Decode(s) == Success(m) <==> s == Encode(m)
  {
    if s == Encode(m) {
      DecodeEncode(m);
    }
  }

  /** Distinct messages have distinct encodings. */
  lemma EncodeInjective(m1: ServerStoreOpMessage, m2: ServerStoreOpMessage)
    ensures Encode(m1) == Encode(m2) ==> m1 == m2
  {
    DecodeEncode(m1);
    DecodeEncode(m2);
  }

  /** The decoded message is of the kind its first octet names. */
  lemma DecodedKindIsOpCode(s: seq<byte>)
    requires Decode(s).Success?
    ensures |s| > 0 && Decode(s).value.Operation().OpCode() == s[0]
  {
  }

  /** An octet that names no operation is refused before anything else is read. */
  lemma DecodeRejectsUnknownOpCode(s: seq<byte>)
    requires |s| > 0 && forall op: StoreOp :: op.OpCode() != s[0]
    ensures Decode(s) == Failure(UnknownOpCode(s[0]))
  {
  }

  /** No encoding is a proper prefix of another: the encoding of a message says where it ends. */
  lemma EncodingPrefixFree(m: ServerStoreOpMessage, m': ServerStoreOpMessage, tail: seq<byte>)
    requires Encode(m) == Encode(m') + tail
    ensures tail == [] && m == m'
  {
    ParseMessageRoundTrip(m', tail);
    ParseMessageRoundTrip(m, []);
    assert Encode(m) + [] == Encode(m);
  }

  /** Every proper prefix of an encoding, the empty one included, fails to decode. */
  lemma DecodeRejectsTruncated(m: ServerStoreOpMessage, n: nat)
    requires n < |Encode(m)|
    ensures Decode(Encode(m)[..n]).Failure?
  {
    var full := Encode(m);
    var prefix, tail := full[..n], full[n..];
    if Decode(prefix).Success? {
      var m' := Decode(prefix).value;
      assert full == Encode(m') + tail;
      EncodingPrefixFree(m, m', tail);
      assert false;
    }
  }

  /** Octets after a complete message make the whole buffer fail to decode. */
  lemma DecodeRejectsTrailingBytes(m: ServerStoreOpMessage, extra: seq<byte>)
    requires extra != []
    ensures Decode(Encode(m) + extra) == Failure(TrailingBytes(|extra|))
  {
    ParseMessageRoundTrip(m, extra);
  }

  /** A replace-at-head message whose chains are swapped encodes differently, so they are never confused. */
  lemma SwappedChainsEncodeDifferently(id: CacheId, key: int64, expectChain: Chain, updateChain: Chain)
    requires expectChain != updateChain
    ensures Encode(ReplaceAtHeadMessage(id, key, expectChain, updateChain))
         != Encode(ReplaceAtHeadMessage(id, key, updateChain, expectChain))
  {
    EncodeInjective(ReplaceAtHeadMessage(id, key, expectChain, updateChain),
                    ReplaceAtHeadMessage(id, key, updateChain, expectChain));
  }
}
