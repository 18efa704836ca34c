# Server store operation messages and their wire codec

A model of the operation messages of Ehcache's clustered server store and of the
codec that carries them between client and server. A factory bound to one cache
builds five kinds of operation: Append(key, payload), Get(key),
GetAndAppend(key, payload), ReplaceAtHead(key, expect chain, update chain) and
Clear(). The codec encodes an operation message to octets and decodes it back.
A payload is an opaque octet string. A chain is an ordered sequence of payloads,
head first. A key is a Java `long`. A cache id is a Dafny `string`, a sequence of Unicode scalar values.
An octet is the newtype `Wire.byte` of the integers 0 to 255 rather than `bv8`: the values are the
same, and the arithmetic of the big-endian and UTF-8 fields is then plain integer arithmetic.

The test `ServerStoreOpCodecTest` is the behaviour being modelled. It builds
one message of each kind with a factory for cache `"test"`, encodes it, decodes
it, and checks the decoded cache id, key, payload and chains. The factory, codec and
`Util` classes it calls (ServerStoreMessageFactory.java, ServerStoreOpCodec.java
and Util.java) are not part of this model. So the byte layout below is this
model's own, fixed and documented, and it is what every lemma is proved against.

Files, one module each:

- `wrappers.dfy` (`Wrappers`): Option and Result.
- `wire.dfy` (`Wire`): octets, Java `long`, and big-endian fixed-width fields and their round trips.
- `utf8.dfy` (`Utf8`): strict UTF-8 (RFC 3629) for the cache id. Decoding is proved to invert encoding in both directions.
- `payloads.dfy` (`Payloads`): payloads and chains. It also holds the test helpers: a payload carrying a `long` (`createPayload`), reading it back (`readPayLoad`), building a chain (`getChain` applied to the `createPayload` of each value, as the test calls it) and the chain check (`assertChainHas`).
- `messages.dfy` (`ServerStoreMessages`): the operation kinds and their op codes, the message datatype and the factory.
- `codec.dfy` (`ServerStoreOpCodec`): Encode, Decode, and the lemmas that tie them together.
- `codec_test.dfy` (`ServerStoreOpCodecTest`): one round-trip lemma per factory operation, and the five test scenarios with the test's own values.

Wire layout. Every numeric field is big-endian, the default of a Java ByteBuffer.

| field | octets | present in |
|---|---|---|
| op code: Append 1, Get 2, GetAndAppend 3, ReplaceAtHead 4, Clear 5 | 1 | every message |
| cache id: length as a Java `int`, then its UTF-8 octets | 4 + n | every message |
| key, two's complement | 8 | all but Clear |
| payload: length as a Java `int`, then the octets | 4 + n | Append, GetAndAppend |
| expect chain, then update chain: each a count, then that many payload blocks | 4 + ... | ReplaceAtHead |

Decoding returns a `DecodeError` and never produces a partial message. The errors are:
- an unknown op code;
- a buffer that ends inside a fixed-width field (`Truncated`);
- a length field that runs past the end of the buffer (`LengthOverrun`);
- a length or count field that a Java `int` reads as negative (`NegativeLength`);
- a cache id that is not well-formed UTF-8;
- octets left over after a complete message (`TrailingBytes`).

The last three are additions of this model. They make decoding exact: `s` decodes
to `m` exactly when `s` is the encoding of `m`.

Payloads, chains and cache ids are subset types bounded by Java's largest `int`,
the largest array length, so that every length and count field fits its 4 octets.
`Encode` therefore needs no precondition; the length of the whole encoding is not
bounded (see below).

## Model

| member | source | states |
|---|---|---|
| ServerStoreMessages.FromOpCode | clustered/common/src/test/java/org/ehcache/clustered/common/messages/ServerStoreOpCodecTest.java:43 | an octet decodes to an operation kind only if that kind's op code is the octet, and every kind's op code decodes to that kind; this is the dispatch that makes the decoded message the encoded kind |
| ServerStoreMessages.ServerStoreMessageFactory.AppendOperation | clustered/common/src/test/java/org/ehcache/clustered/common/messages/ServerStoreOpCodecTest.java:37 | builds an Append that carries the factory's cache id, the key and the payload |
| ServerStoreMessages.ServerStoreMessageFactory.GetOperation | clustered/common/src/test/java/org/ehcache/clustered/common/messages/ServerStoreOpCodecTest.java:48 | builds a Get that carries the factory's cache id and the key |
| ServerStoreMessages.ServerStoreMessageFactory.GetAndAppendOperation | clustered/common/src/test/java/org/ehcache/clustered/common/messages/ServerStoreOpCodecTest.java:58 | builds a GetAndAppend that carries the factory's cache id, the key and the payload |
| ServerStoreMessages.ServerStoreMessageFactory.ReplaceAtHeadOperation | clustered/common/src/test/java/org/ehcache/clustered/common/messages/ServerStoreOpCodecTest.java:69-71 | builds a ReplaceAtHead that carries the factory's cache id and the key, with the expect chain and the update chain each in its own field |
| ServerStoreMessages.ServerStoreMessageFactory.ClearOperation | clustered/common/src/test/java/org/ehcache/clustered/common/messages/ServerStoreOpCodecTest.java:83 | builds a Clear that carries the factory's cache id and nothing else |
| Payloads.CreatePayload | clustered/common/src/test/java/org/ehcache/clustered/common/messages/ServerStoreOpCodecTest.java:37 | the payload created for a `long` is exactly 8 octets |
| Payloads.ReadPayload | clustered/common/src/test/java/org/ehcache/clustered/common/messages/ServerStoreOpCodecTest.java:43 | a payload yields a `long` exactly when it holds at least 8 octets |
| Payloads.ReadCreatePayload | clustered/common/src/test/java/org/ehcache/clustered/common/messages/ServerStoreOpCodecTest.java:43 | reading back the payload created for `n` gives `n` |
| Payloads.CreatePayloadInjective | clustered/common/src/test/java/org/ehcache/clustered/common/messages/ServerStoreOpCodecTest.java:37 | different `long`s give different payloads |
| Payloads.ChainOf | clustered/common/src/test/java/org/ehcache/clustered/common/messages/ServerStoreOpCodecTest.java:70-71 | the chain built from values holds one payload per value, in order, each reading back to its value |
| Payloads.ChainHasIsChainOf | clustered/common/src/test/java/org/ehcache/clustered/common/messages/ServerStoreOpCodecTest.java:77-78 | the chain check `ChainHas` (assertChainHas) holds of a chain of 8-octet payloads exactly when that chain is the one created from the same values, so it fixes the length and every element in order |
| Wire.Int64RoundTrip | clustered/common/src/test/java/org/ehcache/clustered/common/messages/ServerStoreOpCodecTest.java:42 | a key written as 8 big-endian octets reads back as the same `long` |
| Wire.Int64OctetsRoundTrip | clustered/common/src/test/java/org/ehcache/clustered/common/messages/ServerStoreOpCodecTest.java:42 | any 8 octets read as a key and written back are the same octets |
| Utf8.DecodeEncode | clustered/common/src/test/java/org/ehcache/clustered/common/messages/ServerStoreOpCodecTest.java:41 | the UTF-8 octets of any cache id decode back to that cache id |
| Utf8.EncodeDecode | clustered/common/src/test/java/org/ehcache/clustered/common/messages/ServerStoreOpCodecTest.java:41 | octets that the UTF-8 decoder accepts are exactly the encoding of the text it returns |
| ServerStoreOpCodec.Encode | clustered/common/src/test/java/org/ehcache/clustered/common/messages/ServerStoreOpCodecTest.java:39 | an encoded message starts with its kind's op code and has at least the op code and the cache id length |
| ServerStoreOpCodec.ParseCacheIdRoundTrip | clustered/common/src/test/java/org/ehcache/clustered/common/messages/ServerStoreOpCodecTest.java:41 | the length-prefixed cache id is read back whole, and exactly the octets after it are left |
| ServerStoreOpCodec.ParseCacheIdExact | clustered/common/src/test/java/org/ehcache/clustered/common/messages/ServerStoreOpCodecTest.java:41 | a cache id that is read back was encoded by exactly the octets it consumed |
| ServerStoreOpCodec.ParseKeyRoundTrip | clustered/common/src/test/java/org/ehcache/clustered/common/messages/ServerStoreOpCodecTest.java:42 | the fixed-width key is read back, and exactly the octets after it are left |
| ServerStoreOpCodec.ParseBlockRoundTrip | clustered/common/src/test/java/org/ehcache/clustered/common/messages/ServerStoreOpCodecTest.java:43 | a length-prefixed payload, empty or not, is read back whole, and exactly the octets after it are left |
| ServerStoreOpCodec.ParseBlockExact | clustered/common/src/test/java/org/ehcache/clustered/common/messages/ServerStoreOpCodecTest.java:43 | a payload block that is read back was encoded by exactly the octets it consumed |
| ServerStoreOpCodec.ParsePayloadsRoundTrip | clustered/common/src/test/java/org/ehcache/clustered/common/messages/ServerStoreOpCodecTest.java:77 | a run of payload blocks is read back element for element and in order |
| ServerStoreOpCodec.ParseChainRoundTrip | clustered/common/src/test/java/org/ehcache/clustered/common/messages/ServerStoreOpCodecTest.java:77-78 | a chain, empty or not, is read back with its count and every element in order |
| ServerStoreOpCodec.ParseChainExact | clustered/common/src/test/java/org/ehcache/clustered/common/messages/ServerStoreOpCodecTest.java:77-78 | a chain that is read back was encoded by exactly the octets it consumed |
| ServerStoreOpCodec.ParseBodyRoundTrip | clustered/common/src/test/java/org/ehcache/clustered/common/messages/ServerStoreOpCodecTest.java:39 | the fields after the cache id are read back for each kind as that kind lays them out |
| ServerStoreOpCodec.ParseMessageRoundTrip | clustered/common/src/test/java/org/ehcache/clustered/common/messages/ServerStoreOpCodecTest.java:39 | a whole message followed by any octets is read back, leaving exactly those octets |
| ServerStoreOpCodec.DecodeEncode | clustered/common/src/test/java/org/ehcache/clustered/common/messages/ServerStoreOpCodecTest.java:39 | decoding the encoding of any message gives that message back: same kind, cache id, key, payload and chains |
| ServerStoreOpCodec.Decode | clustered/common/src/test/java/org/ehcache/clustered/common/messages/ServerStoreOpCodecTest.java:85 | the empty buffer fails as Truncated, and whatever octets decode successfully are exactly the encoding of the decoded message, so nothing is fabricated |
| ServerStoreOpCodec.EncodingPrefixFree | clustered/common/src/test/java/org/ehcache/clustered/common/messages/ServerStoreOpCodecTest.java:84-85 | no encoding is followed by further octets inside another encoding: equal up to a tail means the same message and an empty tail |
| ServerStoreOpCodec.DecodeIffEncoded | clustered/common/src/test/java/org/ehcache/clustered/common/messages/ServerStoreOpCodecTest.java:84-85 | octets decode to a message exactly when they are that message's encoding |
| ServerStoreOpCodec.EncodeInjective | clustered/common/src/test/java/org/ehcache/clustered/common/messages/ServerStoreOpCodecTest.java:39 | two messages with the same encoding are the same message |
| ServerStoreOpCodec.DecodedKindIsOpCode | clustered/common/src/test/java/org/ehcache/clustered/common/messages/ServerStoreOpCodecTest.java:43 | a decoded message is of the kind named by the first octet |
| ServerStoreOpCodec.DecodeRejectsUnknownOpCode | clustered/common/src/test/java/org/ehcache/clustered/common/messages/ServerStoreOpCodecTest.java:85 | a first octet that is no operation's code fails with UnknownOpCode |
| ServerStoreOpCodec.DecodeRejectsTruncated | clustered/common/src/test/java/org/ehcache/clustered/common/messages/ServerStoreOpCodecTest.java:84-85 | every proper prefix of an encoding, the empty one included, fails to decode |
| ServerStoreOpCodec.DecodeRejectsTrailingBytes | clustered/common/src/test/java/org/ehcache/clustered/common/messages/ServerStoreOpCodecTest.java:84-85 | an encoding followed by extra octets fails with TrailingBytes, counting the extra octets |
| ServerStoreOpCodec.SwappedChainsEncodeDifferently | clustered/common/src/test/java/org/ehcache/clustered/common/messages/ServerStoreOpCodecTest.java:77-78 | swapping distinct expect and update chains changes the encoding, so the two chains are never confused |
| ServerStoreOpCodecTest.AppendOperationRoundTrip | clustered/common/src/test/java/org/ehcache/clustered/common/messages/ServerStoreOpCodecTest.java:37-43 | an Append from any factory comes back as an Append with the factory's cache id, its key and its payload |
| ServerStoreOpCodecTest.GetOperationRoundTrip | clustered/common/src/test/java/org/ehcache/clustered/common/messages/ServerStoreOpCodecTest.java:48-53 | a Get comes back as a Get with the factory's cache id and its key |
| ServerStoreOpCodecTest.GetAndAppendOperationRoundTrip | clustered/common/src/test/java/org/ehcache/clustered/common/messages/ServerStoreOpCodecTest.java:58-64 | a GetAndAppend comes back as a GetAndAppend with the factory's cache id, its key and its payload |
| ServerStoreOpCodecTest.ReplaceAtHeadOperationRoundTrip | clustered/common/src/test/java/org/ehcache/clustered/common/messages/ServerStoreOpCodecTest.java:69-78 | a ReplaceAtHead comes back with the factory's cache id and key, the expect chain and the update chain each unchanged and in its own place |
| ServerStoreOpCodecTest.ClearOperationRoundTrip | clustered/common/src/test/java/org/ehcache/clustered/common/messages/ServerStoreOpCodecTest.java:83-86 | a Clear comes back as a Clear with the factory's cache id |
| ServerStoreOpCodecTest.EmptyFieldsRoundTrip | clustered/common/src/test/java/org/ehcache/clustered/common/messages/ServerStoreOpCodecTest.java:37-43 | an empty payload and empty expect and update chains survive encoding and decoding |
| ServerStoreOpCodecTest.AppendMessageCodec | clustered/common/src/test/java/org/ehcache/clustered/common/messages/ServerStoreOpCodecTest.java:35-44 | the Append test: cache id "test", key 1, payload reading back as 1 |
| ServerStoreOpCodecTest.GetMessageCodec | clustered/common/src/test/java/org/ehcache/clustered/common/messages/ServerStoreOpCodecTest.java:47-54 | the Get test: cache id "test", key 2 |
| ServerStoreOpCodecTest.GetAndAppendMessageCodec | clustered/common/src/test/java/org/ehcache/clustered/common/messages/ServerStoreOpCodecTest.java:57-65 | the GetAndAppend test: cache id "test", key 10, payload reading back as 10 |
| ServerStoreOpCodecTest.ReplaceAtHeadMessageCodec | clustered/common/src/test/java/org/ehcache/clustered/common/messages/ServerStoreOpCodecTest.java:68-79 | the ReplaceAtHead test: cache id "test", key 10, expect chain holding 10, 100, 1000 in order and update chain holding 2000 |
| ServerStoreOpCodecTest.ClearMessageCodec | clustered/common/src/test/java/org/ehcache/clustered/common/messages/ServerStoreOpCodecTest.java:82-87 | the Clear test: cache id "test" |

## Left out

- The server-side chain store and its compare-and-swap resolution are outside the codec and are not modelled: what applying Append, GetAndAppend, ReplaceAtHead and Clear does to stored chains, and the UnknownCache error.
- The boolean first argument of `getChain` is not modelled. The flag plays no part in this codec, so a chain is a plain sequence of payloads. A chain element is its payload, with no wrapper.
- `ChainOf` is `getChain` applied to the `createPayload` of each value, the only way the test calls it. A `getChain` over arbitrary payloads is the chain itself.
- The length of a whole encoding is not bounded. Each field is at most Java's largest `int`, but their sum is not: an Append for "test" with a payload of that size encodes to more octets than a Java `byte[]` can hold. `Encode` still returns its octets.
- A cache id is a sequence of Unicode scalar values. A Java `String` is UTF-16 and may hold unpaired surrogates, which this model can neither represent nor carry.
- Java's message class hierarchy and casts are modelled as one closed datatype with one constructor per kind. Only Clear has no key, so the key is not defined on it.
- ByteBuffer positions, limits and capacities are left out. A payload is an immutable octet string. `ReadPayload` reads its first 8 octets and reports a payload shorter than 8 octets as None, where Java would throw a buffer underflow.
- The op code values, UTF-8 for the cache id, big-endian order and 4-octet length fields are this model's choices, because the codec source is not part of this model. The cache id is sent in every message, not bound once per connection.
- A chain's count is not checked against the remaining octets. A count too large fails on the first element that does not fit, with `Truncated`, `LengthOverrun` or `NegativeLength`.
- The JUnit and Hamcrest assertion machinery, transport, the entity runtime, concurrency and linearisability are outside the codec and are not modelled.
