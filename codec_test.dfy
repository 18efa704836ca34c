/**
 * The round trips that the codec test exercises: each message the factory builds
 * comes back from encoding and decoding as the same kind, with the factory's cache
 * id and the fields it was built with. The general lemmas hold for every factory and
 * every argument, empty payloads and chains included; the five test lemmas replay the
 * test's own values.
 */
module ServerStoreOpCodecTest {
  import opened Wire
  import opened Wrappers
  import opened Payloads
  import opened ServerStoreMessages
  import opened ServerStoreOpCodec

  lemma AppendOperationRoundTrip(f: ServerStoreMessageFactory, key: int64, payload: Payload)
    ensures var d := Decode(Encode(f.AppendOperation(key, payload)));
      && d.Success? && d.value.AppendMessage?
      && d.value.cacheId == f.cacheId && d.value.key == key && d.value.payload == payload
  {
    DecodeEncode(f.AppendOperation(key, payload));
  }

  lemma GetOperationRoundTrip(f: ServerStoreMessageFactory, key: int64)
    ensures var d := Decode(Encode(f.GetOperation(key)));
      d.Success? && d.value.GetMessage? && d.value.cacheId == f.cacheId && d.value.key == key
  {
    DecodeEncode(f.GetOperation(key));
  }

  lemma GetAndAppendOperationRoundTrip(f: ServerStoreMessageFactory, key: int64, payload: Payload)
    ensures var d := Decode(Encode(f.GetAndAppendOperation(key, payload)));
      && d.Success? && d.value.GetAndAppendMessage?
      && d.value.cacheId == f.cacheId && d.value.key == key && d.value.payload == payload
  {
    DecodeEncode(f.GetAndAppendOperation(key, payload));
  }

  /** Both chains come back element for element, in order, each in its own place. */
  lemma ReplaceAtHeadOperationRoundTrip(f: ServerStoreMessageFactory, key: int64, expectChain: Chain, updateChain: Chain)
    ensures var d := Decode(Encode(f.ReplaceAtHeadOperation(key, expectChain, updateChain)));
      && d.Success? && d.value.ReplaceAtHeadMessage?
      && d.value.cacheId == f.cacheId && d.value.key == key
      && d.value.expectChain == expectChain && d.value.updateChain == updateChain
  {
    DecodeEncode(f.ReplaceAtHeadOperation(key, expectChain, updateChain));
  }

  lemma ClearOperationRoundTrip(f: ServerStoreMessageFactory)
    ensures var d := Decode(Encode(f.ClearOperation()));
      d.Success? && d.value.ClearMessage? && d.value.cacheId == f.cacheId
  {
    DecodeEncode(f.ClearOperation());
  }

  /** Zero-length payloads and zero-element chains survive like any other. */
  lemma EmptyFieldsRoundTrip(f: ServerStoreMessageFactory, key: int64)
    ensures Decode(Encode(f.AppendOperation(key, []))) == Success(AppendMessage(f.cacheId, key, []))
    ensures Decode(Encode(f.GetAndAppendOperation(key, []))) == Success(GetAndAppendMessage(f.cacheId, key, []))
    ensures Decode(Encode(f.ReplaceAtHeadOperation(key, [], []))) == Success(ReplaceAtHeadMessage(f.cacheId, key, [], []))
  {
    DecodeEncode(f.AppendOperation(key, []));
    DecodeEncode(f.GetAndAppendOperation(key, []));
    DecodeEncode(f.ReplaceAtHeadOperation(key, [], []));
  }

  // ------------------------------------------------ the test's own scenarios

  const TEST_CACHE_ID: CacheId := "test"

  const MESSAGE_FACTORY := ServerStoreMessageFactory(TEST_CACHE_ID)

  lemma AppendMessageCodec()
    ensures var d := Decode(Encode(MESSAGE_FACTORY.AppendOperation(1, CreatePayload(1))));
      && d.Success? && d.value.AppendMessage?
      && d.value.cacheId == "test" && d.value.key == 1 && ReadPayload(d.value.payload) == Some(1)
  {
    AppendOperationRoundTrip(MESSAGE_FACTORY, 1, CreatePayload(1));
    ReadCreatePayload(1);
  }

  lemma GetMessageCodec()
    ensures var d := Decode(Encode(MESSAGE_FACTORY.GetOperation(2)));
      d.Success? && d.value.cacheId == "test" && d.value.GetMessage? && d.value.key == 2
  {
    GetOperationRoundTrip(MESSAGE_FACTORY, 2);
  }

  lemma GetAndAppendMessageCodec()
    ensures var d := Decode(Encode(MESSAGE_FACTORY.GetAndAppendOperation(10, CreatePayload(10))));
      && d.Success? && d.value.GetAndAppendMessage?
      && d.value.cacheId == "test" && d.value.key == 10 && ReadPayload(d.value.payload) == Some(10)
  {
    GetAndAppendOperationRoundTrip(MESSAGE_FACTORY, 10, CreatePayload(10));
    ReadCreatePayload(10);
  }

  lemma ReplaceAtHeadMessageCodec()
    ensures var d := Decode(Encode(MESSAGE_FACTORY.ReplaceAtHeadOperation(10, ChainOf([10, 100, 1000]), ChainOf([2000]))));
      && d.Success? && d.value.ReplaceAtHeadMessage?
      && d.value.cacheId == "test" && d.value.key == 10
      && ChainHas(d.value.expectChain, [10, 100, 1000]) && ChainHas(d.value.updateChain, [2000])
  {
    ReplaceAtHeadOperationRoundTrip(MESSAGE_FACTORY, 10, ChainOf([10, 100, 1000]), ChainOf([2000]));
  }

  lemma ClearMessageCodec()
    ensures var d := Decode(Encode(MESSAGE_FACTORY.ClearOperation()));
      d.Success? && d.value.ClearMessage? && d.value.cacheId == "test"
  {
    ClearOperationRoundTrip(MESSAGE_FACTORY);
  }
}
