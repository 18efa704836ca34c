/**
 * The operation messages of the clustered server store and the factory that
 * builds them for one cache.
 */
module ServerStoreMessages {
  import opened Wire
  import opened Wrappers
  import opened Payloads
  import Utf8

  /** The name of a cache; its UTF-8 form fits a Java array. */
  type CacheId = s: string | |Utf8.Encode(s)| <= MAX_INT witness ""

  /** The five operation kinds, each with its one-octet wire code. */
  datatype StoreOp = Append | Get | GetAndAppend | ReplaceAtHead | Clear {
    function OpCode(): byte {
      match this
      case Append => 1
      case Get => 2
      case GetAndAppend => 3
      case ReplaceAtHead => 4
      case Clear => 5
    }
  }

  /** The operation kind an octet names, if any. */
  function FromOpCode(b: byte): (r: Option<StoreOp>)
    ensures r.Some? ==> r.value.OpCode() == b
    ensures forall op: StoreOp :: op.OpCode() == b ==> r == Some(op)
  {
    match b
    case 1 => Some(Append)
    case 2 => Some(Get)
    case 3 => Some(GetAndAppend)
    case 4 => Some(ReplaceAtHead)
    case 5 => Some(Clear)
    case _ => None
  }

  /** One operation against one cache; all but Clear address a key. */
  datatype ServerStoreOpMessage =
    | AppendMessage(cacheId: CacheId, key: int64, payload: Payload)
    | GetMessage(cacheId: CacheId, key: int64)
    | GetAndAppendMessage(cacheId: CacheId, key: int64, payload: Payload)
    | ReplaceAtHeadMessage(cacheId: CacheId, key: int64, expectChain: Chain, updateChain: Chain)
    | ClearMessage(cacheId: CacheId)
  {
    function Operation(): StoreOp {
      match this
      case AppendMessage(_, _, _) => Append
      case GetMessage(_, _) => Get
      case GetAndAppendMessage(_, _, _) => GetAndAppend
      case ReplaceAtHeadMessage(_, _, _, _) => ReplaceAtHead
      case ClearMessage(_) => Clear
    }
  }

  /** Builds messages that all name the cache the factory was created for. */
  datatype ServerStoreMessageFactory = ServerStoreMessageFactory(cacheId: CacheId) {

    function AppendOperation(key: int64, payload: Payload): (m: ServerStoreOpMessage)
      ensures m.Operation() == Append && m.cacheId == cacheId
      ensures m.key == key && m.payload == payload
    {
      AppendMessage(cacheId, key, payload)
    }

    function GetOperation(key: int64): (m: ServerStoreOpMessage)
      ensures m.Operation() == Get && m.cacheId == cacheId && m.key == key
    {
      GetMessage(cacheId, key)
    }

    function GetAndAppendOperation(key: int64, payload: Payload): (m: ServerStoreOpMessage)
      ensures m.Operation() == GetAndAppend && m.cacheId == cacheId
      ensures m.key == key && m.payload == payload
    {
      GetAndAppendMessage(cacheId, key, payload)
    }

    function ReplaceAtHeadOperation(key: int64, expectChain: Chain, updateChain: Chain): (m: ServerStoreOpMessage)
      ensures m.Operation() == ReplaceAtHead && m.cacheId == cacheId && m.key == key
      ensures m.expectChain == expectChain && m.updateChain == updateChain
    {
      ReplaceAtHeadMessage(cacheId, key, expectChain, updateChain)
    }

    function ClearOperation(): (m: ServerStoreOpMessage)
      ensures m.Operation() == Clear && m.cacheId == cacheId
    {
      ClearMessage(cacheId)
    }
  }
}
