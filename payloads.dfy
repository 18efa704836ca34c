/**
 * Payloads and chains, and the test helpers that build them: a payload carrying
 * a `long` (createPayload), reading it back (readPayLoad), a chain of such payloads
 * (getChain) and the check that a chain holds given values (assertChainHas).
 */
module Payloads {
  import opened Wire
  import opened Wrappers

  /** An opaque binary value; its length is a Java array length. */
  type Payload = p: seq<byte> | |p| <= MAX_INT

  /** The ordered payloads held under one key, head first. */
  type Chain = c: seq<Payload> | |c| <= MAX_INT

  /** A payload whose 8 octets carry the `long` `n`. */
  function CreatePayload(n: int64): (p: Payload)
    ensures |p| == 8
  {
    EncodeInt64(n)
  }

  /** The `long` at the start of a payload; None when it is shorter than 8 octets (a buffer underflow). */
  function ReadPayload(p: Payload): (r: Option<int64>)
    ensures r.Some? <==> |p| >= 8
  {
    if |p| < 8 then None else Some(DecodeInt64(p[..8]))
  }

  lemma ReadCreatePayload(n: int64)
    ensures ReadPayload(CreatePayload(n)) == Some(n)
  {
    var p := CreatePayload(n);
    assert p[..8] == p;
    Int64RoundTrip(n);
  }

  lemma CreatePayloadInjective(m: int64, n: int64)
    ensures CreatePayload(m) == CreatePayload(n) ==> m == n
  {
    ReadCreatePayload(m);
    ReadCreatePayload(n);
  }

  /** A chain holds the payloads of `values`, in order and no others. */
  predicate ChainHas(c: Chain, values: seq<int64>) {
    |c| == |values| && forall i :: 0 <= i < |c| ==> ReadPayload(c[i]) == Some(values[i])
  }

  /** The chain of payloads created from `values`, in order. */
  function ChainOf(values: seq<int64>): (c: Chain)
    requires |values| <= MAX_INT
    ensures ChainHas(c, values)
  {
    if values == [] then []
    else
      ReadCreatePayload(values[0]);
      [CreatePayload(values[0])] + ChainOf(values[1..])
  }

  /**
   * On payloads of 8 octets each, the chain check holds exactly of the chain
   * created from the same values, so it fixes every element and the length.
   */
  lemma {:induction false} ChainHasIsChainOf(c: Chain, values: seq<int64>)
    requires forall i :: 0 <= i < |c| ==> |c[i]| == 8
    ensures ChainHas(c, values) <==> |values| <= MAX_INT && c == ChainOf(values)
  {
    if |values| <= MAX_INT && c == ChainOf(values) {
      assert ChainHas(c, values);
    }
    if ChainHas(c, values) && c != [] {
      var head, tail := c[0], c[1..];
      assert ChainHas(tail, values[1..]) by {
        forall i | 0 <= i < |tail| ensures ReadPayload(tail[i]) == Some(values[1..][i]) {
          assert tail[i] == c[i + 1];
        }
      }
      ChainHasIsChainOf(tail, values[1..]);
      assert head[..8] == head;
      Int64OctetsRoundTrip(head);
      assert c == [CreatePayload(values[0])] + tail;
    }
  }
}
