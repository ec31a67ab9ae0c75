/** Token estimation as the three clients do it: the tiktoken encoder when
    one could be loaded, otherwise one token per four characters. */
module Tokens {

  /** The tokenizer a client ended up with. `Encoder` is the tiktoken
      `cl100k_base` encoding, kept abstract as the function it computes. */
  datatype Tokenizer = NoEncoder | Encoder(encode: string -> seq<int>)

  /** `estimate_tokens(text)`. */
  function Estimate(t: Tokenizer, text: string): (r: nat)
    ensures t.NoEncoder? ==> 4 * r <= |text| < 4 * r + 4
    ensures t.Encoder? ==> r == |t.encode(text)|
  {
    match t
    case NoEncoder => |text| / 4
    case Encoder(encode) => |encode(text)|
  }

  /** Without an encoder the estimate never decreases as the text grows. */
  lemma EstimateMonotone(a: string, b: string)
    requires |a| <= |b|
    ensures Estimate(NoEncoder, a) <= Estimate(NoEncoder, b)
  {
    var ra := Estimate(NoEncoder, a);
    var rb := Estimate(NoEncoder, b);
    assert 4 * ra <= |a| <= |b| < 4 * rb + 4;
  }
}
