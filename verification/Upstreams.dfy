/** The upstream record that both weighted selectors share and update in place. */
module Upstreams {
  import opened Int32
  import opened Health

  class Upstream {
    const kind: Kind
    const url: string
    const weight: int32
    var effectiveWeight: int32
    var currentWeight: int32

    constructor (kind: Kind, url: string, weight: int32)
      ensures this.kind == kind && this.url == url && this.weight == weight
      ensures effectiveWeight == weight && currentWeight == 0
    {
      this.kind, this.url, this.weight := kind, url, weight;
      effectiveWeight, currentWeight := weight, 0;
    }

    /** Add the amount, then store the bound if the sum crossed it. */
    method Adjust(delta: int)
      modifies this`effectiveWeight
      ensures effectiveWeight == Settle(Wrapping, weight, old(effectiveWeight), delta)
    {
      effectiveWeight := Norm(Wrapping, effectiveWeight + delta);
      if delta < 0 {
        if effectiveWeight < 1 {
          effectiveWeight := 1;
        }
      } else if effectiveWeight > weight {
        effectiveWeight := weight;
      }
    }
  }

  /** The effective weights of all upstreams, as a value. */
  ghost function EffectiveWeights(upstreams: seq<Upstream>): (w: seq<int>)
    reads upstreams
    ensures |w| == |upstreams|
    ensures forall i :: 0 <= i < |w| ==> w[i] == upstreams[i].effectiveWeight
  {
    seq(|upstreams|, i requires 0 <= i < |upstreams| reads upstreams => upstreams[i].effectiveWeight)
  }

  ghost function ConfiguredWeights(upstreams: seq<Upstream>): (w: seq<int>)
    ensures |w| == |upstreams|
    ensures forall i :: 0 <= i < |w| ==> w[i] == upstreams[i].weight
  {
    seq(|upstreams|, i requires 0 <= i < |upstreams| => upstreams[i].weight)
  }

  /** Kind and address of every upstream. */
  ghost function Names(upstreams: seq<Upstream>): (names: seq<(Kind, string)>)
    ensures |names| == |upstreams|
    ensures forall i :: 0 <= i < |names| ==> names[i] == (upstreams[i].kind, upstreams[i].url)
  {
    seq(|upstreams|, i requires 0 <= i < |upstreams| => (upstreams[i].kind, upstreams[i].url))
  }

  /** One upstream of the client's configuration. */
  datatype Detail = Detail(url: string, weight: int32)

  ghost function WeightsOf(details: seq<Detail>): (w: seq<int>)
    ensures |w| == |details|
    ensures forall i :: 0 <= i < |w| ==> w[i] == details[i].weight
  {
    seq(|details|, i requires 0 <= i < |details| => details[i].weight)
  }

  ghost function NamesOf(kind: Kind, details: seq<Detail>): (names: seq<(Kind, string)>)
    ensures |names| == |details|
    ensures forall i :: 0 <= i < |names| ==> names[i] == (kind, details[i].url)
  {
    seq(|details|, i requires 0 <= i < |details| => (kind, details[i].url))
  }
}
