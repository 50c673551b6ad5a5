/** A differencing chain as a value: the leaf first, every parent after its child. */
module Chains {
  import opened Bytes
  import opened Format
  import opened Blocks

  datatype Layer =
    | FixedLayer(size: nat, bytes: seq<byte>)
    | SparseLayer(size: nat, l: Layout, bytes: seq<byte>, bat: seq<nat>)
  {
    ghost predicate Valid() {
      SparseLayer? ==> l.Valid() && size == l.virtualSize && |bat| == l.entries
    }

    /** The image itself holds byte `v`: a fixed image holds all, a sparse one the sectors
        whose bit is set in an allocated block. */
    ghost predicate Holds(v: nat)
      requires Valid()
    {
      && v < size
      && (SparseLayer? ==>
            var e := EntryOf(bat, BlockIndex(l, v));
            e != UNALLOCATED && Present(bytes, Home(e), InBlock(l, v) / SECTOR))
    }

    /** The byte the image holds for `v`, straight from its device. */
    ghost function Own(v: nat): byte
      requires Valid() && Holds(v)
    {
      match this
      case FixedLayer(_, bytes) => At(bytes, v)
      case SparseLayer(_, l, bytes, bat) => Datum(l, bytes, Home(EntryOf(bat, BlockIndex(l, v))), InBlock(l, v))
    }
  }

  ghost predicate ValidChain(chain: seq<Layer>) {
    forall i :: 0 <= i < |chain| ==> chain[i].Valid()
  }

  /** Byte `v` as a read that defers from image to image resolves it; past the end of an image on
      the way down there is nothing but zero. */
  ghost function ChainByte(chain: seq<Layer>, v: nat): byte
    requires ValidChain(chain)
    decreases |chain|
  {
    if chain == [] || v >= chain[0].size then 0
    else
      match chain[0]
      case FixedLayer(_, bytes) => At(bytes, v)
      case SparseLayer(_, l, bytes, bat) => OverlayByte(l, bytes, bat, v, ChainByte(chain[1..], v))
  }

  /** The first `k` images all reach past `v` and none of them holds it. */
  ghost predicate PassedOver(chain: seq<Layer>, v: nat, k: nat)
    requires ValidChain(chain) && k <= |chain|
  {
    forall i :: 0 <= i < k ==> v < chain[i].size && !chain[i].Holds(v)
  }

  /** Reading a chain is reading the flattened image: the byte of the first image, leaf
      first, that holds the sector, and zero when an image on the way down ends before it
      or when the chain does. */
  lemma {:induction false} ChainIsFlattened(chain: seq<Layer>, v: nat, k: nat)
    requires ValidChain(chain) && k <= |chain| && PassedOver(chain, v, k)
    ensures k == |chain| || v >= chain[k].size ==> ChainByte(chain, v) == 0
    ensures k < |chain| && chain[k].Holds(v) ==> ChainByte(chain, v) == chain[k].Own(v)
    decreases k
  {
    if k > 0 {
      var rest := chain[1..];
      forall i | 0 <= i < k - 1 ensures v < rest[i].size && !rest[i].Holds(v) {
        assert rest[i] == chain[i + 1];
      }
      ChainIsFlattened(rest, v, k - 1);
      assert !chain[0].Holds(v) && chain[0].SparseLayer?;
      assert k < |chain| ==> rest[k - 1] == chain[k];
    }
  }

  /** There is always such a first image, or the chain runs out. */
  lemma {:induction false} SomeLayerDecides(chain: seq<Layer>, v: nat) returns (k: nat)
    requires ValidChain(chain)
    ensures k <= |chain| && PassedOver(chain, v, k)
    ensures k < |chain| ==> v >= chain[k].size || chain[k].Holds(v)
    decreases |chain|
  {
    if chain == [] || v >= chain[0].size || chain[0].Holds(v) {
      k := 0;
    } else {
      var rest := chain[1..];
      var j := SomeLayerDecides(rest, v);
      k := j + 1;
      forall i | 0 <= i < k ensures v < chain[i].size && !chain[i].Holds(v) {
        if i > 0 {
          assert chain[i] == rest[i - 1];
        }
      }
    }
  }

  /** A dynamic image is a chain of one: its disk is the flat one the writer describes. */
  lemma SingleLayerIsFlat(l: Layout, bytes: seq<byte>, bat: seq<nat>, v: nat)
    requires l.Valid() && |bat| == l.entries && v < l.virtualSize
    ensures ChainByte([SparseLayer(l.virtualSize, l, bytes, bat)], v) == Flat(l, bytes, bat)[v]
  {
    var chain := [SparseLayer(l.virtualSize, l, bytes, bat)];
    assert chain[1..] == [];
    assert ChainByte(chain[1..], v) == 0;
  }
}
