/** The two key orders on arrays and maps: bytewise order looks at the number of parts and then at the first part that
    differs, the decoder's order at the length of the whole encoding first. */
module CborContainers {
  import opened ByteStrings
  import opened CborValue
  import opened CborTheorems
  import opened CborOrder

  /** Two arrays or two maps, canonical and of a size that a header can carry. */
  predicate SameContainer(v: Value, w: Value) {
    && ((v.Array? && w.Array?) || (v.Map? && w.Map?))
    && Canonical(v) && Canonical(w) && |Encode(v)| < TWO_TO_THE_64 && |Encode(w)| < TWO_TO_THE_64
  }

  function Count(v: Value): nat {
    match v
    case Array(items) => |items|
    case Map(entries) => |entries|
    case _ => 0
  }

  /** The values inside a container in the order of their encodings: items, or keys and values in turn. */
  function Parts(v: Value): seq<Value> {
    match v
    case Array(items) => items
    case Map(entries) => Interleaved(entries)
    case _ => []
  }

  function Interleaved(es: seq<Entry>): (vs: seq<Value>)
    ensures |vs| == 2 * |es|
  {
    if es == [] then [] else [es[0].key, es[0].val] + Interleaved(es[1..])
  }

  lemma {:induction false} InterleavedEncoding(es: seq<Entry>)
    ensures EncodeItems(Interleaved(es)) == EncodeEntries(es)
    ensures CanonicalItems(Interleaved(es)) == CanonicalEntries(es)
  {
    if es != [] {
      var e, rest := es[0], Interleaved(es[1..]);
      InterleavedEncoding(es[1..]);
      assert Interleaved(es)[1..] == [e.val] + rest && ([e.val] + rest)[1..] == rest;
      Associate(Encode(e.key), Encode(e.val), EncodeItems(rest));
    }
  }

  lemma PartsEncoding(v: Value)
    requires v.Array? || v.Map?
    ensures Encode(v) == Header(if v.Array? then 4 else 5, Count(v)) + EncodeItems(Parts(v))
    ensures Canonical(v) ==> CanonicalItems(Parts(v))
  {
    if v.Map? {
      InterleavedEncoding(v.entries);
    }
  }

  /** Strings of which neither starts with the other are decided by themselves, whatever follows them. */
  lemma {:induction false} CompareApart(a: bytes, b: bytes, x: bytes, y: bytes)
    requires !(a <= b) && !(b <= a)
    ensures Compare(a + x, b + y) == Compare(a, b) != 0
  {
    if a[0] == b[0] {
      assert (a + x)[1..] == a[1..] + x && (b + y)[1..] == b[1..] + y;
      assert a == [a[0]] + a[1..] && b == [b[0]] + b[1..];
      CompareApart(a[1..], b[1..], x, y);
    }
  }

  /** Two sequences of the same length first differ at index `k`. */
  predicate DifferFirstAt(vs: seq<Value>, ws: seq<Value>, k: nat) {
    k < |vs| == |ws| && vs[..k] == ws[..k] && vs[k] != ws[k]
  }

  lemma {:induction false} FirstDifference(vs: seq<Value>, ws: seq<Value>) returns (k: nat)
    requires |vs| == |ws| && vs != ws
    ensures DifferFirstAt(vs, ws, k)
  {
    if vs[0] != ws[0] {
      k := 0;
    } else {
      assert vs == [vs[0]] + vs[1..] && ws == [ws[0]] + ws[1..];
      var j := FirstDifference(vs[1..], ws[1..]);
      k := j + 1;
      assert vs[..k] == [vs[0]] + vs[1..][..j] && ws[..k] == [ws[0]] + ws[1..][..j];
    }
  }

  /** The first values that differ decide the bytewise order. */
  lemma {:induction false} CompareItems(vs: seq<Value>, ws: seq<Value>, k: nat)
    requires CanonicalItems(vs) && CanonicalItems(ws) && DifferFirstAt(vs, ws, k)
    requires |EncodeItems(vs)| < TWO_TO_THE_64 && |EncodeItems(ws)| < TWO_TO_THE_64
    ensures Compare(EncodeItems(vs), EncodeItems(ws)) == Compare(Encode(vs[k]), Encode(ws[k]))
  {
    var a, b, x, y := Encode(vs[0]), Encode(ws[0]), EncodeItems(vs[1..]), EncodeItems(ws[1..]);
    if k == 0 {
      if a <= b {
        PrefixFree(vs[0], ws[0]);
      } else if b <= a {
        PrefixFree(ws[0], vs[0]);
      }
      CompareApart(a, b, x, y);
    } else {
      assert vs[0] == vs[..k][0] == ws[0];
      assert vs[1..][..k - 1] == vs[..k][1..] && ws[1..][..k - 1] == ws[..k][1..];
      CompareItems(vs[1..], ws[1..], k - 1);
      CompareConcat(a, b, x, y);
    }
  }

  /** Fewer parts, or as many and the first part that differs has the smaller encoding, byte by byte. */
  ghost predicate Precedes(v: Value, w: Value) {
    || Count(v) < Count(w)
    || (Count(v) == Count(w)
        && exists k: nat :: DifferFirstAt(Parts(v), Parts(w), k)
                            && Compare(Encode(Parts(v)[k]), Encode(Parts(w)[k])) == -1)
  }

  lemma CountsDecide(v: Value, w: Value)
    requires SameContainer(v, w) && Count(v) != Count(w)
    ensures Compare(Encode(v), Encode(w)) == Sign(Count(v) - Count(w))
  {
    var major := if v.Array? then 4 else 5;
    var g, h := Header(major, Count(v)), Header(major, Count(w));
    PartsEncoding(v);
    PartsEncoding(w);
    CompareHeaders(major, Count(v), Count(w));
    if |g| == |h| {
      CompareConcat(g, h, EncodeItems(Parts(v)), EncodeItems(Parts(w)));
      CompareZero(g, h);
    } else {
      ShorterHeader(major, Count(v), Count(w));
      CompareFirst(g, h);
      CompareFirst(Encode(v), Encode(w));
    }
  }

  lemma PartsDecide(v: Value, w: Value, k: nat)
    requires SameContainer(v, w) && Count(v) == Count(w) && DifferFirstAt(Parts(v), Parts(w), k)
    ensures Compare(Encode(v), Encode(w)) == Compare(Encode(Parts(v)[k]), Encode(Parts(w)[k]))
  {
    var h := Header(if v.Array? then 4 else 5, Count(v));
    PartsEncoding(v);
    PartsEncoding(w);
    CompareItems(Parts(v), Parts(w), k);
    CompareConcat(h, h, EncodeItems(Parts(v)), EncodeItems(Parts(w)));
  }

  /** Bytewise order of two arrays or two maps, and when the decoder's order agrees with it: exactly when the container
      that precedes is not the longer one. */
  lemma ContainerOrder(v: Value, w: Value)
    requires SameContainer(v, w)
    ensures Compare(Encode(v), Encode(w)) == -1 <==> Precedes(v, w)
    ensures Precedes(v, w) ==>
              (CanonicalCompare(Encode(v), Encode(w)) == Compare(Encode(v), Encode(w)) <==> |Encode(v)| <= |Encode(w)|)
  {
    if Count(v) != Count(w) {
      CountsDecide(v, w);
    } else if Parts(v) != Parts(w) {
      var k := FirstDifference(Parts(v), Parts(w));
      PartsDecide(v, w, k);
      if Precedes(v, w) {
        var j: nat :| DifferFirstAt(Parts(v), Parts(w), j) && Compare(Encode(Parts(v)[j]), Encode(Parts(w)[j])) == -1;
        PartsDecide(v, w, j);
      }
    } else {
      PartsEncoding(v);
      PartsEncoding(w);
      CompareZero(Encode(v), Encode(w));
    }
  }

  /** Two arrays on which the orders differ: [24] and [-1]. */
  lemma ContainerOrderExample()
    ensures Encode(Array([Value.Uint(24)])) == [0x81, 0x18, 0x18] && Encode(Array([Value.NegInt(-1)])) == [0x81, 0x20]
    ensures CanonicalCompare([0x81, 0x18, 0x18], [0x81, 0x20]) == 1 && Compare([0x81, 0x18, 0x18], [0x81, 0x20]) == -1
  {
    MixedOrderExample();
    assert EncodeItems([Value.Uint(24)]) == [0x18, 0x18] + [] && EncodeItems([Value.NegInt(-1)]) == [0x20] + [];
    CompareConcat([0x81], [0x81], [0x18, 0x18], [0x20]);
    assert [0x81] + [0x18, 0x18] == [0x81, 0x18, 0x18] && [0x81] + [0x20] == [0x81, 0x20];
  }
}
