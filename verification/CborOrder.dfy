/** The key order: a strict total order on byte strings, what it means for lookups in decoded maps, and how it
    compares with numeric order, with length-then-content order and with plain bytewise order. */
module CborOrder {
  import opened ByteStrings
  import opened CborValue
  import opened CborDecode
  import opened CborTheorems

  // ----- a strict total order

  lemma CanonicalCompareTotal(a: bytes, b: bytes)
    ensures CanonicalCompare(a, b) == 0 <==> a == b
    ensures CanonicalCompare(a, b) == -CanonicalCompare(b, a)
  {
    CompareZero(a, b);
    CompareFlip(a, b);
  }

  lemma CanonicalCompareTransitive(a: bytes, b: bytes, c: bytes)
    requires CanonicalCompare(a, b) == -1 && CanonicalCompare(b, c) == -1
    ensures CanonicalCompare(a, c) == -1
  {
    if |a| == |b| == |c| {
      CompareTransitive(a, b, c);
    }
  }

  lemma {:induction false} AscendingPairs(spans: seq<bytes>, i: nat, j: nat)
    requires Ascending(spans) && i < j < |spans|
    ensures CanonicalCompare(spans[i], spans[j]) == -1
    decreases j - i
  {
    if i + 1 < j {
      AscendingPairs(spans, i, j - 1);
      CanonicalCompareTransitive(spans[i], spans[j - 1], spans[j]);
    }
  }

  // ----- lookups

  /** The check of adjacent pairs makes all keys of a canonical map different. */
  lemma KeysDistinct(es: seq<Entry>, i: nat, j: nat)
    requires Canonical(Map(es)) && i < j < |es|
    ensures es[i].key != es[j].key
  {
    AscendingPairs(KeySpans(es), i, j);
    KeySpanAt(es, i);
    KeySpanAt(es, j);
    CanonicalCompareTotal(Encode(es[i].key), Encode(es[j].key));
  }

  /** The map that a list of entries stands for; the first entry of a key wins. */
  function Meaning(es: seq<Entry>): map<Value, Value> {
    if es == [] then map[] else Meaning(es[1..])[es[0].key := es[0].val]
  }

  function IntKey(key: int): Value {
    if key < 0 then NegInt(key) else Uint(key)
  }

  function Lookup(m: map<Value, Value>, key: Value): Option<Value> {
    if key in m then Some(m[key]) else None
  }

  /** In an acceptable map the first match is the only match: every entry is found under its own key. */
  lemma {:induction false} MeaningIsEveryEntry(es: seq<Entry>)
    requires Canonical(Map(es))
    ensures forall i | 0 <= i < |es| :: Lookup(Meaning(es), es[i].key) == Some(es[i].val)
    ensures |Meaning(es)| == |es|
  {
    if es != [] {
      TailCanonical(es);
      MeaningIsEveryEntry(es[1..]);
      MeaningKeys(es[1..], es[0].key);
      forall j | 0 <= j < |es[1..]|
        ensures es[1..][j].key != es[0].key
      {
        KeysDistinct(es, 0, j + 1);
      }
      forall i | 0 < i < |es|
        ensures Lookup(Meaning(es), es[i].key) == Some(es[i].val)
      {
        assert es[i] == es[1..][i - 1];
      }
    }
  }

  lemma TailCanonical(es: seq<Entry>)
    requires es != [] && Canonical(Map(es))
    ensures Canonical(Map(es[1..]))
  {
    forall i | 0 < i < |es[1..]|
      ensures CanonicalCompare(KeySpans(es[1..])[i - 1], KeySpans(es[1..])[i]) == -1
    {
      assert KeySpans(es[1..]) == KeySpans(es)[1..];
      assert CanonicalCompare(KeySpans(es)[i + 1 - 1], KeySpans(es)[i + 1]) == -1;
    }
  }

  lemma {:induction false} MeaningKeys(es: seq<Entry>, key: Value)
    ensures key in Meaning(es) <==> exists i :: 0 <= i < |es| && es[i].key == key
  {
    if es != [] {
      MeaningKeys(es[1..], key);
      if i :| 0 <= i < |es[1..]| && es[1..][i].key == key {
        assert es[i + 1].key == key;
      }
      forall i | 0 < i < |es|
        ensures es[1..][i - 1] == es[i]
      {
      }
    }
  }

  lemma {:induction false} FindIntIsLookup(es: seq<Entry>, key: int)
    requires CanonicalEntries(es)
    ensures FindInt(es, key) == Lookup(Meaning(es), IntKey(key))
  {
    if es != [] {
      FindIntIsLookup(es[1..], key);
      assert CanonicalEntry(es[0]) && Canonical(es[0].key);
      assert es[0].key.IsInt() && es[0].key.n == key <==> es[0].key == IntKey(key);
    }
  }

  lemma {:induction false} FindTextIsLookup(es: seq<Entry>, key: bytes)
    ensures FindText(es, key) == Lookup(Meaning(es), Text(key))
  {
    if es != [] {
      FindTextIsLookup(es[1..], key);
    }
  }

  /** On every decoded map, both first-match scans are lookup in the mathematical map of its distinct entries. */
  lemma GetIsLookup(b: bytes, key: int, text: bytes)
    requires Decode(b).Success? && Decode(b).value.val.Map?
    ensures var es := Decode(b).value.val.entries;
            && |Meaning(es)| == |es|
            && (forall i | 0 <= i < |es| :: Lookup(Meaning(es), es[i].key) == Some(es[i].val))
            && Decode(b).value.val.MapGetInt(key) == Lookup(Meaning(es), IntKey(key))
            && Decode(b).value.val.MapGetText(text) == Lookup(Meaning(es), Text(text))
  {
    var v := Decode(b).value.val;
    DecodeExact(b, v, Decode(b).value.size);
    MeaningIsEveryEntry(v.entries);
    FindIntIsLookup(v.entries, key);
    FindTextIsLookup(v.entries, text);
  }

  // ----- order correspondence

  /** Headers of one major type order as their arguments do, bytewise and canonically. */
  lemma CompareHeaders(major: nat, m: nat, n: nat)
    requires major < 8 && m < TWO_TO_THE_64 && n < TWO_TO_THE_64
    ensures Compare(Header(major, m), Header(major, n)) == Sign(m - n)
    ensures CanonicalCompare(Header(major, m), Header(major, n)) == Sign(m - n)
  {
    var i, j := ShortestInfo(m), ShortestInfo(n);
    var a, b := Header(major, m), Header(major, n);
    SmallPowers();
    if i == j && i >= 24 {
      CompareToBE(m, n, ArgWidth(i));
      CompareConcat([32 * major + i], [32 * major + i], ToBE(m, ArgWidth(i)), ToBE(n, ArgWidth(i)));
    } else {
      CompareFirst(a, b);
    }
  }

  lemma CompareFirst(a: bytes, b: bytes)
    requires a != [] && b != []
    requires a[0] != b[0] || (|a| == |b| == 1)
    ensures Compare(a, b) == if a[0] < b[0] then -1 else if a[0] == b[0] then 0 else 1
  {
  }

  /** Two scalars of one major type, with the number that orders their headers and the bytes after them. */
  predicate SameScalar(v: Value, w: Value) {
    (v.Uint? && w.Uint?) || (v.NegInt? && w.NegInt?) || (v.Bytes? && w.Bytes?) || (v.Text? && w.Text?)
  }

  function Content(v: Value): bytes {
    match v
    case Bytes(b) => b
    case Text(t) => t
    case _ => []
  }

  /** Magnitude for integers (-1 - n for negative ones), length for strings. */
  function Argument(v: Value): int {
    match v
    case Uint(n) => n
    case NegInt(n) => -1 - n
    case _ => |Content(v)|
  }

  /** For keys of one scalar type the decoder's order is: by argument, then by content; and it is also plain
      bytewise order, so sections 4.2.1 and 4.2.3 of RFC 8949 agree there. */
  lemma ScalarOrder(v: Value, w: Value)
    requires SameScalar(v, w) && Canonical(v) && Canonical(w)
    requires |Content(v)| < TWO_TO_THE_64 && |Content(w)| < TWO_TO_THE_64
    ensures CanonicalCompare(Encode(v), Encode(w)) ==
            if Argument(v) != Argument(w) then Sign(Argument(v) - Argument(w)) else Compare(Content(v), Content(w))
    ensures CanonicalCompare(Encode(v), Encode(w)) == Compare(Encode(v), Encode(w))
  {
    var major := if v.Uint? then 0 else if v.NegInt? then 1 else if v.Bytes? then 2 else 3;
    var g, h := Header(major, Argument(v)), Header(major, Argument(w));
    CompareHeaders(major, Argument(v), Argument(w));
    assert Encode(v) == g + Content(v) && Encode(w) == h + Content(w);
    if |g| == |h| {
      CompareConcat(g, h, Content(v), Content(w));
      CompareZero(g, h);
    } else {
      ShorterHeader(major, Argument(v), Argument(w));
      CompareFirst(g, h);
      CompareFirst(g + Content(v), h + Content(w));
    }
  }

  lemma ShorterHeader(major: nat, m: nat, n: nat)
    requires major < 8 && |Header(major, m)| != |Header(major, n)|
    ensures Header(major, m)[0] != Header(major, n)[0]
    ensures |Header(major, m)| < |Header(major, n)| <==> m < n
  {
  }

  /** Across two scalar types the two sections of RFC 8949 differ: bytewise order follows the major type, and the
      decoder's order agrees with it exactly when the encoding with the smaller major type is not the longer one. */
  lemma MixedOrder(v: Value, w: Value)
    requires Encode(v)[0] / 32 < Encode(w)[0] / 32
    ensures Compare(Encode(v), Encode(w)) == -1
    ensures CanonicalCompare(Encode(v), Encode(w)) == Compare(Encode(v), Encode(w)) <==> |Encode(v)| <= |Encode(w)|
  {
    CompareFirst(Encode(v), Encode(w));
  }

  /** A concrete disagreement: the two orders put 24 and -1 opposite ways round. */
  lemma MixedOrderExample()
    ensures Encode(Value.Uint(24)) == [0x18, 0x18] && Encode(Value.NegInt(-1)) == [0x20]
    ensures CanonicalCompare([0x18, 0x18], [0x20]) == 1 && Compare([0x18, 0x18], [0x20]) == -1
  {
    assert ToBE(24, 1) == ToBE(0, 0) + [24];
  }
}
