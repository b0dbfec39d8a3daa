/** The canonical printer: one constructor per CBOR shape, working on already encoded parts. */
module CborEncoder {
  import opened ByteStrings
  import opened CborValue

  /** One already encoded key and value. */
  datatype EncodedEntry = EncodedEntry(key: bytes, val: bytes)

  function EncodeUint(n: nat): bytes
    requires n < TWO_TO_THE_64
  {
    Header(0, n)
  }

  /** The Go constructor panics on a value that is not negative. */
  function EncodeNegInt(v: int): bytes
    requires -TWO_TO_THE_63 <= v < 0
  {
    Header(1, -1 - v)
  }

  function EncodeBytes(b: bytes): bytes { Header(2, |b|) + b }

  function EncodeText(t: bytes): bytes { Header(3, |t|) + t }

  function EncodeBool(flag: bool): bytes { if flag then [0xf5] else [0xf4] }

  function EncodeNull(): bytes { [0xf6] }

  function Concat(items: seq<bytes>): bytes {
    if items == [] then [] else items[0] + Concat(items[1..])
  }

  function ConcatEntries(entries: seq<EncodedEntry>): bytes {
    if entries == [] then [] else entries[0].key + entries[0].val + ConcatEntries(entries[1..])
  }

  function ArrayOf(items: seq<bytes>): bytes { Header(4, |items|) + Concat(items) }

  function MapOf(entries: seq<EncodedEntry>): bytes { Header(5, |entries|) + ConcatEntries(entries) }

  // ----- the loops of the printer

  /** Writes the low `width` bytes of `n` big-endian from index `at` on, as PutUint16, PutUint32 and PutUint64 do. */
  method PutUint(buf: array<byte>, at: nat, n: nat, width: nat)
    requires at + width <= buf.Length
    modifies buf
    ensures buf[at..at + width] == ToBE(n, width)
    ensures buf[..at] == old(buf[..at]) && buf[at + width..] == old(buf[at + width..])
  {
    var rest, i := n, width;
    ghost var tail: bytes := [];
    while i > 0
      invariant 0 <= i <= width
      invariant ToBE(n, width) == ToBE(rest, i) + tail
      invariant buf[at + i..at + width] == tail
      invariant buf[..at] == old(buf[..at]) && buf[at + width..] == old(buf[at + width..])
    {
      i := i - 1;
      buf[at + i] := rest % 256;
      tail := [rest % 256] + tail;
      rest := rest / 256;
      assert buf[at + i..at + width] == [buf[at + i]] + buf[at + i + 1..at + width];
    }
  }

  method EncodeHeader(major: nat, arg: nat) returns (r: bytes)
    requires major < 8 && arg < TWO_TO_THE_64
    ensures r == Header(major, arg)
  {
    var b := 32 * major;
    if arg < 24 {
      return [b + arg];
    } else if arg <= 0xff {
      assert ToBE(arg, 1) == ToBE(0, 0) + [arg];
      return [b + 24, arg];
    } else if arg <= 0xffff {
      var buf := new byte[3];
      buf[0] := b + 25;
      PutUint(buf, 1, arg, 2);
      assert buf[0] == buf[..1][0];
      return buf[..];
    } else if arg <= 0xffff_ffff {
      var buf := new byte[5];
      buf[0] := b + 26;
      PutUint(buf, 1, arg, 4);
      assert buf[0] == buf[..1][0];
      return buf[..];
    } else {
      var buf := new byte[9];
      buf[0] := b + 27;
      PutUint(buf, 1, arg, 8);
      assert buf[0] == buf[..1][0];
      return buf[..];
    }
  }

  method EncodeArray(items: seq<bytes>) returns (out: bytes)
    requires |items| < TWO_TO_THE_64
    ensures out == ArrayOf(items)
  {
    out := EncodeHeader(4, |items|);
    for i := 0 to |items|
      invariant out + Concat(items[i..]) == ArrayOf(items)
    {
      assert items[i..][1..] == items[i + 1..];
      assert out + (items[i] + Concat(items[i + 1..])) == out + items[i] + Concat(items[i + 1..]);
      out := out + items[i];
    }
    assert out + [] == out;
  }

  method EncodeMap(entries: seq<EncodedEntry>) returns (out: bytes)
    requires |entries| < TWO_TO_THE_64
    ensures out == MapOf(entries)
  {
    out := EncodeHeader(5, |entries|);
    for i := 0 to |entries|
      invariant out + ConcatEntries(entries[i..]) == MapOf(entries)
    {
      var e, rest := entries[i], ConcatEntries(entries[i + 1..]);
      assert entries[i..][1..] == entries[i + 1..];
      assert out + (e.key + e.val + rest) == out + e.key + e.val + rest;
      out := out + e.key;
      out := out + e.val;
    }
    assert out + [] == out;
  }

  // ----- the printer composes to the canonical encoding

  lemma {:induction false} ConcatEncoded(parts: seq<bytes>, vs: seq<Value>)
    requires |parts| == |vs| && forall i | 0 <= i < |vs| :: parts[i] == Encode(vs[i])
    ensures Concat(parts) == EncodeItems(vs)
  {
    if vs != [] {
      ConcatEncoded(parts[1..], vs[1..]);
    }
  }

  lemma {:induction false} ConcatEncodedEntries(parts: seq<EncodedEntry>, es: seq<Entry>)
    requires |parts| == |es|
    requires forall i | 0 <= i < |es| :: parts[i] == EncodedEntry(Encode(es[i].key), Encode(es[i].val))
    ensures ConcatEntries(parts) == EncodeEntries(es)
  {
    if es != [] {
      ConcatEncodedEntries(parts[1..], es[1..]);
    }
  }

  /** The scalar constructors print canonical encodings. */
  lemma ScalarsPrint(n: nat, v: int, s: bytes, flag: bool)
    requires n < TWO_TO_THE_64 && -TWO_TO_THE_63 <= v < 0
    ensures EncodeUint(n) == Encode(Uint(n)) && EncodeNegInt(v) == Encode(NegInt(v))
    ensures EncodeBytes(s) == Encode(Bytes(s)) && EncodeText(s) == Encode(Text(s))
    ensures EncodeBool(flag) == Encode(Bool(flag)) && EncodeNull() == Encode(Null)
  {
  }

  /** Printing an array from its printed items gives the canonical encoding of the array. */
  lemma ArrayOfEncodings(parts: seq<bytes>, vs: seq<Value>)
    requires |parts| == |vs| && forall i | 0 <= i < |vs| :: parts[i] == Encode(vs[i])
    ensures ArrayOf(parts) == Encode(Array(vs))
  {
    ConcatEncoded(parts, vs);
  }

  /** Printing a map from its printed entries gives the canonical encoding of the map. */
  lemma MapOfEncodings(parts: seq<EncodedEntry>, es: seq<Entry>)
    requires |parts| == |es|
    requires forall i | 0 <= i < |es| :: parts[i] == EncodedEntry(Encode(es[i].key), Encode(es[i].val))
    ensures MapOf(parts) == Encode(Map(es))
  {
    ConcatEncodedEntries(parts, es);
  }
}
