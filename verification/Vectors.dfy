/** Published examples, as a check that the formats modelled here are the ones their standards define. */
module Vectors {
  import opened ByteStrings
  import opened CborValue
  import Base64

  lemma OneByte(n: nat)
    requires n < 256
    ensures ToBE(n, 1) == [n]
  {
    assert ToBE(n, 1) == ToBE(n / 256, 0) + [n % 256];
  }

  /** The last byte of a big-endian number. */
  lemma LastByte(n: nat, width: nat, high: nat, low: byte)
    requires width > 0 && n / 256 == high && n % 256 == low as int
    ensures ToBE(n, width) == ToBE(high, width - 1) + [low]
  {
  }

  /** Integers of appendix A of RFC 8949, one for each header width and sign. */
  lemma CborIntegers()
    ensures Encode(Uint(0)) == [0x00] && Encode(Uint(10)) == [0x0a] && Encode(Uint(23)) == [0x17]
    ensures Encode(Uint(24)) == [0x18, 0x18] && Encode(Uint(100)) == [0x18, 0x64]
    ensures Encode(NegInt(-1)) == [0x20] && Encode(NegInt(-10)) == [0x29] && Encode(NegInt(-100)) == [0x38, 0x63]
  {
    OneByte(24);
    OneByte(100);
    OneByte(99);
  }

  lemma CborTwoByteIntegers()
    ensures Encode(Uint(1000)) == [0x19, 0x03, 0xe8] && Encode(NegInt(-1000)) == [0x39, 0x03, 0xe7]
  {
    OneByte(3);
    LastByte(1000, 2, 3, 0xe8);
    LastByte(999, 2, 3, 0xe7);
  }

  lemma CborFourByteInteger()
    ensures Encode(Uint(1000000)) == [0x1a, 0x00, 0x0f, 0x42, 0x40]
  {
    OneByte(0);
    LastByte(15, 2, 0, 0x0f);
    LastByte(0x0f42, 3, 0x0f, 0x42);
    LastByte(1000000, 4, 0x0f42, 0x40);
  }

  lemma CborEightByteInteger()
    ensures Encode(Uint(1000000000000)) == [0x1b, 0x00, 0x00, 0x00, 0xe8, 0xd4, 0xa5, 0x10, 0x00]
  {
    OneByte(0);
    LastByte(0, 2, 0, 0x00);
    LastByte(0, 3, 0, 0x00);
    LastByte(0xe8, 4, 0, 0xe8);
    LastByte(0xe8d4, 5, 0xe8, 0xd4);
    LastByte(0xe8d4a5, 6, 0xe8d4, 0xa5);
    LastByte(0xe8d4a510, 7, 0xe8d4a5, 0x10);
    LastByte(1000000000000, 8, 0xe8d4a510, 0x00);
  }

  /** Strings and simple values of the same appendix. */
  lemma CborStrings()
    ensures Encode(Bytes([])) == [0x40] && Encode(Bytes([1, 2, 3, 4])) == [0x44, 0x01, 0x02, 0x03, 0x04]
    ensures Encode(Text([])) == [0x60] && Encode(Text(Ascii("IETF"))) == [0x64, 0x49, 0x45, 0x54, 0x46]
    ensures Encode(Bool(false)) == [0xf4] && Encode(Bool(true)) == [0xf5] && Encode(Null) == [0xf6]
  {
    assert Ascii("IETF") == [0x49, 0x45, 0x54, 0x46];
  }

  lemma Small(n: nat)
    requires n < 24
    ensures Encode(Uint(n)) == [n]
  {
  }

  /** Arrays and maps of the same appendix. */
  lemma CborArrays()
    ensures Encode(Array([])) == [0x80] && Encode(Array([Uint(1), Uint(2), Uint(3)])) == [0x83, 0x01, 0x02, 0x03]
  {
    ThreeItems(Uint(1), Uint(2), Uint(3));
    Small(1);
    Small(2);
    Small(3);
  }

  lemma CborMaps()
    ensures Encode(Map([])) == [0xa0]
    ensures Encode(Map([Entry(Uint(1), Uint(2)), Entry(Uint(3), Uint(4))])) == [0xa2, 0x01, 0x02, 0x03, 0x04]
  {
    TwoEntries(Entry(Uint(1), Uint(2)), Entry(Uint(3), Uint(4)));
    Small(1);
    Small(2);
    Small(3);
    Small(4);
  }

  lemma ThreeItems(u: Value, v: Value, w: Value)
    ensures EncodeItems([u, v, w]) == Encode(u) + (Encode(v) + Encode(w))
  {
    ItemsCons(w, []);
    ItemsCons(v, [w]);
    ItemsCons(u, [v, w]);
    assert [u] + [v, w] == [u, v, w] && [v] + [w] == [v, w] && [w] + [] == [w];
  }

  lemma TwoEntries(e: Entry, f: Entry)
    ensures EncodeEntries([e, f]) == EncodeEntry(e) + EncodeEntry(f)
  {
    EntriesCons(f, []);
    EntriesCons(e, [f]);
    assert [e] + [f] == [e, f] && [f] + [] == [f];
  }

  lemma ItemsCons(v: Value, rest: seq<Value>)
    ensures EncodeItems([v] + rest) == Encode(v) + EncodeItems(rest)
  {
    assert ([v] + rest)[1..] == rest;
  }

  lemma EntriesCons(e: Entry, rest: seq<Entry>)
    ensures EncodeEntries([e] + rest) == EncodeEntry(e) + EncodeEntries(rest)
  {
    assert ([e] + rest)[1..] == rest;
  }

  /** The examples of section 10 of RFC 4648, and one for the last two characters of the alphabet. */
  lemma Base64Short()
    ensures Base64.EncodeToString([]) == "" && Base64.EncodeToString([0x66]) == "Zg=="
    ensures Base64.EncodeToString([0x66, 0x6f]) == "Zm8=" && Base64.EncodeToString([0xfb, 0xff]) == "+/8="
  {
  }

  lemma Base64Group(rest: bytes)
    ensures Base64.EncodeToString([0x66, 0x6f, 0x6f] + rest) == "Zm9v" + Base64.EncodeToString(rest)
  {
    assert ([0x66, 0x6f, 0x6f] + rest)[3..] == rest;
  }

  lemma Base64Tails()
    ensures Base64.EncodeToString([0x62]) == "Yg==" && Base64.EncodeToString([0x62, 0x61]) == "YmE="
    ensures Base64.EncodeToString([0x62, 0x61, 0x72]) == "YmFy"
  {
    assert [0x62, 0x61, 0x72][3..] == [];
  }

  lemma Base64Long()
    ensures Base64.EncodeToString([0x66, 0x6f, 0x6f]) == "Zm9v"
    ensures Base64.EncodeToString([0x66, 0x6f, 0x6f] + [0x62]) == "Zm9vYg=="
    ensures Base64.EncodeToString([0x66, 0x6f, 0x6f] + [0x62, 0x61]) == "Zm9vYmE="
    ensures Base64.EncodeToString([0x66, 0x6f, 0x6f] + [0x62, 0x61, 0x72]) == "Zm9vYmFy"
  {
    Base64Tails();
    Base64Group([]);
    Base64Group([0x62]);
    Base64Group([0x62, 0x61]);
    Base64Group([0x62, 0x61, 0x72]);
    assert [0x66, 0x6f, 0x6f] + [] == [0x66, 0x6f, 0x6f];
  }
}
