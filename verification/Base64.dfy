/** Standard padded base64, which turns a credential ID into the key of its entry in the store file. */
module Base64 {
  import opened ByteStrings

  function Char(i: nat): char
    requires i < 64
  {
    if i < 26 then ('A' as int + i) as char
    else if i < 52 then ('a' as int + i - 26) as char
    else if i < 62 then ('0' as int + i - 52) as char
    else if i == 62 then '+'
    else '/'
  }

  lemma CharInjective(i: nat, j: nat)
    requires i < 64 && j < 64
    ensures Char(i) == Char(j) ==> i == j
    ensures Char(i) != '='
  {
  }

  function EncodeToString(b: bytes): string {
    if b == [] then []
    else if |b| == 1 then [Char(b[0] / 4), Char(b[0] % 4 * 16), '=', '=']
    else if |b| == 2 then [Char(b[0] / 4), Char(b[0] % 4 * 16 + b[1] / 16), Char(b[1] % 16 * 4), '=']
    else
      [Char(b[0] / 4), Char(b[0] % 4 * 16 + b[1] / 16), Char(b[1] % 16 * 4 + b[2] / 64), Char(b[2] % 64)]
      + EncodeToString(b[3..])
  }

  /** The four digits of a group, with zeros for the bytes a short group lacks. */
  lemma GroupInjective(a0: byte, a1: byte, a2: byte, b0: byte, b1: byte, b2: byte)
    requires a0 / 4 == b0 / 4 && a0 % 4 * 16 + a1 / 16 == b0 % 4 * 16 + b1 / 16
    requires a1 % 16 * 4 + a2 / 64 == b1 % 16 * 4 + b2 / 64 && a2 % 64 == b2 % 64
    ensures a0 == b0 && a1 == b1 && a2 == b2
  {
  }

  function ByteAt(b: bytes, i: nat): byte { if i < |b| then b[i] else 0 }

  /** Different byte strings have different encodings. */
  lemma {:induction false} EncodeInjective(a: bytes, b: bytes)
    requires EncodeToString(a) == EncodeToString(b)
    ensures a == b
  {
    var s, t := EncodeToString(a), EncodeToString(b);
    if a != [] && b != [] {
      Groups(a);
      Groups(b);
      SameGroup(a, b);
      if |a| >= 3 {
        assert s[4..] == EncodeToString(a[3..]) && t[4..] == EncodeToString(b[3..]);
        EncodeInjective(a[3..], b[3..]);
      }
      SameBytes(a, b);
    }
  }

  lemma SameBytes(a: bytes, b: bytes)
    requires |a| == |b| || (|a| >= 3 && |b| >= 3)
    requires forall i | 0 <= i < 3 :: ByteAt(a, i) == ByteAt(b, i)
    requires |a| >= 3 && |b| >= 3 ==> a[3..] == b[3..]
    ensures a == b
  {
    if |a| >= 3 {
      assert a[..3] == [ByteAt(a, 0), ByteAt(a, 1), ByteAt(a, 2)];
      assert b[..3] == [ByteAt(b, 0), ByteAt(b, 1), ByteAt(b, 2)];
      assert a == a[..3] + a[3..] && b == b[..3] + b[3..];
    } else {
      assert forall i | 0 <= i < |a| :: a[i] == ByteAt(a, i) == ByteAt(b, i);
    }
  }

  lemma Groups(b: bytes)
    requires b != []
    ensures var s := EncodeToString(b);
            && |s| >= 4
            && s[0] == Char(b[0] / 4)
            && s[1] == Char(b[0] % 4 * 16 + ByteAt(b, 1) / 16)
            && s[2] == (if |b| == 1 then '=' else Char(b[1] % 16 * 4 + ByteAt(b, 2) / 64))
            && s[3] == (if |b| <= 2 then '=' else Char(b[2] % 64))
  {
  }

  lemma SameGroup(a: bytes, b: bytes)
    requires a != [] && b != []
    requires Char(a[0] / 4) == Char(b[0] / 4)
    requires Char(a[0] % 4 * 16 + ByteAt(a, 1) / 16) == Char(b[0] % 4 * 16 + ByteAt(b, 1) / 16)
    requires (if |a| == 1 then '=' else Char(a[1] % 16 * 4 + ByteAt(a, 2) / 64))
          == (if |b| == 1 then '=' else Char(b[1] % 16 * 4 + ByteAt(b, 2) / 64))
    requires (if |a| <= 2 then '=' else Char(a[2] % 64)) == (if |b| <= 2 then '=' else Char(b[2] % 64))
    ensures |a| == |b| || (|a| >= 3 && |b| >= 3)
    ensures forall i | 0 <= i < 3 :: ByteAt(a, i) == ByteAt(b, i)
  {
    CharInjective(a[0] / 4, b[0] / 4);
    CharInjective(a[0] % 4 * 16 + ByteAt(a, 1) / 16, b[0] % 4 * 16 + ByteAt(b, 1) / 16);
    CharInjective(ByteAt(a, 1) % 16 * 4 + ByteAt(a, 2) / 64, ByteAt(b, 1) % 16 * 4 + ByteAt(b, 2) / 64);
    CharInjective(ByteAt(a, 2) % 64, ByteAt(b, 2) % 64);
    GroupInjective(ByteAt(a, 0), ByteAt(a, 1), ByteAt(a, 2), ByteAt(b, 0), ByteAt(b, 1), ByteAt(b, 2));
  }
}
