/** Which bytes are authenticator data, byte by byte, and which error the others give. */
module AuthDataExact {
  import opened ByteStrings
  import opened CborValue
  import AuthData

  function One(bit: bool): nat { if bit then 1 else 0 }

  /** The flag byte of section 6.1; bits 1 and 5 are reserved. */
  function Flags(d: AuthData.Data, r1: bool, r5: bool): nat {
    One(d.up) + 0x02 * One(r1) + 0x04 * One(d.uv) + 0x08 * One(d.be)
    + 0x10 * One(d.bs) + 0x20 * One(r5) + 0x40 * One(d.at) + 0x80 * One(d.ed)
  }

  predicate SoundKey(a: AuthData.Attested) {
    |a.aaguid| == 16 && |a.credId| < 65536 && a.key.Map? && Acceptable(a.key) && a.keyRaw == Encode(a.key)
  }

  function AttestedBytes(a: AuthData.Attested): bytes {
    a.aaguid + ToBE(|a.credId|, 2) + a.credId + Encode(a.key)
  }

  /** The bytes of attested credential data and of extensions, each if it is there. */
  function KeyPart(d: AuthData.Data): bytes { if d.attested.Some? then AttestedBytes(d.attested.value) else [] }

  function ExtensionPart(d: AuthData.Data): bytes { if d.extensions.Some? then Encode(d.extensions.value) else [] }

  /** Rp ID hash, flags, big-endian count, then what the AT and ED flags announce, and nothing more. The embedded items
      and what follows them are within the decoder's size limit. */
  ghost predicate WrittenOut(b: bytes, d: AuthData.Data) {
    && |d.rpIdHash| == 32 && d.signCount < 0x1_0000_0000
    && d.at == d.attested.Some? && d.ed == d.extensions.Some?
    && (d.at ==> SoundKey(d.attested.value))
    && (d.ed ==> d.extensions.value.Map? && Acceptable(d.extensions.value))
    && (if d.at then |Encode(d.attested.value.key)| else 0) + |ExtensionPart(d)| <= 1048576
    && exists r1, r5, f: byte ::
         f == Flags(d, r1, r5) && b == d.rpIdHash + [f] + ToBE(d.signCount, 4) + KeyPart(d) + ExtensionPart(d)
  }

  lemma LowBit(bit: bool, rest: seq<bool>)
    ensures AuthData.FromBits([bit] + rest) == One(bit) + 2 * AuthData.FromBits(rest)
  {
    assert ([bit] + rest)[1..] == rest;
  }

  lemma FourBits(b0: bool, b1: bool, b2: bool, b3: bool, rest: seq<bool>)
    ensures AuthData.FromBits([b0, b1, b2, b3] + rest)
            == One(b0) + 2 * One(b1) + 4 * One(b2) + 8 * One(b3) + 16 * AuthData.FromBits(rest)
  {
    LowBit(b3, rest);
    LowBit(b2, [b3] + rest);
    LowBit(b1, [b2] + ([b3] + rest));
    LowBit(b0, [b1] + ([b2] + ([b3] + rest)));
    assert [b0, b1, b2, b3] + rest == [b0] + ([b1] + ([b2] + ([b3] + rest)));
  }

  lemma FlagsExact(d: AuthData.Data, r1: bool, r5: bool)
    ensures AuthData.FlagByte(d, r1, r5) == Flags(d, r1, r5)
  {
    var low, high := [d.up, r1, d.uv, d.be], [d.bs, r5, d.at, d.ed] + [];
    FourBits(d.bs, r5, d.at, d.ed, []);
    FourBits(d.up, r1, d.uv, d.be, high);
    assert low + high == [d.up, r1, d.uv, d.be, d.bs, r5, d.at, d.ed];
  }

  lemma BuildExact(d: AuthData.Data, r1: bool, r5: bool)
    requires d.at == d.attested.Some? && (d.at ==> d.attested.value.keyRaw == Encode(d.attested.value.key))
    ensures AuthData.Build(d, r1, r5)
            == d.rpIdHash + [AuthData.FlagByte(d, r1, r5)] + ToBE(d.signCount, 4) + KeyPart(d) + ExtensionPart(d)
  {
  }

  lemma ValidExact(d: AuthData.Data)
    ensures (AuthData.ValidData(d) && AuthData.CborTail(d) <= MAX_INPUT_SIZE) <==>
            && |d.rpIdHash| == 32 && d.signCount < 0x1_0000_0000
            && d.at == d.attested.Some? && d.ed == d.extensions.Some?
            && (d.at ==> SoundKey(d.attested.value))
            && (d.ed ==> d.extensions.value.Map? && Acceptable(d.extensions.value))
            && (if d.at then |Encode(d.attested.value.key)| else 0) + |ExtensionPart(d)| <= 1048576
  {
  }

  /** Parsing succeeds exactly on bytes written out like this. */
  lemma ParseWritten(b: bytes, d: AuthData.Data)
    ensures AuthData.Parse(b) == Success(d) <==> WrittenOut(b, d)
  {
    AuthData.ParseExact(b, d);
    ValidExact(d);
    if AuthData.ValidData(d) {
      forall r1, r5
        ensures AuthData.FlagByte(d, r1, r5) == Flags(d, r1, r5)
        ensures AuthData.Build(d, r1, r5)
                == d.rpIdHash + [AuthData.FlagByte(d, r1, r5)] + ToBE(d.signCount, 4) + KeyPart(d) + ExtensionPart(d)
      {
        FlagsExact(d, r1, r5);
        BuildExact(d, r1, r5);
      }
    }
  }

  /** The header is not complete, or the AT flag is set and AAGUID, length or credential ID are not. */
  predicate CutShort(b: bytes) {
    |b| < 37 || (b[32] / 0x40 % 2 == 1 && (|b| < 55 || |b| < 55 + 256 * (b[53] as int) + b[54] as int))
  }

  lemma BitSix(f: byte)
    ensures AuthData.Bit(f, 6) <==> f / 0x40 % 2 == 1
  {
    assert AuthData.BitsOf(f, 8)[6] == AuthData.BitsOf(f / 2, 7)[5];
    assert AuthData.BitsOf(f / 2, 7)[5] == AuthData.BitsOf(f / 2 / 2, 6)[4];
    assert AuthData.BitsOf(f / 2 / 2, 6)[4] == AuthData.BitsOf(f / 2 / 2 / 2, 5)[3];
    assert AuthData.BitsOf(f / 2 / 2 / 2, 5)[3] == AuthData.BitsOf(f / 2 / 2 / 2 / 2, 4)[2];
    assert AuthData.BitsOf(f / 2 / 2 / 2 / 2, 4)[2] == AuthData.BitsOf(f / 2 / 2 / 2 / 2 / 2, 3)[1];
    assert AuthData.BitsOf(f / 2 / 2 / 2 / 2 / 2, 3)[1] == AuthData.BitsOf(f / 2 / 2 / 2 / 2 / 2 / 2, 2)[0];
  }

  lemma TwoBytes(s: bytes)
    requires |s| == 2
    ensures FromBE(s) == 256 * (s[0] as int) + s[1] as int
  {
    assert s[..1] == [s[0]] && [s[0]][..0] == [];
    assert FromBE([s[0]]) == 256 * FromBE([]) + s[0];
  }

  /** Input that ends early is truncated; all other input that is not written out like this is malformed. */
  lemma ParseErrorsExact(b: bytes)
    ensures AuthData.Parse(b) == Failure(AuthData.Truncated) <==> CutShort(b)
    ensures AuthData.Parse(b) == Failure(AuthData.Malformed) <==> !CutShort(b) && !exists d :: WrittenOut(b, d)
  {
    if |b| >= 37 {
      BitSix(b[32]);
      if |b| >= 55 {
        TwoBytes(b[53..55]);
      }
    }
    forall d
      ensures AuthData.Parse(b) == Success(d) <==> WrittenOut(b, d)
    {
      ParseWritten(b, d);
    }
    if AuthData.Parse(b).Success? {
      assert WrittenOut(b, AuthData.Parse(b).value);
    }
  }
}
