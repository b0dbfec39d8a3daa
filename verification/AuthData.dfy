/** The authenticatorData structure of Web Authentication Level 2, section 6.1: a fixed header, and attested
    credential data and extensions present exactly when their flag bits say so. */
module AuthData {
  import opened ByteStrings
  import opened CborValue
  import CborDecode
  import opened CborTheorems

  const RP_ID_HASH_LEN := 32
  const FIXED_HEADER_LEN := 37
  const AAGUID_LEN := 16
  const CRED_ID_LEN_LEN := 2

  datatype Error = Truncated | Malformed

  /** The key is the decoded COSE_Key map, and `keyRaw` the exact bytes it was decoded from. */
  datatype Attested = Attested(aaguid: bytes, credId: bytes, key: Value, keyRaw: bytes)

  datatype Data = Data(
    rpIdHash: bytes, signCount: nat,
    up: bool, uv: bool, be: bool, bs: bool, at: bool, ed: bool,
    attested: Option<Attested>, extensions: Option<Value>)

  /** The lowest `n` bits of a number, least significant first. */
  function BitsOf(f: nat, n: nat): (bits: seq<bool>)
    ensures |bits| == n
  {
    if n == 0 then [] else [f % 2 == 1] + BitsOf(f / 2, n - 1)
  }

  predicate Bit(flags: byte, k: nat)
    requires k < 8
  {
    BitsOf(flags, 8)[k]
  }

  // ----- parsing

  function ParseAttested(b: bytes, pos: nat): (r: Result<(Attested, nat), Error>)
    ensures r.Success? ==> pos <= r.value.1 <= |b|
  {
    if |b| < pos + AAGUID_LEN + CRED_ID_LEN_LEN then Failure(Truncated)
    else
      var idStart := pos + AAGUID_LEN + CRED_ID_LEN_LEN;
      var idLen := FromBE(b[pos + AAGUID_LEN..idStart]);
      if |b| < idStart + idLen then Failure(Truncated)
      else
        match CborDecode.Decode(b[idStart + idLen..])
        case Failure(_) => Failure(Malformed)
        case Success(Item(key, n)) =>
          if !key.Map? then Failure(Malformed)
          else
            var end := idStart + idLen + n;
            var a := Attested(b[pos..pos + AAGUID_LEN], b[idStart..idStart + idLen], key, b[idStart + idLen..end]);
            Success((a, end))
  }

  function ParseExtensions(b: bytes, pos: nat): (r: Result<(Value, nat), Error>)
    requires pos <= |b|
    ensures r.Success? ==> pos <= r.value.1 <= |b|
  {
    match CborDecode.Decode(b[pos..])
    case Failure(_) => Failure(Malformed)
    case Success(Item(ext, n)) => if ext.Map? then Success((ext, pos + n)) else Failure(Malformed)
  }

  function Parse(b: bytes): (r: Result<Data, Error>) {
    if |b| < FIXED_HEADER_LEN then Failure(Truncated)
    else
      var flags := b[RP_ID_HASH_LEN];
      var att :- ParseOptionalAttested(b, Bit(flags, 6));
      var ext :- ParseOptionalExtensions(b, att.1, Bit(flags, 7));
      if ext.1 != |b| then Failure(Malformed)
      else
        Success(Data(b[..RP_ID_HASH_LEN], FromBE(b[RP_ID_HASH_LEN + 1..FIXED_HEADER_LEN]),
                     Bit(flags, 0), Bit(flags, 2), Bit(flags, 3), Bit(flags, 4), Bit(flags, 6), Bit(flags, 7),
                     att.0, ext.0))
  }

  function ParseOptionalAttested(b: bytes, at: bool): (r: Result<(Option<Attested>, nat), Error>)
    requires |b| >= FIXED_HEADER_LEN
    ensures r.Success? ==> r.value.1 <= |b|
  {
    if at then ParseAttested(b, FIXED_HEADER_LEN).Map((x: (Attested, nat)) => (Some(x.0), x.1))
    else Success((None, FIXED_HEADER_LEN))
  }

  function ParseOptionalExtensions(b: bytes, pos: nat, ed: bool): (r: Result<(Option<Value>, nat), Error>)
    requires pos <= |b|
  {
    if ed then ParseExtensions(b, pos).Map((x: (Value, nat)) => (Some(x.0), x.1)) else Success((None, pos))
  }

  // ----- the structure written out

  function FromBits(bits: seq<bool>): nat {
    if bits == [] then 0 else (if bits[0] then 1 else 0) + 2 * FromBits(bits[1..])
  }

  lemma {:induction false} FromBitsBound(bits: seq<bool>)
    ensures FromBits(bits) < Pow2(|bits|)
    ensures |bits| == 8 ==> FromBits(bits) < 256
  {
    if bits != [] {
      FromBitsBound(bits[1..]);
    }
    assert Pow2(8) == 256;
  }

  /** The flag byte of a structure; `r1` and `r5` are the two reserved bits. */
  function FlagByte(d: Data, r1: bool, r5: bool): byte {
    var bits := [d.up, r1, d.uv, d.be, d.bs, r5, d.at, d.ed];
    FromBitsBound(bits);
    FromBits(bits)
  }

  function BuildHeader(d: Data, r1: bool, r5: bool): bytes {
    d.rpIdHash + [FlagByte(d, r1, r5)] + ToBE(d.signCount, 4)
  }

  function BuildAttested(a: Attested): bytes {
    a.aaguid + ToBE(|a.credId|, CRED_ID_LEN_LEN) + a.credId + a.keyRaw
  }

  function BuildOptionalAttested(a: Option<Attested>): bytes {
    if a.Some? then BuildAttested(a.value) else []
  }

  function BuildOptionalExtensions(x: Option<Value>): bytes {
    if x.Some? then Encode(x.value) else []
  }

  function Build(d: Data, r1: bool, r5: bool): bytes {
    BuildHeader(d, r1, r5) + BuildOptionalAttested(d.attested) + BuildOptionalExtensions(d.extensions)
  }

  /** What the fields of a parsed structure satisfy. */
  predicate ValidAttested(a: Attested) {
    && |a.aaguid| == AAGUID_LEN && |a.credId| < TWO_TO_THE_16
    && a.key.Map? && Acceptable(a.key) && a.keyRaw == Encode(a.key)
  }

  predicate ValidData(d: Data) {
    && |d.rpIdHash| == RP_ID_HASH_LEN && d.signCount < TWO_TO_THE_32
    && d.at == d.attested.Some? && d.ed == d.extensions.Some?
    && (d.at ==> ValidAttested(d.attested.value))
    && (d.ed ==> d.extensions.value.Map? && Acceptable(d.extensions.value))
  }

  /** Number of bytes from the first embedded CBOR item on: what `Decode` is handed. */
  function CborTail(d: Data): nat {
    BuildKeyLength(d.attested) + |BuildOptionalExtensions(d.extensions)|
  }

  function BuildKeyLength(a: Option<Attested>): nat {
    if a.Some? then |a.value.keyRaw| else 0
  }

  // ----- exactness

  lemma {:induction false} BitsRoundTrip(bits: seq<bool>)
    ensures BitsOf(FromBits(bits), |bits|) == bits
  {
    if bits != [] {
      BitsRoundTrip(bits[1..]);
    }
  }

  lemma {:induction false} BitsValue(f: nat, n: nat)
    requires f < Pow2(n)
    ensures FromBits(BitsOf(f, n)) == f
  {
    if n > 0 {
      BitsValue(f / 2, n - 1);
    }
  }

  lemma BitsOfFlagByte(d: Data, r1: bool, r5: bool)
    ensures BitsOf(FlagByte(d, r1, r5), 8) == [d.up, r1, d.uv, d.be, d.bs, r5, d.at, d.ed]
  {
    BitsRoundTrip([d.up, r1, d.uv, d.be, d.bs, r5, d.at, d.ed]);
  }

  lemma FlagByteOfBits(f: byte, d: Data)
    requires d.up == Bit(f, 0) && d.uv == Bit(f, 2) && d.be == Bit(f, 3)
    requires d.bs == Bit(f, 4) && d.at == Bit(f, 6) && d.ed == Bit(f, 7)
    ensures FlagByte(d, Bit(f, 1), Bit(f, 5)) == f
  {
    assert Pow2(8) == 256;
    BitsValue(f, 8);
    assert BitsOf(f, 8) == [d.up, Bit(f, 1), d.uv, d.be, d.bs, Bit(f, 5), d.at, d.ed];
  }

  lemma DecodeTail(b: bytes, pos: nat)
    requires pos <= |b| && CborDecode.Decode(b[pos..]).Success?
    ensures var (v, n) := (CborDecode.Decode(b[pos..]).value.val, CborDecode.Decode(b[pos..]).value.size);
            && Acceptable(v) && |b| - pos <= MAX_INPUT_SIZE && pos + n <= |b| && b[pos..pos + n] == Encode(v)
  {
    var v, n := CborDecode.Decode(b[pos..]).value.val, CborDecode.Decode(b[pos..]).value.size;
    DecodeExact(b[pos..], v, n);
    assert b[pos..][..n] == b[pos..pos + n];
  }

  lemma AttestedSound(b: bytes, pos: nat)
    requires ParseAttested(b, pos).Success?
    ensures var (a, end) := ParseAttested(b, pos).value;
            && ValidAttested(a) && pos <= end <= |b| && b[pos..end] == BuildAttested(a)
            && |a.keyRaw| + |b| - end <= MAX_INPUT_SIZE
  {
    var (a, end) := ParseAttested(b, pos).value;
    var idStart := pos + AAGUID_LEN + CRED_ID_LEN_LEN;
    var lenBytes := b[pos + AAGUID_LEN..idStart];
    SmallPowers();
    FromBEBound(lenBytes);
    ToFromBE(lenBytes);
    DecodeTail(b, idStart + |a.credId|);
    FourSlices(b, pos, pos + AAGUID_LEN, idStart, idStart + |a.credId|, end);
  }

  lemma FourSlices(b: bytes, i: nat, j: nat, k: nat, l: nat, m: nat)
    requires i <= j <= k <= l <= m <= |b|
    ensures b[i..m] == b[i..j] + b[j..k] + b[k..l] + b[l..m]
  {
    SplitSlice(b, i, l, m);
    SplitSlice(b, i, k, l);
    SplitSlice(b, i, j, k);
  }

  /** The attested credential data, if the flag asks for it, is written out between the header and `mid`. */
  lemma OptionalAttestedSound(b: bytes, at: bool)
    requires |b| >= FIXED_HEADER_LEN && ParseOptionalAttested(b, at).Success?
    ensures var (a, mid) := ParseOptionalAttested(b, at).value;
            && at == a.Some? && FIXED_HEADER_LEN <= mid <= |b| && (at ==> ValidAttested(a.value))
            && b[FIXED_HEADER_LEN..mid] == BuildOptionalAttested(a)
            && (at ==> BuildKeyLength(a) + |b| - mid <= MAX_INPUT_SIZE)
  {
    if at {
      AttestedSound(b, FIXED_HEADER_LEN);
    }
  }

  lemma OptionalExtensionsSound(b: bytes, pos: nat, ed: bool)
    requires pos <= |b| && ParseOptionalExtensions(b, pos, ed).Success?
    requires ParseOptionalExtensions(b, pos, ed).value.1 == |b|
    ensures var x := ParseOptionalExtensions(b, pos, ed).value.0;
            && ed == x.Some? && (ed ==> x.value.Map? && Acceptable(x.value) && |b| - pos <= MAX_INPUT_SIZE)
            && b[pos..] == BuildOptionalExtensions(x)
  {
    if ed {
      DecodeTail(b, pos);
    }
  }

  /** Everything that parses is the written-out form of what it parsed to, with the reserved bits of its flag byte. */
  lemma ParseSound(b: bytes)
    requires Parse(b).Success?
    ensures var d := Parse(b).value;
            && ValidData(d) && b == Build(d, Bit(b[RP_ID_HASH_LEN], 1), Bit(b[RP_ID_HASH_LEN], 5))
            && CborTail(d) <= MAX_INPUT_SIZE
  {
    var d := Parse(b).value;
    HeaderSound(b, d);
    OptionalAttestedSound(b, d.at);
    var mid := ParseOptionalAttested(b, d.at).value.1;
    OptionalExtensionsSound(b, mid, d.ed);
    CutTwice(b, FIXED_HEADER_LEN, mid);
  }

  lemma CutTwice(b: bytes, i: nat, j: nat)
    requires i <= j <= |b|
    ensures b == b[..i] + b[i..j] + b[j..]
  {
  }

  lemma HeaderSound(b: bytes, d: Data)
    requires Parse(b) == Success(d)
    ensures var f := b[RP_ID_HASH_LEN];
            && b[..FIXED_HEADER_LEN] == BuildHeader(d, Bit(f, 1), Bit(f, 5))
            && |d.rpIdHash| == RP_ID_HASH_LEN && d.signCount < TWO_TO_THE_32
  {
    var count := b[RP_ID_HASH_LEN + 1..FIXED_HEADER_LEN];
    SmallPowers();
    FromBEBound(count);
    ToFromBE(count);
    FlagByteOfBits(b[RP_ID_HASH_LEN], d);
    assert b[..FIXED_HEADER_LEN] == b[..RP_ID_HASH_LEN] + [b[RP_ID_HASH_LEN]] + count;
  }

  lemma FourAt(b: bytes, pos: nat, s: bytes, t: bytes, u: bytes, v: bytes)
    requires At(b, pos, s + t + u + v)
    ensures At(b, pos, s) && At(b, pos + |s|, t) && At(b, pos + |s| + |t|, u) && At(b, pos + |s| + |t| + |u|, v)
  {
    AtSplit(b, pos, s + t + u, v);
    AtSplit(b, pos, s + t, u);
    AtSplit(b, pos, s, t);
  }

  lemma DecodeAt(b: bytes, pos: nat, v: Value)
    requires At(b, pos, Encode(v)) && Acceptable(v) && |b| - pos <= MAX_INPUT_SIZE
    ensures CborDecode.Decode(b[pos..]) == Success(CborDecode.Item(v, |Encode(v)|))
  {
    AtTail(b, pos, Encode(v));
    DecodeExact(b[pos..], v, |Encode(v)|);
  }

  lemma AttestedComplete(b: bytes, pos: nat, a: Attested)
    requires ValidAttested(a) && At(b, pos, BuildAttested(a))
    requires |a.keyRaw| + |b| - (pos + |BuildAttested(a)|) <= MAX_INPUT_SIZE
    ensures ParseAttested(b, pos) == Success((a, pos + |BuildAttested(a)|))
  {
    var len := ToBE(|a.credId|, CRED_ID_LEN_LEN);
    FourAt(b, pos, a.aaguid, len, a.credId, a.keyRaw);
    SmallPowers();
    FromToBEExact(|a.credId|, CRED_ID_LEN_LEN);
    DecodeAt(b, pos + 18 + |a.credId|, a.key);
    AttestedStep(b, pos, a.credId, a.key, |a.keyRaw|);
  }

  lemma AttestedStep(b: bytes, pos: nat, credId: bytes, key: Value, n: nat)
    requires pos + 18 + |credId| + n <= |b| && key.Map?
    requires FromBE(b[pos + 16..pos + 18]) == |credId| && b[pos + 18..pos + 18 + |credId|] == credId
    requires CborDecode.Decode(b[pos + 18 + |credId|..]) == Success(CborDecode.Item(key, n))
    ensures var end := pos + 18 + |credId| + n;
            ParseAttested(b, pos)
            == Success((Attested(b[pos..pos + 16], credId, key, b[pos + 18 + |credId|..end]), end))
  {
  }

  lemma OptionalAttestedComplete(b: bytes, a: Option<Attested>)
    requires |b| >= FIXED_HEADER_LEN && At(b, FIXED_HEADER_LEN, BuildOptionalAttested(a))
    requires a.Some? ==> ValidAttested(a.value)
    requires BuildKeyLength(a) + |b| - (FIXED_HEADER_LEN + |BuildOptionalAttested(a)|) <= MAX_INPUT_SIZE
    ensures ParseOptionalAttested(b, a.Some?) == Success((a, FIXED_HEADER_LEN + |BuildOptionalAttested(a)|))
  {
    if a.Some? {
      AttestedComplete(b, FIXED_HEADER_LEN, a.value);
    }
  }

  lemma OptionalExtensionsComplete(b: bytes, pos: nat, x: Option<Value>)
    requires pos <= |b| && b[pos..] == BuildOptionalExtensions(x) && |b| - pos <= MAX_INPUT_SIZE
    requires x.Some? ==> x.value.Map? && Acceptable(x.value)
    ensures ParseOptionalExtensions(b, pos, x.Some?) == Success((x, |b|))
  {
    if x.Some? {
      DecodeExact(b[pos..], x.value, |b| - pos);
    }
  }

  lemma PartsComplete(b: bytes, d: Data)
    requires ValidData(d) && CborTail(d) <= MAX_INPUT_SIZE
    requires |b| >= FIXED_HEADER_LEN && At(b, FIXED_HEADER_LEN, BuildOptionalAttested(d.attested))
    requires b[FIXED_HEADER_LEN + |BuildOptionalAttested(d.attested)|..] == BuildOptionalExtensions(d.extensions)
    ensures var mid := FIXED_HEADER_LEN + |BuildOptionalAttested(d.attested)|;
            && ParseOptionalAttested(b, d.at) == Success((d.attested, mid))
            && ParseOptionalExtensions(b, mid, d.ed) == Success((d.extensions, |b|))
  {
    OptionalAttestedComplete(b, d.attested);
    OptionalExtensionsComplete(b, FIXED_HEADER_LEN + |BuildOptionalAttested(d.attested)|, d.extensions);
  }

  lemma HeaderComplete(d: Data, r1: bool, r5: bool)
    requires |d.rpIdHash| == RP_ID_HASH_LEN && d.signCount < TWO_TO_THE_32
    ensures var h := BuildHeader(d, r1, r5);
            && |h| == FIXED_HEADER_LEN && h[..RP_ID_HASH_LEN] == d.rpIdHash
            && FromBE(h[RP_ID_HASH_LEN + 1..FIXED_HEADER_LEN]) == d.signCount
            && BitsOf(h[RP_ID_HASH_LEN], 8) == [d.up, r1, d.uv, d.be, d.bs, r5, d.at, d.ed]
  {
    var h := BuildHeader(d, r1, r5);
    SmallPowers();
    FromToBEExact(d.signCount, 4);
    BitsOfFlagByte(d, r1, r5);
    assert h[RP_ID_HASH_LEN + 1..FIXED_HEADER_LEN] == ToBE(d.signCount, 4);
  }

  lemma ThreeParts(h: bytes, att: bytes, ext: bytes)
    requires |h| == FIXED_HEADER_LEN
    ensures var b := h + att + ext;
            && b[..RP_ID_HASH_LEN] == h[..RP_ID_HASH_LEN] && b[RP_ID_HASH_LEN] == h[RP_ID_HASH_LEN]
            && b[RP_ID_HASH_LEN + 1..FIXED_HEADER_LEN] == h[RP_ID_HASH_LEN + 1..FIXED_HEADER_LEN]
            && At(b, FIXED_HEADER_LEN, att) && b[FIXED_HEADER_LEN + |att|..] == ext
  {
  }

  /** Every well-formed structure parses back to itself, whatever the reserved bits. */
  lemma ParseComplete(d: Data, r1: bool, r5: bool)
    requires ValidData(d) && CborTail(d) <= MAX_INPUT_SIZE
    ensures Parse(Build(d, r1, r5)) == Success(d)
  {
    var h := BuildHeader(d, r1, r5);
    HeaderComplete(d, r1, r5);
    ParseParts(d, r1, r5, h, BuildOptionalAttested(d.attested), BuildOptionalExtensions(d.extensions));
  }

  /** Header, attested credential data and extensions, one after the other, are read back one by one. */
  lemma ParseParts(d: Data, r1: bool, r5: bool, h: bytes, att: bytes, ext: bytes)
    requires ValidData(d) && CborTail(d) <= MAX_INPUT_SIZE
    requires |h| == FIXED_HEADER_LEN && h[..RP_ID_HASH_LEN] == d.rpIdHash
    requires FromBE(h[RP_ID_HASH_LEN + 1..FIXED_HEADER_LEN]) == d.signCount
    requires BitsOf(h[RP_ID_HASH_LEN], 8) == [d.up, r1, d.uv, d.be, d.bs, r5, d.at, d.ed]
    requires att == BuildOptionalAttested(d.attested) && ext == BuildOptionalExtensions(d.extensions)
    ensures Parse(h + att + ext) == Success(d)
  {
    var b := h + att + ext;
    ThreeParts(h, att, ext);
    PartsComplete(b, d);
    ParseStep(b, d, FIXED_HEADER_LEN + |att|, r1, r5);
  }

  lemma ParseStep(b: bytes, d: Data, mid: nat, r1: bool, r5: bool)
    requires FIXED_HEADER_LEN <= mid <= |b| && b[..RP_ID_HASH_LEN] == d.rpIdHash
    requires FromBE(b[RP_ID_HASH_LEN + 1..FIXED_HEADER_LEN]) == d.signCount
    requires BitsOf(b[RP_ID_HASH_LEN], 8) == [d.up, r1, d.uv, d.be, d.bs, r5, d.at, d.ed]
    requires ParseOptionalAttested(b, d.at) == Success((d.attested, mid))
    requires ParseOptionalExtensions(b, mid, d.ed) == Success((d.extensions, |b|))
    ensures Parse(b) == Success(d)
  {
  }

  /** Parsing accepts exactly the concatenations selected by the AT and ED bits; the boundary between key and
      extensions is part of the result, so it is unique. */
  lemma ParseExact(b: bytes, d: Data)
    ensures Parse(b) == Success(d) <==>
            && ValidData(d) && CborTail(d) <= MAX_INPUT_SIZE
            && exists r1, r5 :: b == Build(d, r1, r5)
  {
    if Parse(b) == Success(d) {
      ParseSound(b);
    } else if ValidData(d) && CborTail(d) <= MAX_INPUT_SIZE {
      if r1, r5 :| b == Build(d, r1, r5) {
        ParseComplete(d, r1, r5);
      }
    }
  }
}

/** The parser as the program runs it: a position moves over the buffer while the fields are filled in. */
module AuthDataParser {
  import opened ByteStrings
  import opened AuthData
  import CborDecoder

  method ParseAttestedCredentialData(buf: bytes, start: nat) returns (r: Result<(Attested, nat), Error>)
    ensures r == ParseAttested(buf, start)
  {
    var pos := start;
    if |buf| < pos + AAGUID_LEN + CRED_ID_LEN_LEN {
      return Failure(Truncated);
    }
    var aaguid := buf[pos..pos + AAGUID_LEN];
    pos := pos + AAGUID_LEN;

    var credIdLen := FromBE(buf[pos..pos + CRED_ID_LEN_LEN]);
    pos := pos + CRED_ID_LEN_LEN;

    if |buf| < pos + credIdLen {
      return Failure(Truncated);
    }
    var credId := buf[pos..pos + credIdLen];
    pos := pos + credIdLen;

    var pubKeyStart := pos;
    var item, _ := CborDecoder.Decode(buf[pos..]);
    if item.Failure? || !item.value.val.Map? {
      return Failure(Malformed);
    }
    pos := pos + item.value.size;
    return Success((Attested(aaguid, credId, item.value.val, buf[pubKeyStart..pos]), pos));
  }

  method Parse(buf: bytes) returns (r: Result<Data, Error>)
    ensures r == AuthData.Parse(buf)
  {
    if |buf| < FIXED_HEADER_LEN {
      return Failure(Truncated);
    }
    var flags := buf[RP_ID_HASH_LEN];
    var d := Data(buf[..RP_ID_HASH_LEN], FromBE(buf[RP_ID_HASH_LEN + 1..FIXED_HEADER_LEN]),
                  Bit(flags, 0), Bit(flags, 2), Bit(flags, 3), Bit(flags, 4), Bit(flags, 6), Bit(flags, 7),
                  None, None);
    var pos := FIXED_HEADER_LEN;
    if d.at {
      var att :- ParseAttestedCredentialData(buf, pos);
      d := d.(attested := Some(att.0));
      pos := att.1;
    }
    if d.ed {
      var item, _ := CborDecoder.Decode(buf[pos..]);
      if item.Failure? || !item.value.val.Map? {
        return Failure(Malformed);
      }
      d := d.(extensions := Some(item.value.val));
      pos := pos + item.value.size;
    }
    if pos != |buf| {
      return Failure(Malformed);
    }
    return Success(d);
  }
}
