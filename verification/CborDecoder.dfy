/** The recursive-descent decoder: a cursor, a depth budget and an element budget over a fixed buffer. Each
    method is proved to compute the functions of CborDecode, never to leave the buffer, and to copy at most
    the remaining depth times the bytes it read into key spans. */
module CborDecoder {
  import opened ByteStrings
  import opened CborValue
  import opened CborDecode
  import opened CborOrder

  /** What Go's int and int64 can hold: every value that the program converts or adds up is kept in this type. */
  type Int64 = x: int | -TWO_TO_THE_63 <= x < TWO_TO_THE_63

  class Decoder {
    const buf: bytes
    var pos: nat
    var depth: nat
    var elems: nat
    ghost var copied: nat  // bytes copied into key spans so far

    /** Holds at every moment, also after an error. */
    ghost predicate Valid()
      reads this
    {
      pos <= |buf| <= MAX_INPUT_SIZE && depth <= MAX_DEPTH && elems <= MAX_ELEMENTS + 1
    }

    /** How a call that started at these counters may have moved them, successful or not. */
    ghost predicate Bounded(pos0: nat, depth0: nat, elems0: nat, copied0: nat)
      reads this
    {
      && Valid()
      && pos0 <= pos && elems0 <= elems
      && depth0 <= MAX_DEPTH
      && copied - copied0 <= Times(MAX_DEPTH - depth0, pos - pos0)
    }

    constructor (b: bytes)
      requires |b| <= MAX_INPUT_SIZE
      ensures Valid() && buf == b
      ensures pos == 0 && depth == 0 && elems == 0 && copied == 0
    {
      buf := b;
      pos, depth, elems, copied := 0, 0, 0, 0;
    }

    method ReadByte() returns (r: Result<byte, Error>)
      requires Valid()
      modifies this`pos
      ensures Valid()
      ensures r.Success? <==> old(pos) < |buf|
      ensures r.Success? ==> pos == old(pos) + 1 && r.value == buf[old(pos)]
      ensures r.Failure? ==> pos == old(pos) && r.error == Truncated
    {
      if pos >= |buf| {
        return Failure(Truncated);
      }
      r := Success(buf[pos]);
      pos := pos + 1;
    }

    /** The sum of the cursor and `n` must not overflow; every caller sees to that. */
    method ReadN(n: Int64) returns (r: Result<bytes, Error>)
      requires Valid() && pos + n < TWO_TO_THE_63
      modifies this`pos
      ensures Valid()
      ensures r.Success? <==> 0 <= n <= |buf| - old(pos)
      ensures r.Success? ==> pos == old(pos) + n && r.value == buf[old(pos)..pos]
      ensures r.Failure? ==> pos == old(pos) && r.error == Truncated
    {
      var end: Int64 := pos + n;
      if n < 0 || end > |buf| {
        return Failure(Truncated);
      }
      r := Success(buf[pos..pos + n]);
      pos := pos + n;
    }

    method ReadInitialByte() returns (r: Result<(nat, nat), Error>)
      requires Valid()
      modifies this`pos
      ensures Valid()
      ensures r.Success? <==> old(pos) < |buf|
      ensures r.Success? ==> pos == old(pos) + 1 && 32 * r.value.0 + r.value.1 == buf[old(pos)]
      ensures r.Success? ==> r.value.0 < 8 && r.value.1 < 32
      ensures r.Failure? ==> pos == old(pos) && r.error == Truncated
    {
      var b :- ReadByte();
      return Success((b / 32, b % 32));
    }

    method ReadArgument(ai: nat) returns (r: Result<nat, Error>)
      requires Valid() && ai < 32
      modifies this`pos
      ensures Valid() && old(pos) <= pos
      ensures match r
              case Success(arg) => CborDecode.ReadArgument(buf, old(pos), ai) == Arg(arg, pos)
              case Failure(e) => CborDecode.ReadArgument(buf, old(pos), ai) == BadArg(e)
    {
      if ai < 24 {
        return Success(ai);
      } else if ai == 24 {
        var bs :- ReadN(1);
        var v := bs[0];
        assert bs[..0] == [] && FromBE(bs) == v;
        return if v < 24 then Failure(NonCanonical) else Success(v);
      } else if ai == 25 {
        var bs :- ReadN(2);
        var v := FromBE(bs);
        return if v <= 0xff then Failure(NonCanonical) else Success(v);
      } else if ai == 26 {
        var bs :- ReadN(4);
        var v := FromBE(bs);
        return if v <= 0xffff then Failure(NonCanonical) else Success(v);
      } else if ai == 27 {
        var bs :- ReadN(8);
        var v := FromBE(bs);
        return if v <= 0xffff_ffff then Failure(NonCanonical) else Success(v);
      } else {
        return Failure(Unsupported);
      }
    }

    method DecodeSimple(ai: nat) returns (r: Result<Value, Error>)
      requires Valid() && ai < 32
      modifies this`pos
      ensures Valid() && old(pos) <= pos
      ensures match r
              case Success(v) => CborDecode.DecodeSimple(buf, old(pos), elems, ai) == Ok(v, pos, elems)
              case Failure(e) => CborDecode.DecodeSimple(buf, old(pos), elems, ai) == Err(e)
    {
      if ai == 20 {
        return Success(Bool(false));
      } else if ai == 21 {
        return Success(Bool(true));
      } else if ai == 22 {
        return Success(Null);
      } else if 24 <= ai <= 27 {
        var _ :- ReadN(if ai == 24 then 1 else if ai == 25 then 2 else if ai == 26 then 4 else 8);
        return Failure(Unsupported);
      } else {
        return Failure(Unsupported);
      }
    }

    method DecodeValue() returns (r: Result<Value, Error>)
      requires Valid() && elems <= MAX_ELEMENTS
      modifies this
      ensures Bounded(old(pos), old(depth), old(elems), old(copied))
      ensures match r
              case Success(v) =>
                && CborDecode.DecodeValue(buf, old(pos), old(depth), old(elems)) == Ok(v, pos, elems)
                && depth == old(depth)
              case Failure(e) => CborDecode.DecodeValue(buf, old(pos), old(depth), old(elems)) == Err(e)
      decreases |buf| - pos, 0
    {
      elems := elems + 1;
      if elems > MAX_ELEMENTS {
        return Failure(TooManyElements);
      }
      var initial :- ReadInitialByte();
      var major, ai := initial.0, initial.1;
      assert buf[old(pos)] / 32 == major && buf[old(pos)] % 32 == ai;
      if major == 7 {
        r := DecodeSimple(ai);
        return;
      }
      var arg :- ReadArgument(ai);
      label body:
      r := DecodeBody(major, arg);
      TimesAdd(MAX_DEPTH - old(depth), pos - old@body(pos), old@body(pos) - old(pos));
    }

    method DecodeBody(major: nat, arg: nat) returns (r: Result<Value, Error>)
      requires Valid() && elems <= MAX_ELEMENTS && major < 7
      modifies this
      ensures Bounded(old(pos), old(depth), old(elems), old(copied))
      ensures match r
              case Success(v) =>
                && CborDecode.DecodeBody(buf, old(pos), old(depth), old(elems), major, arg) == Ok(v, pos, elems)
                && depth == old(depth)
              case Failure(e) => CborDecode.DecodeBody(buf, old(pos), old(depth), old(elems), major, arg) == Err(e)
      decreases |buf| - pos, 5
    {
      match major {
        case 0 =>
          if arg >= TWO_TO_THE_63 {
            return Failure(Unsupported);
          }
          var n: Int64 := arg;
          return Success(Uint(n));
        case 1 =>
          if arg >= TWO_TO_THE_63 {
            return Failure(Unsupported);
          }
          var n: Int64 := -1 - arg;
          return Success(NegInt(n));
        case 2 =>
          if arg > |buf| - pos {
            return Failure(Truncated);
          }
          var b := ReadN(arg);
          return b.Map(s => Bytes(s));
        case 3 =>
          if arg > |buf| - pos {
            return Failure(Truncated);
          }
          var b := ReadN(arg);
          return b.Map(s => Text(s));
        case 4 =>
          r := DecodeArray(arg);
        case 5 =>
          r := DecodeMap(arg);
        case _ =>
          return Failure(Unsupported);
      }
    }

    method DecodeArray(n: nat) returns (r: Result<Value, Error>)
      requires Valid() && elems <= MAX_ELEMENTS
      modifies this
      ensures Bounded(old(pos), old(depth), old(elems), old(copied))
      ensures match r
              case Success(v) =>
                && CborDecode.DecodeBody(buf, old(pos), old(depth), old(elems), 4, n) == Ok(v, pos, elems)
                && depth == old(depth)
              case Failure(e) => CborDecode.DecodeBody(buf, old(pos), old(depth), old(elems), 4, n) == Err(e)
      decreases |buf| - pos, 4
    {
      if depth >= MAX_DEPTH {
        return Failure(DepthExceeded);
      }
      depth := depth + 1;
      var items := DecodeItemLoop(n);
      if items.Failure? {
        return Failure(items.error);
      }
      depth := depth - 1;
      return Success(Array(items.value));
    }

    /** The loop of decodeArray, run with the depth already raised. */
    method DecodeItemLoop(n: nat) returns (r: Result<seq<Value>, Error>)
      requires Valid() && elems <= MAX_ELEMENTS && depth > 0
      modifies this
      ensures Bounded(old(pos), old(depth) - 1, old(elems), old(copied))
      ensures match r
              case Success(vs) =>
                DecodeItems(buf, old(pos), old(depth), old(elems), n) == Ok(vs, pos, elems) && depth == old(depth)
              case Failure(e) => DecodeItems(buf, old(pos), old(depth), old(elems), n) == Err(e)
      decreases |buf| - pos, 3
    {
      var items: seq<Value> := [];
      ghost var whole := DecodeItems(buf, pos, depth, elems, n);
      PrependNoItems(whole);
      var i := 0;
      while i < n
        invariant i == |items| <= n
        invariant depth == old(depth) && elems <= MAX_ELEMENTS
        invariant Bounded(old(pos), old(depth) - 1, old(elems), old(copied))
        invariant whole == PrependItems(items, DecodeItems(buf, pos, depth, elems, n - i))
      {
        items :- AppendItem(items, n - i, whole, old(pos), old(copied));
        i := i + 1;
      }
      assert items + [] == items;
      return Success(items);
    }

    /** One round of that loop, with `n` items to go; `pos0` and `copied0` are where the loop started. */
    method AppendItem(items: seq<Value>, n: nat, ghost whole: Read<seq<Value>>, ghost pos0: nat, ghost copied0: nat)
      returns (r: Result<seq<Value>, Error>)
      requires Valid() && elems <= MAX_ELEMENTS && depth > 0 && n > 0
      requires pos0 <= pos && copied - copied0 <= Times(MAX_DEPTH - (depth - 1), pos - pos0)
      requires whole == PrependItems(items, DecodeItems(buf, pos, depth, elems, n))
      modifies this
      ensures Bounded(pos0, old(depth) - 1, old(elems), copied0) && old(pos) <= pos
      ensures match r
              case Success(vs) =>
                && |vs| == |items| + 1 && depth == old(depth) && elems <= MAX_ELEMENTS
                && whole == PrependItems(vs, DecodeItems(buf, pos, depth, elems, n - 1))
              case Failure(e) => whole == Err(e)
      decreases |buf| - pos, 2
    {
      NextItem(items, buf, pos, depth, elems, n);
      var v := DecodeValue();
      TimesMonotone(MAX_DEPTH - old(depth), pos - old(pos));
      CopiedInTurn(MAX_DEPTH - (old(depth) - 1), pos0, old(pos), pos, copied0, old(copied), copied);
      if v.Failure? {
        return Failure(v.error);
      }
      return Success(items + [v.value]);
    }

    method DecodeMap(n: nat) returns (r: Result<Value, Error>)
      requires Valid() && elems <= MAX_ELEMENTS
      modifies this
      ensures Bounded(old(pos), old(depth), old(elems), old(copied))
      ensures match r
              case Success(v) =>
                && CborDecode.DecodeBody(buf, old(pos), old(depth), old(elems), 5, n) == Ok(v, pos, elems)
                && depth == old(depth)
              case Failure(e) => CborDecode.DecodeBody(buf, old(pos), old(depth), old(elems), 5, n) == Err(e)
      decreases |buf| - pos, 4
    {
      if depth >= MAX_DEPTH {
        return Failure(DepthExceeded);
      }
      depth := depth + 1;
      var m := DecodeEntryLoop(n);
      if m.Failure? {
        return Failure(m.error);
      }
      depth := depth - 1;
      r := CheckOrder(m.value.entries, m.value.spans);
    }

    /** The first loop of decodeMap, run with the depth already raised. */
    method DecodeEntryLoop(n: nat) returns (r: Result<Spanned, Error>)
      requires Valid() && elems <= MAX_ELEMENTS && depth > 0
      modifies this
      ensures Bounded(old(pos), old(depth) - 1, old(elems), old(copied))
      ensures match r
              case Success(m) =>
                DecodeEntries(buf, old(pos), old(depth), old(elems), n) == Ok(m, pos, elems) && depth == old(depth)
              case Failure(e) => DecodeEntries(buf, old(pos), old(depth), old(elems), n) == Err(e)
      decreases |buf| - pos, 3
    {
      var read := Spanned([], []);
      ghost var whole := DecodeEntries(buf, pos, depth, elems, n);
      PrependNoEntries(whole);
      var i := 0;
      while i < n
        invariant i == |read.entries| == |read.spans| <= n
        invariant depth == old(depth) && elems <= MAX_ELEMENTS
        invariant Bounded(old(pos), old(depth) - 1, old(elems), old(copied))
        invariant whole == PrependEntries(read.entries, read.spans, DecodeEntries(buf, pos, depth, elems, n - i))
      {
        read :- AppendEntry(read, n - i, whole, old(pos), old(copied));
        i := i + 1;
      }
      assert read.entries + [] == read.entries && read.spans + [] == read.spans;
      return Success(read);
    }

    /** One round of that loop, with `n` entries to go; `pos0` and `copied0` are where the loop started. */
    method AppendEntry(read: Spanned, n: nat, ghost whole: Read<Spanned>, ghost pos0: nat, ghost copied0: nat)
      returns (r: Result<Spanned, Error>)
      requires Valid() && elems <= MAX_ELEMENTS && depth > 0 && n > 0
      requires pos0 <= pos && copied - copied0 <= Times(MAX_DEPTH - (depth - 1), pos - pos0)
      requires whole == PrependEntries(read.entries, read.spans, DecodeEntries(buf, pos, depth, elems, n))
      modifies this
      ensures Bounded(pos0, old(depth) - 1, old(elems), copied0) && old(pos) <= pos
      ensures match r
              case Success(m) =>
                && |m.entries| == |read.entries| + 1 && |m.spans| == |read.spans| + 1
                && depth == old(depth) && elems <= MAX_ELEMENTS
                && whole == PrependEntries(m.entries, m.spans, DecodeEntries(buf, pos, depth, elems, n - 1))
              case Failure(e) => whole == Err(e)
      decreases |buf| - pos, 2
    {
      NextEntry(read.entries, read.spans, buf, pos, depth, elems, n);
      var e := DecodeEntry();
      CopiedInTurn(MAX_DEPTH - (old(depth) - 1), pos0, old(pos), pos, copied0, old(copied), copied);
      if e.Failure? {
        return Failure(e.error);
      }
      return Success(Spanned(read.entries + [e.value.entry], read.spans + [e.value.span]));
    }

    /** One round of the loop over map entries: the key, a copy of the bytes it occupied, and the value. */
    method DecodeEntry() returns (r: Result<SpannedEntry, Error>)
      requires Valid() && elems <= MAX_ELEMENTS && depth > 0
      modifies this
      ensures Bounded(old(pos), old(depth) - 1, old(elems), old(copied))
      ensures match r
              case Success(e) =>
                && CborDecode.DecodeEntry(buf, old(pos), old(depth), old(elems)) == Ok(e, pos, elems)
                && depth == old(depth)
              case Failure(e) => CborDecode.DecodeEntry(buf, old(pos), old(depth), old(elems)) == Err(e)
      decreases |buf| - pos, 1
    {
      var keyStart := pos;
      var k := DecodeValue();
      if k.Failure? {
        return Failure(k.error);
      }
      var keySpan := buf[keyStart..pos];
      copied := copied + |keySpan|;
      label value:
      ghost var keyCopied, room := copied - old(copied) - |keySpan|, MAX_DEPTH - old(depth);
      var v := DecodeValue();
      CopiedWithKey(room, |keySpan|, pos - old@value(pos), keyCopied, copied - old@value(copied));
      if v.Failure? {
        return Failure(v.error);
      }
      return Success(SpannedEntry(Entry(k.value, v.value), keySpan));
    }

    /** The pass over adjacent key spans that ends decodeMap. */
    method CheckOrder(entries: seq<Entry>, keySpans: seq<bytes>) returns (r: Result<Value, Error>)
      ensures match OrderError(keySpans, 1)
              case Some(e) => r == Failure(e)
              case None => r == Success(Map(entries))
      ensures r.Success? ==> r.value == Map(entries) && Ascending(keySpans)
      ensures r.Failure? ==>
                exists k :: 0 < k < |keySpans| && Ascending(keySpans[..k])
                            && CanonicalCompare(keySpans[k - 1], keySpans[k]) != -1
                            && r.error == if keySpans[k - 1] == keySpans[k] then DuplicateKey else MapOrder
    {
      var j := 1;
      while j < |keySpans|
        invariant 1 <= j && (j <= |keySpans| || j == 1)
        invariant OrderError(keySpans, 1) == OrderError(keySpans, j)
        invariant forall i | 0 < i < j <= |keySpans| :: CanonicalCompare(keySpans[i - 1], keySpans[i]) == -1
      {
        CanonicalCompareTotal(keySpans[j - 1], keySpans[j]);
        assert Ascending(keySpans[..j]);
        var c := CanonicalCompare(keySpans[j - 1], keySpans[j]);
        if c == 0 {
          return Failure(DuplicateKey);
        } else if c == 1 {
          return Failure(MapOrder);
        }
        j := j + 1;
      }
      return Success(Map(entries));
    }
  }

  ghost function PrependItems(vs: seq<Value>, r: Read<seq<Value>>): Read<seq<Value>> {
    match r
    case Ok(ws, p, e) => Ok(vs + ws, p, e)
    case Err(x) => Err(x)
  }

  ghost function PrependEntries(es: seq<Entry>, spans: seq<bytes>, r: Read<Spanned>): Read<Spanned> {
    match r
    case Ok(m, p, e) => Ok(Spanned(es + m.entries, spans + m.spans), p, e)
    case Err(x) => Err(x)
  }

  lemma PrependNoItems(r: Read<seq<Value>>)
    ensures PrependItems([], r) == r
  {
    assert r.Ok? ==> [] + r.val == r.val;
  }

  /** One round of the loop over items. */
  lemma NextItem(vs: seq<Value>, b: bytes, pos: nat, depth: nat, elems: nat, n: nat)
    requires pos <= |b| && elems <= MAX_ELEMENTS && n > 0
    ensures PrependItems(vs, DecodeItems(b, pos, depth, elems, n)) ==
            match CborDecode.DecodeValue(b, pos, depth, elems)
            case Err(x) => Err(x)
            case Ok(v, p, e) => PrependItems(vs + [v], DecodeItems(b, p, depth, e, n - 1))
  {
    match CborDecode.DecodeValue(b, pos, depth, elems)
    case Err(_) =>
    case Ok(v, p, e) =>
      var r := DecodeItems(b, p, depth, e, n - 1);
      assert r.Ok? ==> vs + ([v] + r.val) == vs + [v] + r.val;
  }

  lemma PrependNoEntries(r: Read<Spanned>)
    ensures PrependEntries([], [], r) == r
  {
    assert r.Ok? ==> [] + r.val.entries == r.val.entries && [] + r.val.spans == r.val.spans;
  }

  /** One round of the loop over map entries. */
  lemma NextEntry(es: seq<Entry>, spans: seq<bytes>, b: bytes, pos: nat, depth: nat, elems: nat, n: nat)
    requires pos <= |b| && elems <= MAX_ELEMENTS && n > 0
    ensures PrependEntries(es, spans, DecodeEntries(b, pos, depth, elems, n)) ==
            match CborDecode.DecodeEntry(b, pos, depth, elems)
            case Err(x) => Err(x)
            case Ok(se, p, e) =>
              PrependEntries(es + [se.entry], spans + [se.span], DecodeEntries(b, p, depth, e, n - 1))
  {
    match CborDecode.DecodeEntry(b, pos, depth, elems)
    case Err(_) =>
    case Ok(se, p, e) =>
      var r := DecodeEntries(b, p, depth, e, n - 1);
      assert r.Ok? ==> es + ([se.entry] + r.val.entries) == es + [se.entry] + r.val.entries;
      assert r.Ok? ==> spans + ([se.span] + r.val.spans) == spans + [se.span] + r.val.spans;
  }

  /** k * n, spelled as repeated addition. */
  ghost function Times(k: nat, n: nat): nat {
    if k == 0 then 0 else Times(k - 1, n) + n
  }

  lemma {:induction false} TimesIsProduct(k: nat, n: nat)
    ensures Times(k, n) == k * n
  {
    if k > 0 {
      TimesIsProduct(k - 1, n);
    }
  }

  lemma {:induction false} TimesAdd(k: nat, x: nat, y: nat)
    ensures Times(k, x + y) == Times(k, x) + Times(k, y)
  {
    if k > 0 {
      TimesAdd(k - 1, x, y);
    }
  }

  lemma TimesMonotone(k: nat, n: nat)
    ensures Times(k, n) <= Times(k + 1, n)
  {
  }

  lemma CopiedInTurn(k: nat, p0: nat, p1: nat, p2: nat, c0: nat, c1: nat, c2: nat)
    requires p0 <= p1 <= p2 && c1 - c0 <= Times(k, p1 - p0) && c2 - c1 <= Times(k, p2 - p1)
    ensures c2 - c0 <= Times(k, p2 - p0)
  {
    TimesAdd(k, p1 - p0, p2 - p1);
  }

  /** What a key copied, the copy of its span, and what the value copied, one level further out. */
  lemma CopiedWithKey(k: nat, keyLen: nat, valueLen: nat, keyCopied: int, valueCopied: int)
    requires keyCopied <= Times(k, keyLen) && valueCopied <= Times(k, valueLen)
    ensures keyCopied + keyLen + valueCopied <= Times(k + 1, keyLen + valueLen)
  {
    TimesAdd(k, keyLen, valueLen);
  }

  /** What a decoding cost, successful or not: bytes read, calls of decodeValue, bytes copied into key spans. */
  datatype Work = Work(read: nat, calls: nat, copied: nat)

  /** Decodes exactly one item and says how long it was; trailing bytes are left alone. */
  method Decode(b: bytes) returns (r: Result<Item, Error>, ghost work: Work)
    ensures r == CborDecode.Decode(b)
    ensures work.read <= |b| && work.calls <= MAX_ELEMENTS + 1 && work.copied <= MAX_DEPTH * work.read
  {
    if |b| > MAX_INPUT_SIZE {
      return Failure(InputTooLarge), Work(0, 0, 0);
    }
    var d := new Decoder(b);
    var v := d.DecodeValue();
    TimesIsProduct(MAX_DEPTH, d.pos);
    work := Work(d.pos, d.elems, d.copied);
    r := match v case Success(x) => Success(Item(x, d.pos)) case Failure(e) => Failure(e);
  }
}
