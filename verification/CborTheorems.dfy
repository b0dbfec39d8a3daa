/** The decoder accepts exactly the canonical encodings of values within its limits, and every outcome other
    than truncation is final. */
module CborTheorems {
  import opened ByteStrings
  import opened CborValue
  import opened CborDecode

  // ----- headers

  lemma HeaderRead(b: bytes, pos: nat)
    requires pos < |b|
    requires ReadArgument(b, pos + 1, b[pos] % 32).Arg?
    ensures var Arg(arg, next) := ReadArgument(b, pos + 1, b[pos] % 32);
            arg < TWO_TO_THE_64 && b[pos..next] == Header(b[pos] / 32, arg)
  {
    var major, ai := b[pos] / 32, b[pos] % 32;
    var Arg(arg, next) := ReadArgument(b, pos + 1, ai);
    if ai < 24 {
      assert b[pos..next] == [b[pos]];
    } else {
      var s := b[pos + 1..next];
      WideHeader(major, ai, s);
      assert b[pos..next] == [b[pos]] + s;
    }
  }

  /** An argument too large for a narrower width is in its shortest header. */
  lemma WideHeader(major: nat, ai: nat, s: bytes)
    requires major < 8 && 24 <= ai <= 27 && |s| == ArgWidth(ai) && ArgFloor(ai) <= FromBE(s)
    ensures FromBE(s) < TWO_TO_THE_64 && [32 * major + ai] + s == Header(major, FromBE(s))
  {
    SmallPowers();
    FromBEBound(s);
    ToFromBE(s);
    assert ShortestInfo(FromBE(s)) == ai;
  }

  lemma HeaderReadBack(b: bytes, pos: nat, major: nat, arg: nat)
    requires major < 8 && arg < TWO_TO_THE_64
    requires pos + |Header(major, arg)| <= |b|
    requires b[pos..pos + |Header(major, arg)|] == Header(major, arg)
    ensures b[pos] / 32 == major
    ensures ReadArgument(b, pos + 1, b[pos] % 32) == Arg(arg, pos + |Header(major, arg)|)
  {
    var h := Header(major, arg);
    assert b[pos] == b[pos..pos + |h|][0] == h[0];
    var ai := ShortestInfo(arg);
    if ai >= 24 {
      SmallPowers();
      FromToBEExact(arg, ArgWidth(ai));
      assert b[pos + 1..pos + |h|] == h[1..] == ToBE(arg, ArgWidth(ai));
    }
  }

  // ----- soundness

  /** What a successful read of `v` from a cursor tells about the bytes, the value and the counters. */
  ghost predicate ReadsValue(b: bytes, pos: nat, depth: nat, elems: nat, v: Value, end: nat, elems': nat) {
    && pos <= end <= |b|
    && b[pos..end] == Encode(v)
    && Canonical(v)
    && depth + Height(v) <= MAX_DEPTH
    && elems' == elems + Nodes(v)
  }

  lemma SplitSlice(b: bytes, i: nat, j: nat, k: nat)
    requires i <= j <= k <= |b|
    ensures b[i..k] == b[i..j] + b[j..k]
  {
  }

  lemma {:induction false} DecodeValueSound(b: bytes, pos: nat, depth: nat, elems: nat)
    requires pos <= |b| && depth <= MAX_DEPTH
    requires DecodeValue(b, pos, depth, elems).Ok?
    ensures var Ok(v, p, e) := DecodeValue(b, pos, depth, elems);
            ReadsValue(b, pos, depth, elems, v, p, e)
    decreases |b| - pos, 0
  {
    var major, ai := b[pos] / 32, b[pos] % 32;
    if major == 7 {
      assert b[pos..pos + 1] == [b[pos]];
    } else {
      HeaderRead(b, pos);
      var Arg(arg, next) := ReadArgument(b, pos + 1, ai);
      DecodeBodySound(b, pos, next, depth, elems, major, arg);
    }
  }

  lemma {:induction false} DecodeBodySound(
    b: bytes, start: nat, pos: nat, depth: nat, elems: nat, major: nat, arg: nat)
    requires start < pos <= |b| && depth <= MAX_DEPTH && elems + 1 <= MAX_ELEMENTS && major < 7
    requires b[start..pos] == Header(major, arg)
    requires DecodeBody(b, pos, depth, elems + 1, major, arg).Ok?
    ensures var Ok(v, p, e) := DecodeBody(b, pos, depth, elems + 1, major, arg);
            ReadsValue(b, start, depth, elems, v, p, e)
    decreases |b| - pos, 3
  {
    if major == 4 {
      DecodeItemsSound(b, pos, depth + 1, elems + 1, arg);
      var Ok(vs, p, e) := DecodeItems(b, pos, depth + 1, elems + 1, arg);
      SplitSlice(b, start, pos, p);
    } else if major == 5 {
      DecodeEntriesSound(b, pos, depth + 1, elems + 1, arg);
      var Ok(m, p, e) := DecodeEntries(b, pos, depth + 1, elems + 1, arg);
      SplitSlice(b, start, pos, p);
      OrderErrorMeaning(m.spans, 1);
    } else {
      DecodeScalarSound(b, start, pos, depth, elems, major, arg);
    }
  }

  lemma DecodeScalarSound(b: bytes, start: nat, pos: nat, depth: nat, elems: nat, major: nat, arg: nat)
    requires start < pos <= |b| && depth <= MAX_DEPTH && elems + 1 <= MAX_ELEMENTS && major < 4
    requires b[start..pos] == Header(major, arg)
    requires DecodeBody(b, pos, depth, elems + 1, major, arg).Ok?
    ensures var Ok(v, p, e) := DecodeBody(b, pos, depth, elems + 1, major, arg);
            ReadsValue(b, start, depth, elems, v, p, e)
  {
    if major >= 2 {
      SplitSlice(b, start, pos, pos + arg);
    }
  }

  lemma {:induction false} DecodeItemsSound(b: bytes, pos: nat, depth: nat, elems: nat, n: nat)
    requires pos <= |b| && elems <= MAX_ELEMENTS && depth <= MAX_DEPTH
    requires DecodeItems(b, pos, depth, elems, n).Ok?
    ensures var Ok(vs, p, e) := DecodeItems(b, pos, depth, elems, n);
            && b[pos..p] == EncodeItems(vs)
            && CanonicalItems(vs)
            && depth + HeightItems(vs) <= MAX_DEPTH
            && e == elems + NodesItems(vs)
    decreases |b| - pos, 2
  {
    if n > 0 {
      var Ok(v, p, e) := DecodeValue(b, pos, depth, elems);
      DecodeValueSound(b, pos, depth, elems);
      DecodeItemsSound(b, p, depth, e, n - 1);
      var Ok(vs, p', e') := DecodeItems(b, p, depth, e, n - 1);
      SplitSlice(b, pos, p, p');
      assert ([v] + vs)[1..] == vs;
    }
  }

  lemma {:induction false} DecodeEntriesSound(b: bytes, pos: nat, depth: nat, elems: nat, n: nat)
    requires pos <= |b| && elems <= MAX_ELEMENTS && depth <= MAX_DEPTH
    requires DecodeEntries(b, pos, depth, elems, n).Ok?
    ensures var Ok(m, p, e) := DecodeEntries(b, pos, depth, elems, n);
            && b[pos..p] == EncodeEntries(m.entries)
            && m.spans == KeySpans(m.entries)
            && CanonicalEntries(m.entries)
            && depth + HeightEntries(m.entries) <= MAX_DEPTH
            && e == elems + NodesEntries(m.entries)
    decreases |b| - pos, 2
  {
    if n > 0 {
      var Ok(se, p, e) := DecodeEntry(b, pos, depth, elems);
      DecodeEntrySound(b, pos, depth, elems);
      DecodeEntriesSound(b, p, depth, e, n - 1);
      var Ok(m, p', e') := DecodeEntries(b, p, depth, e, n - 1);
      SplitSlice(b, pos, p, p');
      assert ([se.entry] + m.entries)[1..] == m.entries;
    }
  }

  lemma {:induction false} DecodeEntrySound(b: bytes, pos: nat, depth: nat, elems: nat)
    requires pos <= |b| && elems <= MAX_ELEMENTS && depth <= MAX_DEPTH
    requires DecodeEntry(b, pos, depth, elems).Ok?
    ensures var Ok(se, p, e) := DecodeEntry(b, pos, depth, elems);
            && b[pos..p] == EncodeEntry(se.entry)
            && se.span == Encode(se.entry.key)
            && CanonicalEntry(se.entry)
            && depth + HeightEntry(se.entry) <= MAX_DEPTH
            && e == elems + NodesEntry(se.entry)
    decreases |b| - pos, 1
  {
    DecodeValueSound(b, pos, depth, elems);
    var Ok(k, p, e) := DecodeValue(b, pos, depth, elems);
    DecodeValueSound(b, p, depth, e);
    var Ok(v, p', e') := DecodeValue(b, p, depth, e);
    SplitSlice(b, pos, p, p');
  }

  lemma {:induction false} OrderErrorMeaning(spans: seq<bytes>, i: nat)
    requires i > 0
    ensures OrderError(spans, i).None? <==>
            forall k | i <= k < |spans| :: CanonicalCompare(spans[k - 1], spans[k]) == -1
    decreases |spans| - i
  {
    if i < |spans| {
      OrderErrorMeaning(spans, i + 1);
    }
  }

  // ----- completeness

  /** The bytes of `s` stand at the cursor. */
  ghost predicate At(b: bytes, pos: nat, s: bytes) {
    pos + |s| <= |b| && b[pos..pos + |s|] == s
  }

  lemma AtTail(b: bytes, pos: nat, s: bytes)
    requires At(b, pos, s)
    ensures s <= b[pos..]
  {
    assert b[pos..][..|s|] == b[pos..pos + |s|];
  }

  lemma AtSplit(b: bytes, pos: nat, s: bytes, t: bytes)
    ensures At(b, pos, s + t) <==> At(b, pos, s) && At(b, pos + |s|, t)
  {
    if pos + |s| + |t| <= |b| {
      SplitSlice(b, pos, pos + |s|, pos + |s| + |t|);
      assert (s + t)[..|s|] == s && (s + t)[|s|..] == t;
    }
  }

  lemma {:induction false} DecodeValueComplete(b: bytes, pos: nat, depth: nat, elems: nat, v: Value)
    requires |b| <= MAX_INPUT_SIZE && At(b, pos, Encode(v))
    requires Canonical(v) && depth + Height(v) <= MAX_DEPTH && elems + Nodes(v) <= MAX_ELEMENTS
    ensures DecodeValue(b, pos, depth, elems) == Ok(v, pos + |Encode(v)|, elems + Nodes(v))
    decreases v, 0
  {
    match v
    case Array(items) => DecodeArrayComplete(b, pos, depth, elems, items);
    case Map(entries) => DecodeMapComplete(b, pos, depth, elems, entries);
    case _ => DecodeScalarComplete(b, pos, depth, elems, v);
  }

  lemma {:induction false} DecodeArrayComplete(b: bytes, pos: nat, depth: nat, elems: nat, vs: seq<Value>)
    requires |b| <= MAX_INPUT_SIZE && At(b, pos, Header(4, |vs|) + EncodeItems(vs))
    requires CanonicalItems(vs) && depth + 1 + HeightItems(vs) <= MAX_DEPTH
    requires elems + 1 + NodesItems(vs) <= MAX_ELEMENTS
    ensures DecodeValue(b, pos, depth, elems) ==
            Ok(Array(vs), pos + |Header(4, |vs|)| + |EncodeItems(vs)|, elems + 1 + NodesItems(vs))
    decreases vs, 2
  {
    var start := pos + |Header(4, |vs|)|;
    AtSplit(b, pos, Header(4, |vs|), EncodeItems(vs));
    DecodeItemsComplete(b, start, depth + 1, elems + 1, vs);
    ArrayFromItems(b, pos, start, depth, elems, vs, DecodeItems(b, start, depth + 1, elems + 1, |vs|));
  }

  lemma ArrayFromItems(
    b: bytes, pos: nat, start: nat, depth: nat, elems: nat, vs: seq<Value>, r: Read<seq<Value>>)
    requires |b| <= MAX_INPUT_SIZE && At(b, pos, Header(4, |vs|)) && start == pos + |Header(4, |vs|)| && |vs| <= |b|
    requires elems + 1 <= MAX_ELEMENTS && depth < MAX_DEPTH
    requires r == DecodeItems(b, start, depth + 1, elems + 1, |vs|) && r.Ok? && r.val == vs
    ensures DecodeValue(b, pos, depth, elems) == Ok(Array(vs), r.pos, r.elems)
  {
    assert Header(4, |vs|) + [] == Header(4, |vs|);
    HeaderThenBody(b, pos, depth, elems, 4, |vs|, []);
    ArrayBody(b, start, depth, elems + 1, |vs|);
  }

  lemma ArrayBody(b: bytes, pos: nat, depth: nat, elems: nat, n: nat)
    requires pos <= |b| && elems <= MAX_ELEMENTS && depth < MAX_DEPTH
    ensures var r := DecodeItems(b, pos, depth + 1, elems, n);
            DecodeBody(b, pos, depth, elems, 4, n)
            == if r.Ok? then Ok(Array(r.val), r.pos, r.elems) else Err(r.error)
  {
  }

  lemma {:induction false} DecodeMapComplete(b: bytes, pos: nat, depth: nat, elems: nat, es: seq<Entry>)
    requires |b| <= MAX_INPUT_SIZE && At(b, pos, Header(5, |es|) + EncodeEntries(es))
    requires CanonicalEntries(es) && Ascending(KeySpans(es)) && depth + 1 + HeightEntries(es) <= MAX_DEPTH
    requires elems + 1 + NodesEntries(es) <= MAX_ELEMENTS
    ensures DecodeValue(b, pos, depth, elems) ==
            Ok(Map(es), pos + |Header(5, |es|)| + |EncodeEntries(es)|, elems + 1 + NodesEntries(es))
    decreases es, 2
  {
    var start := pos + |Header(5, |es|)|;
    AtSplit(b, pos, Header(5, |es|), EncodeEntries(es));
    DecodeEntriesComplete(b, start, depth + 1, elems + 1, es);
    MapFromEntries(b, pos, start, depth, elems, es, DecodeEntries(b, start, depth + 1, elems + 1, |es|));
  }

  lemma MapFromEntries(
    b: bytes, pos: nat, start: nat, depth: nat, elems: nat, es: seq<Entry>, r: Read<Spanned>)
    requires |b| <= MAX_INPUT_SIZE && At(b, pos, Header(5, |es|)) && start == pos + |Header(5, |es|)| && |es| <= |b|
    requires elems + 1 <= MAX_ELEMENTS && depth < MAX_DEPTH && Ascending(KeySpans(es))
    requires r == DecodeEntries(b, start, depth + 1, elems + 1, |es|) && r.Ok? && r.val == Spanned(es, KeySpans(es))
    ensures DecodeValue(b, pos, depth, elems) == Ok(Map(es), r.pos, r.elems)
  {
    assert Header(5, |es|) + [] == Header(5, |es|);
    HeaderThenBody(b, pos, depth, elems, 5, |es|, []);
    MapBody(b, start, depth, elems + 1, |es|);
    AscendingFinishes(es, r.pos, r.elems);
  }

  lemma MapBody(b: bytes, pos: nat, depth: nat, elems: nat, n: nat)
    requires pos <= |b| && elems <= MAX_ELEMENTS && depth < MAX_DEPTH
    ensures var r := DecodeEntries(b, pos, depth + 1, elems, n);
            DecodeBody(b, pos, depth, elems, 5, n) == if r.Ok? then FinishMap(r.val, r.pos, r.elems) else Err(r.error)
  {
  }

  lemma AscendingFinishes(es: seq<Entry>, p: nat, e: nat)
    requires Ascending(KeySpans(es))
    ensures FinishMap(Spanned(es, KeySpans(es)), p, e) == Ok(Map(es), p, e)
  {
    OrderErrorMeaning(KeySpans(es), 1);
  }

  lemma DecodeScalarComplete(b: bytes, pos: nat, depth: nat, elems: nat, v: Value)
    requires |b| <= MAX_INPUT_SIZE && At(b, pos, Encode(v)) && !v.Array? && !v.Map?
    requires Canonical(v) && elems + 1 <= MAX_ELEMENTS
    ensures DecodeValue(b, pos, depth, elems) == Ok(v, pos + |Encode(v)|, elems + 1)
  {
    if v.Bool? || v.Null? {
      DecodeSimpleComplete(b, pos, depth, elems, v);
    } else {
      var major, arg, s := ScalarParts(v).0, ScalarParts(v).1, ScalarParts(v).2;
      assert Header(major, arg) + s == Encode(v);
      HeaderThenBody(b, pos, depth, elems, major, arg, s);
      ScalarBody(b, pos + |Header(major, arg)|, depth, elems + 1, v);
    }
  }

  lemma DecodeSimpleComplete(b: bytes, pos: nat, depth: nat, elems: nat, v: Value)
    requires At(b, pos, Encode(v)) && (v.Bool? || v.Null?) && elems + 1 <= MAX_ELEMENTS
    ensures DecodeValue(b, pos, depth, elems) == Ok(v, pos + |Encode(v)|, elems + 1)
  {
    assert b[pos] == b[pos..pos + 1][0];
  }

  /** Major type, argument and content of a canonical integer or string. */
  function ScalarParts(v: Value): (nat, nat, bytes)
    requires Canonical(v) && (v.IsInt() || v.Bytes? || v.Text?)
  {
    match v
    case Uint(n) => (0, n, [])
    case NegInt(n) => (1, -1 - n, [])
    case Bytes(s) => (2, |s|, s)
    case Text(s) => (3, |s|, s)
  }

  lemma ScalarBody(b: bytes, pos: nat, depth: nat, elems: nat, v: Value)
    requires Canonical(v) && (v.IsInt() || v.Bytes? || v.Text?) && elems <= MAX_ELEMENTS
    requires At(b, pos, ScalarParts(v).2)
    ensures DecodeBody(b, pos, depth, elems, ScalarParts(v).0, ScalarParts(v).1)
            == Ok(v, pos + |ScalarParts(v).2|, elems)
  {
  }

  /** Reading an item whose header and following bytes are known goes on with its body. */
  lemma HeaderThenBody(b: bytes, pos: nat, depth: nat, elems: nat, major: nat, arg: nat, s: bytes)
    requires |b| <= MAX_INPUT_SIZE && major < 6 && arg < TWO_TO_THE_64 && elems + 1 <= MAX_ELEMENTS
    requires At(b, pos, Header(major, arg) + s)
    ensures At(b, pos + |Header(major, arg)|, s)
    ensures DecodeValue(b, pos, depth, elems) ==
            DecodeBody(b, pos + |Header(major, arg)|, depth, elems + 1, major, arg)
  {
    AtSplit(b, pos, Header(major, arg), s);
    HeaderReadBack(b, pos, major, arg);
  }

  lemma {:induction false} DecodeItemsComplete(b: bytes, pos: nat, depth: nat, elems: nat, vs: seq<Value>)
    requires |b| <= MAX_INPUT_SIZE && At(b, pos, EncodeItems(vs))
    requires CanonicalItems(vs) && depth + HeightItems(vs) <= MAX_DEPTH && elems + NodesItems(vs) <= MAX_ELEMENTS
    ensures DecodeItems(b, pos, depth, elems, |vs|) == Ok(vs, pos + |EncodeItems(vs)|, elems + NodesItems(vs))
    decreases vs, 1
  {
    if vs != [] {
      var p, e := pos + |Encode(vs[0])|, elems + Nodes(vs[0]);
      AtSplit(b, pos, Encode(vs[0]), EncodeItems(vs[1..]));
      DecodeValueComplete(b, pos, depth, elems, vs[0]);
      DecodeItemsComplete(b, p, depth, e, vs[1..]);
      ItemsStep(b, pos, depth, elems, vs, p, e);
    }
  }

  lemma ItemsStep(b: bytes, pos: nat, depth: nat, elems: nat, vs: seq<Value>, p: nat, e: nat)
    requires pos <= p <= |b| && elems <= MAX_ELEMENTS && e <= MAX_ELEMENTS && vs != []
    requires DecodeValue(b, pos, depth, elems) == Ok(vs[0], p, e)
    requires DecodeItems(b, p, depth, e, |vs| - 1).Ok? && DecodeItems(b, p, depth, e, |vs| - 1).val == vs[1..]
    ensures var r := DecodeItems(b, p, depth, e, |vs| - 1);
            DecodeItems(b, pos, depth, elems, |vs|) == Ok(vs, r.pos, r.elems)
  {
    assert vs == [vs[0]] + vs[1..];
  }

  lemma {:induction false} DecodeEntriesComplete(b: bytes, pos: nat, depth: nat, elems: nat, es: seq<Entry>)
    requires |b| <= MAX_INPUT_SIZE && At(b, pos, EncodeEntries(es))
    requires CanonicalEntries(es) && depth + HeightEntries(es) <= MAX_DEPTH
    requires elems + NodesEntries(es) <= MAX_ELEMENTS
    ensures DecodeEntries(b, pos, depth, elems, |es|) ==
            Ok(Spanned(es, KeySpans(es)), pos + |EncodeEntries(es)|, elems + NodesEntries(es))
    decreases es, 1
  {
    if es != [] {
      var p, e := pos + |EncodeEntry(es[0])|, elems + NodesEntry(es[0]);
      AtSplit(b, pos, EncodeEntry(es[0]), EncodeEntries(es[1..]));
      DecodeEntryComplete(b, pos, depth, elems, es[0]);
      DecodeEntriesComplete(b, p, depth, e, es[1..]);
      EntriesStep(b, pos, depth, elems, es, p, e);
    }
  }

  lemma EntriesStep(b: bytes, pos: nat, depth: nat, elems: nat, es: seq<Entry>, p: nat, e: nat)
    requires pos <= p <= |b| && elems <= MAX_ELEMENTS && e <= MAX_ELEMENTS && es != []
    requires DecodeEntry(b, pos, depth, elems) == Ok(SpannedEntry(es[0], Encode(es[0].key)), p, e)
    requires DecodeEntries(b, p, depth, e, |es| - 1).Ok?
    requires DecodeEntries(b, p, depth, e, |es| - 1).val == Spanned(es[1..], KeySpans(es[1..]))
    ensures var r := DecodeEntries(b, p, depth, e, |es| - 1);
            DecodeEntries(b, pos, depth, elems, |es|) == Ok(Spanned(es, KeySpans(es)), r.pos, r.elems)
  {
    assert es == [es[0]] + es[1..];
  }

  lemma {:induction false} DecodeEntryComplete(b: bytes, pos: nat, depth: nat, elems: nat, e: Entry)
    requires |b| <= MAX_INPUT_SIZE && At(b, pos, EncodeEntry(e))
    requires CanonicalEntry(e) && depth + HeightEntry(e) <= MAX_DEPTH && elems + NodesEntry(e) <= MAX_ELEMENTS
    ensures DecodeEntry(b, pos, depth, elems)
            == Ok(SpannedEntry(e, Encode(e.key)), pos + |EncodeEntry(e)|, elems + NodesEntry(e))
    decreases e, 0
  {
    var p, n := pos + |Encode(e.key)|, elems + Nodes(e.key);
    AtSplit(b, pos, Encode(e.key), Encode(e.val));
    DecodeValueComplete(b, pos, depth, elems, e.key);
    DecodeValueComplete(b, p, depth, n, e.val);
    EntryStep(b, pos, depth, elems, e, p, n);
  }

  lemma EntryStep(b: bytes, pos: nat, depth: nat, elems: nat, e: Entry, p: nat, n: nat)
    requires pos <= p <= |b| && elems <= MAX_ELEMENTS && n <= MAX_ELEMENTS
    ensures var r := DecodeValue(b, p, depth, n);
            DecodeValue(b, pos, depth, elems) == Ok(e.key, p, n) && b[pos..p] == Encode(e.key)
            && r.Ok? && r.val == e.val
            ==> DecodeEntry(b, pos, depth, elems) == Ok(SpannedEntry(e, Encode(e.key)), r.pos, r.elems)
  {
  }

  // ----- the accepted language

  /** Decoding succeeds exactly on buffers of at most 2^20 bytes that start with the canonical encoding of a value with
      at most 8 nested containers and 10000 nodes. */
  lemma DecodeExact(b: bytes, v: Value, n: nat)
    ensures Decode(b) == Success(Item(v, n)) <==>
            && |b| <= 1048576 && Encode(v) <= b && n == |Encode(v)|
            && Canonical(v) && Height(v) <= 8 && Nodes(v) <= 10000
  {
    if Decode(b) == Success(Item(v, n)) {
      DecodeValueSound(b, 0, 0, 0);
      assert b[0..n] == b[..n];
    } else if |b| <= MAX_INPUT_SIZE && Acceptable(v) && Encode(v) <= b && n == |Encode(v)| {
      assert b[0..n] == b[..n];
      DecodeValueComplete(b, 0, 0, 0, v);
    }
  }

  /** Decoding looks at nothing after the item: the caller may find where an embedded item ends. */
  lemma DecodeAppend(v: Value, suffix: bytes)
    requires Acceptable(v) && |Encode(v)| + |suffix| <= MAX_INPUT_SIZE
    ensures Decode(Encode(v) + suffix) == Success(Item(v, |Encode(v)|))
  {
    DecodeExact(Encode(v) + suffix, v, |Encode(v)|);
  }

  // ----- unique reading, without any limit on depth or number of elements

  function Major(v: Value): nat {
    match v
    case Uint(_) => 0
    case NegInt(_) => 1
    case Bytes(_) => 2
    case Text(_) => 3
    case Array(_) => 4
    case Map(_) => 5
    case _ => 7
  }

  lemma FirstByte(v: Value)
    ensures Encode(v)[0] / 32 == Major(v)
  {
  }

  lemma HeaderUnique(major: nat, m: nat, n: nat, s: bytes, t: bytes)
    requires major < 8 && m < TWO_TO_THE_64 && n < TWO_TO_THE_64
    requires Header(major, m) + s == Header(major, n) + t
    ensures m == n && s == t
  {
    var b := Header(major, m) + s;
    assert b[0..|Header(major, m)|] == Header(major, m) && b[0..|Header(major, n)|] == Header(major, n);
    HeaderReadBack(b, 0, major, m);
    HeaderReadBack(b, 0, major, n);
    assert b[|Header(major, m)|..] == s && b[|Header(major, n)|..] == t;
  }

  lemma SamePrefix(a: bytes, b: bytes, s: bytes, t: bytes)
    requires |a| == |b| && a + s == b + t
    ensures a == b && s == t
  {
    assert (a + s)[..|a|] == a && (b + t)[..|b|] == b;
    assert (a + s)[|a|..] == s && (b + t)[|b|..] == t;
  }

  lemma Associate(a: bytes, b: bytes, s: bytes)
    ensures (a + b) + s == a + (b + s)
  {
  }

  /** A byte string has at most one reading as a canonical value followed by a rest. */
  lemma {:induction false} UniqueReading(v: Value, w: Value, s: bytes, t: bytes)
    requires Canonical(v) && Canonical(w) && Encode(v) + s == Encode(w) + t
    requires |Encode(v)| < TWO_TO_THE_64 && |Encode(w)| < TWO_TO_THE_64
    ensures v == w && s == t
    decreases v, 0
  {
    assert (Encode(v) + s)[0] == Encode(v)[0] && (Encode(w) + t)[0] == Encode(w)[0];
    FirstByte(v);
    FirstByte(w);
    match v
    case Uint(m) => HeaderUnique(0, m, w.n, s, t);
    case NegInt(m) => HeaderUnique(1, -1 - m, -1 - w.n, s, t);
    case Bytes(a) => UniqueString(2, a, w.b, s, t);
    case Text(a) => UniqueString(3, a, w.t, s, t);
    case Array(vs) =>
      Associate(Header(4, |vs|), EncodeItems(vs), s);
      Associate(Header(4, |w.items|), EncodeItems(w.items), t);
      HeaderUnique(4, |vs|, |w.items|, EncodeItems(vs) + s, EncodeItems(w.items) + t);
      UniqueItems(vs, w.items, s, t);
    case Map(es) =>
      Associate(Header(5, |es|), EncodeEntries(es), s);
      Associate(Header(5, |w.entries|), EncodeEntries(w.entries), t);
      HeaderUnique(5, |es|, |w.entries|, EncodeEntries(es) + s, EncodeEntries(w.entries) + t);
      UniqueEntries(es, w.entries, s, t);
    case _ => SamePrefix(Encode(v), Encode(w), s, t);
  }

  lemma UniqueString(major: nat, a: bytes, b: bytes, s: bytes, t: bytes)
    requires major < 8 && |a| < TWO_TO_THE_64 && |b| < TWO_TO_THE_64
    requires Header(major, |a|) + a + s == Header(major, |b|) + b + t
    ensures a == b && s == t
  {
    Associate(Header(major, |a|), a, s);
    Associate(Header(major, |b|), b, t);
    HeaderUnique(major, |a|, |b|, a + s, b + t);
    SamePrefix(a, b, s, t);
  }

  lemma {:induction false} UniqueItems(vs: seq<Value>, ws: seq<Value>, s: bytes, t: bytes)
    requires |vs| == |ws| && CanonicalItems(vs) && CanonicalItems(ws)
    requires EncodeItems(vs) + s == EncodeItems(ws) + t
    requires |EncodeItems(vs)| < TWO_TO_THE_64 && |EncodeItems(ws)| < TWO_TO_THE_64
    ensures vs == ws && s == t
    decreases vs, 1
  {
    if vs == [] {
      assert [] + s == s && [] + t == t;
    } else {
      Associate(Encode(vs[0]), EncodeItems(vs[1..]), s);
      Associate(Encode(ws[0]), EncodeItems(ws[1..]), t);
      UniqueReading(vs[0], ws[0], EncodeItems(vs[1..]) + s, EncodeItems(ws[1..]) + t);
      UniqueItems(vs[1..], ws[1..], s, t);
      assert vs == [vs[0]] + vs[1..] && ws == [ws[0]] + ws[1..];
    }
  }

  lemma {:induction false} UniqueEntries(es: seq<Entry>, fs: seq<Entry>, s: bytes, t: bytes)
    requires |es| == |fs| && CanonicalEntries(es) && CanonicalEntries(fs)
    requires EncodeEntries(es) + s == EncodeEntries(fs) + t
    requires |EncodeEntries(es)| < TWO_TO_THE_64 && |EncodeEntries(fs)| < TWO_TO_THE_64
    ensures es == fs && s == t
    decreases es, 1
  {
    if es == [] {
      assert [] + s == s && [] + t == t;
    } else {
      Associate(EncodeEntry(es[0]), EncodeEntries(es[1..]), s);
      Associate(EncodeEntry(fs[0]), EncodeEntries(fs[1..]), t);
      UniqueEntry(es[0], fs[0], EncodeEntries(es[1..]) + s, EncodeEntries(fs[1..]) + t);
      UniqueEntries(es[1..], fs[1..], s, t);
      assert es == [es[0]] + es[1..] && fs == [fs[0]] + fs[1..];
    }
  }

  lemma {:induction false} UniqueEntry(e: Entry, f: Entry, s: bytes, t: bytes)
    requires CanonicalEntry(e) && CanonicalEntry(f) && EncodeEntry(e) + s == EncodeEntry(f) + t
    requires |EncodeEntry(e)| < TWO_TO_THE_64 && |EncodeEntry(f)| < TWO_TO_THE_64
    ensures e == f && s == t
    decreases e, 0
  {
    Associate(Encode(e.key), Encode(e.val), s);
    Associate(Encode(f.key), Encode(f.val), t);
    UniqueReading(e.key, f.key, Encode(e.val) + s, Encode(f.val) + t);
    UniqueReading(e.val, f.val, s, t);
  }

  /** No canonical encoding is a prefix of another, and encodings determine values. */
  lemma PrefixFree(v: Value, w: Value)
    requires Canonical(v) && Canonical(w) && |Encode(w)| < TWO_TO_THE_64
    requires Encode(v) <= Encode(w)
    ensures v == w
  {
    var rest := Encode(w)[|Encode(v)|..];
    assert Encode(v) + rest == Encode(w) + [];
    UniqueReading(v, w, rest, []);
  }

  // ----- finality

  lemma {:induction false} DecodeValueFinal(b: bytes, s: bytes, pos: nat, depth: nat, elems: nat)
    requires pos <= |b|
    requires DecodeValue(b, pos, depth, elems) != Err(Truncated)
    ensures DecodeValue(b + s, pos, depth, elems) == DecodeValue(b, pos, depth, elems)
    decreases |b| - pos, 0
  {
    if elems + 1 <= MAX_ELEMENTS {
      var major, ai := b[pos] / 32, b[pos] % 32;
      if 24 <= ai <= 27 && pos + 1 + ArgWidth(ai) <= |b| {
        assert (b + s)[pos + 1..pos + 1 + ArgWidth(ai)] == b[pos + 1..pos + 1 + ArgWidth(ai)];
      }
      if major < 7 {
        var r := ReadArgument(b, pos + 1, ai);
        assert ReadArgument(b + s, pos + 1, ai) == r;
        if r.Arg? {
          DecodeBodyFinal(b, s, r.next, depth, elems + 1, major, r.arg);
        }
      }
    }
  }

  lemma {:induction false} DecodeBodyFinal(
    b: bytes, s: bytes, pos: nat, depth: nat, elems: nat, major: nat, arg: nat)
    requires pos <= |b| && elems <= MAX_ELEMENTS
    requires DecodeBody(b, pos, depth, elems, major, arg) != Err(Truncated)
    ensures DecodeBody(b + s, pos, depth, elems, major, arg) == DecodeBody(b, pos, depth, elems, major, arg)
    decreases |b| - pos, 3
  {
    if major == 2 || major == 3 {
      assert (b + s)[pos..pos + arg] == b[pos..pos + arg];
    } else if major == 4 && depth < MAX_DEPTH {
      DecodeItemsFinal(b, s, pos, depth + 1, elems, arg);
    } else if major == 5 && depth < MAX_DEPTH {
      DecodeEntriesFinal(b, s, pos, depth + 1, elems, arg);
    }
  }

  lemma {:induction false} DecodeItemsFinal(b: bytes, s: bytes, pos: nat, depth: nat, elems: nat, n: nat)
    requires pos <= |b| && elems <= MAX_ELEMENTS
    requires DecodeItems(b, pos, depth, elems, n) != Err(Truncated)
    ensures DecodeItems(b + s, pos, depth, elems, n) == DecodeItems(b, pos, depth, elems, n)
    decreases |b| - pos, 2
  {
    if n > 0 {
      DecodeValueFinal(b, s, pos, depth, elems);
      match DecodeValue(b, pos, depth, elems)
      case Err(_) =>
      case Ok(_, p, e) => DecodeItemsFinal(b, s, p, depth, e, n - 1);
    }
  }

  lemma {:induction false} DecodeEntriesFinal(b: bytes, s: bytes, pos: nat, depth: nat, elems: nat, n: nat)
    requires pos <= |b| && elems <= MAX_ELEMENTS
    requires DecodeEntries(b, pos, depth, elems, n) != Err(Truncated)
    ensures DecodeEntries(b + s, pos, depth, elems, n) == DecodeEntries(b, pos, depth, elems, n)
    decreases |b| - pos, 2
  {
    if n > 0 {
      DecodeEntryFinal(b, s, pos, depth, elems);
      match DecodeEntry(b, pos, depth, elems)
      case Err(_) =>
      case Ok(_, p, e) => DecodeEntriesFinal(b, s, p, depth, e, n - 1);
    }
  }

  lemma {:induction false} DecodeEntryFinal(b: bytes, s: bytes, pos: nat, depth: nat, elems: nat)
    requires pos <= |b| && elems <= MAX_ELEMENTS
    requires DecodeEntry(b, pos, depth, elems) != Err(Truncated)
    ensures DecodeEntry(b + s, pos, depth, elems) == DecodeEntry(b, pos, depth, elems)
    decreases |b| - pos, 1
  {
    DecodeValueFinal(b, s, pos, depth, elems);
    match DecodeValue(b, pos, depth, elems)
    case Err(_) =>
    case Ok(_, p, e) =>
      DecodeValueFinal(b, s, p, depth, e);
      assert (b + s)[pos..p] == b[pos..p];
  }

  /** Every outcome except truncation and over-size, errors included, survives any continuation of the input. */
  lemma DecodeFinal(b: bytes, suffix: bytes)
    requires |b| + |suffix| <= MAX_INPUT_SIZE
    requires Decode(b) != Failure(Truncated)
    ensures Decode(b + suffix) == Decode(b)
  {
    DecodeValueFinal(b, suffix, 0, 0, 0);
  }

  /** Cutting an accepted item short anywhere gives truncation and no other error. */
  lemma StrictPrefixTruncated(b: bytes, n: nat)
    requires Decode(b).Success? && n < Decode(b).value.size
    ensures Decode(b[..n]) == Failure(Truncated)
  {
    assert b[..n] + b[n..] == b;
    if Decode(b[..n]) != Failure(Truncated) {
      DecodeFinal(b[..n], b[n..]);
    }
  }
}
