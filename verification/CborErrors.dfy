/** Which inputs the decoder refuses, and with which error: the first defect in reading order decides. A refused input
    is described by what stands before the defect, and the description is printed, not decoded. */
module CborErrors {
  import opened ByteStrings
  import opened CborValue
  import opened CborDecode
  import opened CborTheorems
  import CborOrder

  // ----- what can be wrong

  /** A defect of an item's own header, argument or content. */
  datatype Defect =
    | Absent
    | ArgumentCut(major: nat, ai: nat, rest: bytes)
    | ArgumentLong(major: nat, ai: nat, arg: nat)
    | InfoReserved(major: nat, ai: nat)
    | IntegerTooBig(major: nat, arg: nat)
    | Tagged(arg: nat)
    | SimpleUnknown(ai: nat, payload: bytes)
    | StringCut(major: nat, arg: nat, rest: bytes)
    | TooDeep(major: nat, arg: nat)
    | TooMany

  /** An item with a defect: its own, that of a part after `done` sound ones, or two keys `k - 1` and `k` of a map whose
      entries are all sound, the first ones out of order. */
  datatype Broken =
    | Here(defect: Defect)
    | InArray(count: nat, done: seq<Value>, next: Broken)
    | InKey(count: nat, before: seq<Entry>, next: Broken)
    | InValue(count: nat, before: seq<Entry>, key: Value, next: Broken)
    | Disorder(entries: seq<Entry>, k: nat)

  /** The least value for which each of the four argument widths is the shortest. */
  function Floor(ai: nat): nat
    requires 24 <= ai <= 27
  {
    match ai
    case 24 => 24
    case 25 => 256
    case 26 => 65536
    case 27 => 4294967296
  }

  /** Bytes of argument, or of payload for floats and simple values, that the additional information announces. */
  function Width(ai: nat): nat {
    match ai
    case 24 => 1
    case 25 => 2
    case 26 => 4
    case 27 => 8
    case _ => 0
  }

  predicate Shaped(d: Defect) {
    match d
    case Absent => true
    case TooMany => true
    case ArgumentCut(major, ai, rest) => major < 8 && 24 <= ai <= 27 && |rest| < Width(ai)
    case ArgumentLong(major, ai, arg) => major < 7 && 24 <= ai <= 27 && arg < Floor(ai)
    case InfoReserved(major, ai) => major < 7 && 28 <= ai < 32
    case IntegerTooBig(major, arg) => major < 2 && 0x8000_0000_0000_0000 <= arg < 0x1_0000_0000_0000_0000
    case Tagged(arg) => arg < 0x1_0000_0000_0000_0000
    case SimpleUnknown(ai, payload) => ai < 32 && !(20 <= ai <= 22) && |payload| == Width(ai)
    case StringCut(major, arg, rest) => 2 <= major <= 3 && |rest| < arg < 0x1_0000_0000_0000_0000
    case TooDeep(major, arg) => 4 <= major <= 5 && arg < 0x1_0000_0000_0000_0000
  }

  function PrintDefect(d: Defect): bytes
    requires Shaped(d)
  {
    match d
    case Absent => []
    case TooMany => []
    case ArgumentCut(major, ai, rest) => [32 * major + ai] + rest
    case ArgumentLong(major, ai, arg) => [32 * major + ai] + ToBE(arg, Width(ai))
    case InfoReserved(major, ai) => [32 * major + ai]
    case IntegerTooBig(major, arg) => Header(major, arg)
    case Tagged(arg) => Header(6, arg)
    case SimpleUnknown(ai, payload) => [0xe0 + ai] + payload
    case StringCut(major, arg, rest) => Header(major, arg) + rest
    case TooDeep(major, arg) => Header(major, arg)
  }

  function DefectKind(d: Defect): Error {
    match d
    case Absent => Truncated
    case ArgumentCut(_, _, _) => Truncated
    case StringCut(_, _, _) => Truncated
    case ArgumentLong(_, _, _) => NonCanonical
    case TooDeep(_, _) => DepthExceeded
    case TooMany => TooManyElements
    case _ => Unsupported
  }

  /** Entries `k - 1` and `k` are the first whose keys do not ascend. */
  ghost predicate FirstDisorder(es: seq<Entry>, k: nat) {
    && 0 < k < |es|
    && CanonicalCompare(Encode(es[k - 1].key), Encode(es[k].key)) != -1
    && forall j | 0 < j < k :: CanonicalCompare(Encode(es[j - 1].key), Encode(es[j].key)) == -1
  }

  /** What stands before the defect is sound and within the limits, `depth` containers and `elems` elements in: at most
      8 nested containers and 10000 elements. */
  ghost predicate Proper(br: Broken, depth: nat, elems: nat)
    decreases br
  {
    match br
    case Here(d) =>
      Shaped(d) && (if d.TooMany? then elems >= 10000 else elems < 10000) && (d.TooDeep? ==> depth >= 8)
    case InArray(count, done, next) =>
      && elems < 10000 && depth < 8 && |done| < count < 0x1_0000_0000_0000_0000
      && CanonicalItems(done) && depth + 1 + HeightItems(done) <= 8 && elems + 1 + NodesItems(done) <= 10000
      && Proper(next, depth + 1, elems + 1 + NodesItems(done))
    case InKey(count, before, next) =>
      && Begun(count, before, depth, elems)
      && Proper(next, depth + 1, elems + 1 + NodesEntries(before))
    case InValue(count, before, key, next) =>
      && Begun(count, before, depth, elems)
      && Canonical(key) && depth + 1 + Height(key) <= 8 && elems + 1 + NodesEntries(before) + Nodes(key) <= 10000
      && Proper(next, depth + 1, elems + 1 + NodesEntries(before) + Nodes(key))
    case Disorder(es, k) =>
      && elems < 10000 && depth < 8 && |es| < 0x1_0000_0000_0000_0000
      && CanonicalEntries(es) && depth + 1 + HeightEntries(es) <= 8 && elems + 1 + NodesEntries(es) <= 10000
      && FirstDisorder(es, k)
  }

  predicate Begun(count: nat, before: seq<Entry>, depth: nat, elems: nat) {
    && elems < 10000 && depth < 8 && |before| < count < 0x1_0000_0000_0000_0000
    && CanonicalEntries(before) && depth + 1 + HeightEntries(before) <= 8 && elems + 1 + NodesEntries(before) <= 10000
  }

  function Print(br: Broken): bytes
    requires Printable(br)
  {
    match br
    case Here(d) => PrintDefect(d)
    case InArray(count, done, next) => Header(4, count) + (EncodeItems(done) + Print(next))
    case InKey(count, before, next) => Header(5, count) + (EncodeEntries(before) + Print(next))
    case InValue(count, before, key, next) => Header(5, count) + (EncodeEntries(before) + (Encode(key) + Print(next)))
    case Disorder(es, _) => Header(5, |es|) + EncodeEntries(es)
  }

  predicate Printable(br: Broken) {
    match br
    case Here(d) => Shaped(d)
    case InArray(_, _, next) => Printable(next)
    case InKey(_, _, next) => Printable(next)
    case InValue(_, _, _, next) => Printable(next)
    case Disorder(_, _) => true
  }

  lemma {:induction false} ProperIsPrintable(br: Broken, depth: nat, elems: nat)
    requires Proper(br, depth, elems)
    ensures Printable(br)
  {
    match br
    case InArray(_, done, next) => ProperIsPrintable(next, depth + 1, elems + 1 + NodesItems(done));
    case InKey(_, before, next) => ProperIsPrintable(next, depth + 1, elems + 1 + NodesEntries(before));
    case InValue(_, before, key, next) =>
      ProperIsPrintable(next, depth + 1, elems + 1 + NodesEntries(before) + Nodes(key));
    case _ =>
  }

  function Kind(br: Broken): Error {
    match br
    case Here(d) => DefectKind(d)
    case InArray(_, _, next) => Kind(next)
    case InKey(_, _, next) => Kind(next)
    case InValue(_, _, _, next) => Kind(next)
    case Disorder(es, k) => if 0 < k < |es| && es[k - 1].key == es[k].key then DuplicateKey else MapOrder
  }

  /** The printed form stands at the cursor; if something is missing, it is because the input ends there. */
  ghost predicate Stands(b: bytes, pos: nat, br: Broken) {
    && Printable(br) && At(b, pos, Print(br))
    && (Kind(br) == Truncated ==> pos + |Print(br)| == |b|)
  }

  // ----- order errors

  /** The pass over adjacent key spans reports the first pair that does not ascend: a duplicate if the spans are equal,
      else an order error. */
  lemma {:induction false} OrderErrorExact(spans: seq<bytes>, i: nat, k: nat)
    requires 0 < i <= k < |spans|
    requires forall j | i <= j < k :: CanonicalCompare(spans[j - 1], spans[j]) == -1
    requires CanonicalCompare(spans[k - 1], spans[k]) != -1
    ensures OrderError(spans, i) == Some(if spans[k - 1] == spans[k] then DuplicateKey else MapOrder)
    decreases k - i
  {
    CborOrder.CanonicalCompareTotal(spans[i - 1], spans[i]);
    if i < k {
      OrderErrorExact(spans, i + 1, k);
    }
  }

  lemma {:induction false} FirstBad(spans: seq<bytes>, i: nat) returns (k: nat)
    requires i > 0 && OrderError(spans, i).Some?
    ensures i <= k < |spans| && CanonicalCompare(spans[k - 1], spans[k]) != -1
    ensures forall j | i <= j < k :: CanonicalCompare(spans[j - 1], spans[j]) == -1
    decreases |spans| - i
  {
    k := i;
    if CanonicalCompare(spans[i - 1], spans[i]) == -1 {
      k := FirstBad(spans, i + 1);
    }
  }

  lemma EqualSpans(es: seq<Entry>, k: nat)
    requires 0 < k < |es| && CanonicalEntries(es)
    requires |Encode(es[k - 1].key)| < TWO_TO_THE_64 && |Encode(es[k].key)| < TWO_TO_THE_64
    ensures KeySpans(es)[k - 1] == KeySpans(es)[k] <==> es[k - 1].key == es[k].key
  {
    KeySpanAt(es, k - 1);
    KeySpanAt(es, k);
    EntryAt(es, k - 1);
    EntryAt(es, k);
    if Encode(es[k - 1].key) == Encode(es[k].key) {
      PrefixFree(es[k - 1].key, es[k].key);
    }
  }

  lemma {:induction false} EntryAt(es: seq<Entry>, k: nat)
    requires k < |es| && CanonicalEntries(es)
    ensures CanonicalEntry(es[k]) && |Encode(es[k].key)| <= |EncodeEntries(es)|
  {
    if k > 0 {
      EntryAt(es[1..], k - 1);
    }
  }

  lemma {:induction false} SpansOf(es: seq<Entry>)
    ensures forall j | 0 <= j < |es| :: KeySpans(es)[j] == Encode(es[j].key)
  {
    forall j | 0 <= j < |es|
      ensures KeySpans(es)[j] == Encode(es[j].key)
    {
      KeySpanAt(es, j);
    }
  }

  /** The error of a map whose entries are sound and whose keys first fail to ascend at `k`. */
  lemma DisorderFinishes(es: seq<Entry>, k: nat, p: nat, e: nat)
    requires CanonicalEntries(es) && FirstDisorder(es, k) && |EncodeEntries(es)| < TWO_TO_THE_64
    ensures FinishMap(Spanned(es, KeySpans(es)), p, e) == Err(Kind(Disorder(es, k)))
  {
    SpansOf(es);
    EntryAt(es, k - 1);
    EntryAt(es, k);
    EqualSpans(es, k);
    OrderErrorExact(KeySpans(es), 1, k);
  }

  // ----- a defect is reported

  lemma {:induction false} ItemsFail(
    b: bytes, pos: nat, depth: nat, elems: nat, n: nat, done: seq<Value>, at: nat, e: nat, x: Error)
    requires |b| <= MAX_INPUT_SIZE && At(b, pos, EncodeItems(done)) && |done| < n
    requires CanonicalItems(done) && depth + HeightItems(done) <= MAX_DEPTH
    requires at == pos + |EncodeItems(done)| && e == elems + NodesItems(done) <= MAX_ELEMENTS
    requires DecodeValue(b, at, depth, e) == Err(x)
    ensures DecodeItems(b, pos, depth, elems, n) == Err(x)
    decreases done
  {
    if done != [] {
      FirstItemReads(b, pos, depth, elems, done);
      var r := DecodeValue(b, pos, depth, elems);
      ItemsFail(b, r.pos, depth, r.elems, n - 1, done[1..], at, e, x);
      LaterItemFails(b, pos, depth, elems, n, x);
    } else {
      assert at == pos && e == elems;
    }
  }

  lemma FirstItemReads(b: bytes, pos: nat, depth: nat, elems: nat, vs: seq<Value>)
    requires |b| <= MAX_INPUT_SIZE && At(b, pos, EncodeItems(vs)) && vs != []
    requires CanonicalItems(vs) && depth + HeightItems(vs) <= MAX_DEPTH && elems + NodesItems(vs) <= MAX_ELEMENTS
    ensures var r := DecodeValue(b, pos, depth, elems);
            && r.Ok? && r.pos == pos + |Encode(vs[0])| && r.elems == elems + Nodes(vs[0])
            && At(b, r.pos, EncodeItems(vs[1..]))
    ensures CanonicalItems(vs[1..]) && depth + HeightItems(vs[1..]) <= MAX_DEPTH
    ensures NodesItems(vs) == Nodes(vs[0]) + NodesItems(vs[1..])
    ensures |EncodeItems(vs)| == |Encode(vs[0])| + |EncodeItems(vs[1..])|
  {
    AtSplit(b, pos, Encode(vs[0]), EncodeItems(vs[1..]));
    DecodeValueComplete(b, pos, depth, elems, vs[0]);
  }

  lemma LaterItemFails(b: bytes, pos: nat, depth: nat, elems: nat, n: nat, x: Error)
    requires pos <= |b| && elems <= MAX_ELEMENTS && n > 0
    ensures var r := DecodeValue(b, pos, depth, elems);
            r.Ok? && DecodeItems(b, r.pos, depth, r.elems, n - 1) == Err(x)
            ==> DecodeItems(b, pos, depth, elems, n) == Err(x)
  {
  }

  lemma {:induction false} EntriesFail(
    b: bytes, pos: nat, depth: nat, elems: nat, n: nat, before: seq<Entry>, at: nat, e: nat, x: Error)
    requires |b| <= MAX_INPUT_SIZE && At(b, pos, EncodeEntries(before)) && |before| < n
    requires CanonicalEntries(before) && depth + HeightEntries(before) <= MAX_DEPTH
    requires at == pos + |EncodeEntries(before)| && e == elems + NodesEntries(before) <= MAX_ELEMENTS
    requires DecodeEntry(b, at, depth, e) == Err(x)
    ensures DecodeEntries(b, pos, depth, elems, n) == Err(x)
    decreases before
  {
    if before != [] {
      FirstEntryReads(b, pos, depth, elems, before);
      var r := DecodeEntry(b, pos, depth, elems);
      EntriesFail(b, r.pos, depth, r.elems, n - 1, before[1..], at, e, x);
      LaterEntryFails(b, pos, depth, elems, n, x);
    } else {
      assert at == pos && e == elems;
      FirstEntryFails(b, pos, depth, elems, n, x);
    }
  }

  lemma FirstEntryFails(b: bytes, pos: nat, depth: nat, elems: nat, n: nat, x: Error)
    requires pos <= |b| && elems <= MAX_ELEMENTS && n > 0
    ensures DecodeEntry(b, pos, depth, elems) == Err(x) ==> DecodeEntries(b, pos, depth, elems, n) == Err(x)
  {
  }

  lemma FirstEntryReads(b: bytes, pos: nat, depth: nat, elems: nat, es: seq<Entry>)
    requires |b| <= MAX_INPUT_SIZE && At(b, pos, EncodeEntries(es)) && es != []
    requires CanonicalEntries(es) && depth + HeightEntries(es) <= MAX_DEPTH && elems + NodesEntries(es) <= MAX_ELEMENTS
    ensures var r := DecodeEntry(b, pos, depth, elems);
            && r.Ok? && r.pos == pos + |EncodeEntry(es[0])| && r.elems == elems + NodesEntry(es[0])
            && At(b, r.pos, EncodeEntries(es[1..]))
    ensures CanonicalEntries(es[1..]) && depth + HeightEntries(es[1..]) <= MAX_DEPTH
    ensures NodesEntries(es) == NodesEntry(es[0]) + NodesEntries(es[1..])
    ensures |EncodeEntries(es)| == |EncodeEntry(es[0])| + |EncodeEntries(es[1..])|
  {
    AtSplit(b, pos, EncodeEntry(es[0]), EncodeEntries(es[1..]));
    DecodeEntryComplete(b, pos, depth, elems, es[0]);
  }

  lemma LaterEntryFails(b: bytes, pos: nat, depth: nat, elems: nat, n: nat, x: Error)
    requires pos <= |b| && elems <= MAX_ELEMENTS && n > 0
    ensures var r := DecodeEntry(b, pos, depth, elems);
            r.Ok? && DecodeEntries(b, r.pos, depth, r.elems, n - 1) == Err(x)
            ==> DecodeEntries(b, pos, depth, elems, n) == Err(x)
  {
  }

  lemma DefectReported(b: bytes, pos: nat, depth: nat, elems: nat, d: Defect)
    requires |b| <= MAX_INPUT_SIZE && Proper(Here(d), depth, elems) && Stands(b, pos, Here(d))
    ensures DecodeValue(b, pos, depth, elems) == Err(DefectKind(d))
  {
    match d
    case ArgumentCut(_, _, _) => InfoReported(b, pos, depth, elems, d);
    case ArgumentLong(_, _, _) => InfoReported(b, pos, depth, elems, d);
    case InfoReserved(_, _) => InfoReported(b, pos, depth, elems, d);
    case SimpleUnknown(ai, payload) => FirstByteAt(b, pos, 7, ai, payload);
    case IntegerTooBig(major, arg) => HeaderAlone(b, pos, depth, elems, major, arg);
    case StringCut(major, arg, rest) => StringCutReported(b, pos, depth, elems, major, arg, rest);
    case TooDeep(major, arg) => HeaderAlone(b, pos, depth, elems, major, arg);
    case Tagged(arg) => TagReported(b, pos, depth, elems, arg);
    case _ =>
  }

  lemma StringCutReported(b: bytes, pos: nat, depth: nat, elems: nat, major: nat, arg: nat, rest: bytes)
    requires |b| <= MAX_INPUT_SIZE && 2 <= major <= 3 && |rest| < arg < TWO_TO_THE_64 && elems < MAX_ELEMENTS
    requires At(b, pos, Header(major, arg) + rest) && pos + |Header(major, arg) + rest| == |b|
    ensures DecodeValue(b, pos, depth, elems) == Err(Truncated)
  {
    HeaderThenBody(b, pos, depth, elems, major, arg, rest);
  }

  /** Defects between the first byte and the end of the argument. */
  lemma InfoReported(b: bytes, pos: nat, depth: nat, elems: nat, d: Defect)
    requires Proper(Here(d), depth, elems) && Stands(b, pos, Here(d))
    requires d.ArgumentCut? || d.ArgumentLong? || d.InfoReserved?
    ensures DecodeValue(b, pos, depth, elems) == Err(DefectKind(d))
  {
    var rest := if d.ArgumentCut? then d.rest else if d.ArgumentLong? then ToBE(d.arg, Width(d.ai)) else [];
    assert PrintDefect(d) == [32 * d.major + d.ai] + rest;
    FirstByteAt(b, pos, d.major, d.ai, rest);
    if d.ArgumentLong? {
      ArgumentLongReported(b, pos + 1, d.ai, d.arg);
    }
    ArgumentError(b, pos, depth, elems);
  }

  lemma ArgumentLongReported(b: bytes, pos: nat, ai: nat, arg: nat)
    requires 24 <= ai <= 27 && arg < Floor(ai) && At(b, pos, ToBE(arg, Width(ai)))
    ensures ReadArgument(b, pos, ai) == BadArg(NonCanonical)
  {
    FloorBelowWidth(ai);
    FromToBEExact(arg, Width(ai));
  }

  /** A simple value cut short, or an argument that cannot be read, is the error of the item. */
  lemma ArgumentError(b: bytes, pos: nat, depth: nat, elems: nat)
    requires pos < |b| && elems < MAX_ELEMENTS
    ensures var r := ReadArgument(b, pos + 1, b[pos] % 32);
            b[pos] / 32 < 7 && r.BadArg? ==> DecodeValue(b, pos, depth, elems) == Err(r.error)
    ensures b[pos] / 32 == 7 ==> DecodeValue(b, pos, depth, elems) == DecodeSimple(b, pos + 1, elems + 1, b[pos] % 32)
  {
  }

  lemma FirstByteAt(b: bytes, pos: nat, major: nat, ai: nat, rest: bytes)
    requires major < 8 && ai < 32 && At(b, pos, [32 * major + ai] + rest)
    ensures b[pos] / 32 == major && b[pos] % 32 == ai && At(b, pos + 1, rest)
  {
    AtSplit(b, pos, [32 * major + ai], rest);
    assert b[pos] == b[pos..pos + 1][0];
  }

  lemma FloorBelowWidth(ai: nat)
    requires 24 <= ai <= 27
    ensures Floor(ai) <= Pow256(Width(ai)) && Floor(ai) == ArgFloor(ai) && Width(ai) == ArgWidth(ai)
  {
    SmallPowers();
  }

  lemma HeaderAlone(b: bytes, pos: nat, depth: nat, elems: nat, major: nat, arg: nat)
    requires |b| <= MAX_INPUT_SIZE && major < 6 && arg < TWO_TO_THE_64 && elems + 1 <= MAX_ELEMENTS
    requires At(b, pos, Header(major, arg))
    ensures pos + |Header(major, arg)| <= |b|
    ensures DecodeValue(b, pos, depth, elems) ==
            DecodeBody(b, pos + |Header(major, arg)|, depth, elems + 1, major, arg)
  {
    assert Header(major, arg) + [] == Header(major, arg);
    HeaderThenBody(b, pos, depth, elems, major, arg, []);
  }

  lemma TagReported(b: bytes, pos: nat, depth: nat, elems: nat, arg: nat)
    requires arg < TWO_TO_THE_64 && elems + 1 <= MAX_ELEMENTS && At(b, pos, Header(6, arg))
    ensures DecodeValue(b, pos, depth, elems) == Err(Unsupported)
  {
    HeaderReadBack(b, pos, 6, arg);
  }

  /** A defect that stands at the cursor is what the decoder reports. */
  lemma {:induction false} BrokenReported(b: bytes, pos: nat, depth: nat, elems: nat, br: Broken)
    requires |b| <= MAX_INPUT_SIZE && depth <= MAX_DEPTH && Proper(br, depth, elems) && Stands(b, pos, br)
    ensures DecodeValue(b, pos, depth, elems) == Err(Kind(br))
    decreases br, 1
  {
    match br
    case Here(d) => DefectReported(b, pos, depth, elems, d);
    case InArray(_, _, _) => InArrayReported(b, pos, depth, elems, br);
    case InKey(_, _, _) => InKeyReported(b, pos, depth, elems, br);
    case InValue(_, _, _, _) => InValueReported(b, pos, depth, elems, br);
    case Disorder(es, k) => DisorderReported(b, pos, depth, elems, es, k);
  }

  lemma {:induction false} InArrayReported(b: bytes, pos: nat, depth: nat, elems: nat, br: Broken)
    requires |b| <= MAX_INPUT_SIZE && depth <= MAX_DEPTH && Proper(br, depth, elems) && Stands(b, pos, br)
    requires br.InArray?
    ensures DecodeValue(b, pos, depth, elems) == Err(Kind(br))
    decreases br, 0
  {
    var InArray(count, done, next) := br;
    var start := pos + |Header(4, count)|;
    var at, e := start + |EncodeItems(done)|, elems + 1 + NodesItems(done);
    ArrayStands(b, pos, count, done, next, start, at);
    BrokenReported(b, at, depth + 1, e, next);
    ArrayReported(b, pos, start, depth, elems, count, done, at, e, Kind(next));
  }

  lemma {:induction false} InKeyReported(b: bytes, pos: nat, depth: nat, elems: nat, br: Broken)
    requires |b| <= MAX_INPUT_SIZE && depth <= MAX_DEPTH && Proper(br, depth, elems) && Stands(b, pos, br)
    requires br.InKey?
    ensures DecodeValue(b, pos, depth, elems) == Err(Kind(br))
    decreases br, 0
  {
    var InKey(count, before, next) := br;
    var start := pos + |Header(5, count)|;
    var at, e := start + |EncodeEntries(before)|, elems + 1 + NodesEntries(before);
    KeyStands(b, pos, count, before, next, start, at);
    BrokenReported(b, at, depth + 1, e, next);
    KeyFails(b, at, depth + 1, e, Kind(next));
    MapReported(b, pos, start, depth, elems, count, before, at, e, Kind(next));
  }

  lemma {:induction false} InValueReported(b: bytes, pos: nat, depth: nat, elems: nat, br: Broken)
    requires |b| <= MAX_INPUT_SIZE && depth <= MAX_DEPTH && Proper(br, depth, elems) && Stands(b, pos, br)
    requires br.InValue?
    ensures DecodeValue(b, pos, depth, elems) == Err(Kind(br))
    decreases br, 0
  {
    var InValue(count, before, key, next) := br;
    var start := pos + |Header(5, count)|;
    var at, e := start + |EncodeEntries(before)|, elems + 1 + NodesEntries(before);
    var p, e' := at + |Encode(key)|, e + Nodes(key);
    ValueStands(b, pos, count, before, key, next, start, at, p);
    BrokenReported(b, p, depth + 1, e', next);
    ValueFails(b, at, depth + 1, e, key, p, e', Kind(next));
    MapReported(b, pos, start, depth, elems, count, before, at, e, Kind(next));
  }

  lemma AtSplit3(b: bytes, pos: nat, s: bytes, t: bytes, u: bytes, mid: nat, at: nat)
    requires At(b, pos, s + (t + u)) && mid == pos + |s| && at == mid + |t|
    ensures At(b, pos, s) && At(b, mid, t) && At(b, at, u) && pos + |s + (t + u)| == at + |u|
  {
    AtSplit(b, pos, s, t + u);
    AtSplit(b, mid, t, u);
  }

  lemma AtSplit4(b: bytes, pos: nat, s: bytes, t: bytes, u: bytes, v: bytes, mid: nat, at: nat, p: nat)
    requires At(b, pos, s + (t + (u + v))) && mid == pos + |s| && at == mid + |t| && p == at + |u|
    ensures At(b, pos, s) && At(b, mid, t) && At(b, at, u) && At(b, p, v) && pos + |s + (t + (u + v))| == p + |v|
  {
    AtSplit3(b, pos, s, t, u + v, mid, at);
    AtSplit(b, at, u, v);
  }

  lemma ArrayStands(b: bytes, pos: nat, count: nat, done: seq<Value>, next: Broken, start: nat, at: nat)
    requires Stands(b, pos, InArray(count, done, next))
    requires start == pos + |Header(4, count)| && at == start + |EncodeItems(done)|
    ensures At(b, pos, Header(4, count)) && At(b, start, EncodeItems(done)) && Stands(b, at, next)
  {
    AtSplit3(b, pos, Header(4, count), EncodeItems(done), Print(next), start, at);
  }

  lemma KeyStands(b: bytes, pos: nat, count: nat, before: seq<Entry>, next: Broken, start: nat, at: nat)
    requires Stands(b, pos, InKey(count, before, next))
    requires start == pos + |Header(5, count)| && at == start + |EncodeEntries(before)|
    ensures At(b, pos, Header(5, count)) && At(b, start, EncodeEntries(before)) && Stands(b, at, next)
  {
    AtSplit3(b, pos, Header(5, count), EncodeEntries(before), Print(next), start, at);
  }

  lemma ValueStands(
    b: bytes, pos: nat, count: nat, before: seq<Entry>, key: Value, next: Broken, start: nat, at: nat, p: nat)
    requires Stands(b, pos, InValue(count, before, key, next))
    requires start == pos + |Header(5, count)| && at == start + |EncodeEntries(before)| && p == at + |Encode(key)|
    ensures At(b, pos, Header(5, count)) && At(b, start, EncodeEntries(before)) && At(b, at, Encode(key))
    ensures Stands(b, p, next)
  {
    AtSplit4(b, pos, Header(5, count), EncodeEntries(before), Encode(key), Print(next), start, at, p);
  }

  lemma ArrayReported(
    b: bytes, pos: nat, start: nat, depth: nat, elems: nat, count: nat, done: seq<Value>, at: nat, e: nat, x: Error)
    requires |b| <= MAX_INPUT_SIZE && elems < 10000 && depth < 8 && |done| < count < 0x1_0000_0000_0000_0000
    requires CanonicalItems(done) && depth + 1 + HeightItems(done) <= 8 && e == elems + 1 + NodesItems(done) <= 10000
    requires At(b, pos, Header(4, count)) && start == pos + |Header(4, count)|
    requires At(b, start, EncodeItems(done)) && at == start + |EncodeItems(done)|
    requires DecodeValue(b, at, depth + 1, e) == Err(x)
    ensures DecodeValue(b, pos, depth, elems) == Err(x)
  {
    ItemsFail(b, start, depth + 1, elems + 1, count, done, at, e, x);
    ArrayFails(b, pos, start, depth, elems, count, x);
  }

  lemma MapReported(
    b: bytes, pos: nat, start: nat, depth: nat, elems: nat, count: nat, before: seq<Entry>, at: nat, e: nat, x: Error)
    requires |b| <= MAX_INPUT_SIZE && Begun(count, before, depth, elems) && e == elems + 1 + NodesEntries(before)
    requires At(b, pos, Header(5, count)) && start == pos + |Header(5, count)|
    requires At(b, start, EncodeEntries(before)) && at == start + |EncodeEntries(before)|
    requires DecodeEntry(b, at, depth + 1, e) == Err(x)
    ensures DecodeValue(b, pos, depth, elems) == Err(x)
  {
    EntriesFail(b, start, depth + 1, elems + 1, count, before, at, e, x);
    MapFails(b, pos, start, depth, elems, count, x);
  }

  lemma ArrayFails(b: bytes, pos: nat, start: nat, depth: nat, elems: nat, count: nat, x: Error)
    requires |b| <= MAX_INPUT_SIZE && depth < 8 && elems < 10000 && count < TWO_TO_THE_64
    requires At(b, pos, Header(4, count)) && start == pos + |Header(4, count)|
    ensures DecodeItems(b, start, depth + 1, elems + 1, count) == Err(x) ==> DecodeValue(b, pos, depth, elems) == Err(x)
  {
    HeaderAlone(b, pos, depth, elems, 4, count);
    ArrayBody(b, start, depth, elems + 1, count);
  }

  lemma KeyFails(b: bytes, pos: nat, depth: nat, elems: nat, x: Error)
    requires pos <= |b| && elems <= MAX_ELEMENTS
    ensures DecodeValue(b, pos, depth, elems) == Err(x) ==> DecodeEntry(b, pos, depth, elems) == Err(x)
  {
  }

  lemma ValueFails(
    b: bytes, pos: nat, depth: nat, elems: nat, key: Value, p: nat, e: nat, x: Error)
    requires |b| <= MAX_INPUT_SIZE && At(b, pos, Encode(key)) && Canonical(key) && depth + Height(key) <= 8
    requires p == pos + |Encode(key)| && e == elems + Nodes(key) <= 10000
    requires DecodeValue(b, p, depth, e) == Err(x)
    ensures DecodeEntry(b, pos, depth, elems) == Err(x)
  {
    DecodeValueComplete(b, pos, depth, elems, key);
    SecondFails(b, pos, depth, elems, p, e, x);
  }

  lemma SecondFails(b: bytes, pos: nat, depth: nat, elems: nat, p: nat, e: nat, x: Error)
    requires pos <= |b| && p <= |b| && elems <= MAX_ELEMENTS && e <= MAX_ELEMENTS
    ensures (DecodeValue(b, pos, depth, elems).Ok?
             && DecodeValue(b, pos, depth, elems).pos == p && DecodeValue(b, pos, depth, elems).elems == e
             && DecodeValue(b, p, depth, e) == Err(x))
            ==> DecodeEntry(b, pos, depth, elems) == Err(x)
  {
  }

  lemma MapFails(b: bytes, pos: nat, start: nat, depth: nat, elems: nat, count: nat, x: Error)
    requires |b| <= MAX_INPUT_SIZE && depth < 8 && elems < 10000 && count < TWO_TO_THE_64
    requires At(b, pos, Header(5, count)) && start == pos + |Header(5, count)|
    ensures DecodeEntries(b, start, depth + 1, elems + 1, count) == Err(x)
            ==> DecodeValue(b, pos, depth, elems) == Err(x)
  {
    HeaderAlone(b, pos, depth, elems, 5, count);
    MapBody(b, start, depth, elems + 1, count);
  }

  lemma DisorderReported(b: bytes, pos: nat, depth: nat, elems: nat, es: seq<Entry>, k: nat)
    requires |b| <= MAX_INPUT_SIZE && Proper(Disorder(es, k), depth, elems) && Stands(b, pos, Disorder(es, k))
    ensures DecodeValue(b, pos, depth, elems) == Err(Kind(Disorder(es, k)))
  {
    var start := pos + |Header(5, |es|)|;
    AtSplit(b, pos, Header(5, |es|), EncodeEntries(es));
    DisorderedEntries(b, start, depth, elems, es, k);
    MapEnds(b, pos, start, depth, elems, |es|, DecodeEntries(b, start, depth + 1, elems + 1, |es|));
  }

  lemma DisorderedEntries(b: bytes, start: nat, depth: nat, elems: nat, es: seq<Entry>, k: nat)
    requires |b| <= MAX_INPUT_SIZE && Proper(Disorder(es, k), depth, elems) && At(b, start, EncodeEntries(es))
    ensures var r := DecodeEntries(b, start, depth + 1, elems + 1, |es|);
            r.Ok? && FinishMap(r.val, r.pos, r.elems) == Err(Kind(Disorder(es, k)))
  {
    DecodeEntriesComplete(b, start, depth + 1, elems + 1, es);
    var r := DecodeEntries(b, start, depth + 1, elems + 1, |es|);
    DisorderFinishes(es, k, r.pos, r.elems);
  }

  lemma MapEnds(b: bytes, pos: nat, start: nat, depth: nat, elems: nat, count: nat, r: Read<Spanned>)
    requires |b| <= MAX_INPUT_SIZE && depth < 8 && elems < 10000 && count < TWO_TO_THE_64
    requires At(b, pos, Header(5, count)) && start == pos + |Header(5, count)|
    requires r == DecodeEntries(b, start, depth + 1, elems + 1, count)
    ensures r.Ok? ==> DecodeValue(b, pos, depth, elems) == FinishMap(r.val, r.pos, r.elems)
  {
    HeaderAlone(b, pos, depth, elems, 5, count);
    MapBody(b, start, depth, elems + 1, count);
  }

  // ----- what is reported is a defect

  lemma {:induction false} BrokenFound(b: bytes, pos: nat, depth: nat, elems: nat) returns (br: Broken)
    requires pos <= |b| <= MAX_INPUT_SIZE && depth <= MAX_DEPTH && elems <= MAX_ELEMENTS
    requires DecodeValue(b, pos, depth, elems).Err?
    ensures Proper(br, depth, elems) && Stands(b, pos, br)
    ensures Kind(br) == DecodeValue(b, pos, depth, elems).error
    decreases |b| - pos, 5
  {
    if elems == MAX_ELEMENTS {
      br := Here(TooMany);
    } else if pos == |b| {
      br := Here(Absent);
    } else {
      var major, ai := b[pos] / 32, b[pos] % 32;
      if major == 7 {
        br := SimpleFound(b, pos, depth, elems);
      } else if ReadArgument(b, pos + 1, ai).BadArg? {
        br := ArgumentFound(b, pos, depth, elems);
      } else {
        HeaderRead(b, pos);
        var Arg(arg, next) := ReadArgument(b, pos + 1, ai);
        br := BodyFound(b, pos, next, depth, elems, major, arg);
      }
    }
  }

  lemma SimpleFound(b: bytes, pos: nat, depth: nat, elems: nat) returns (br: Broken)
    requires pos < |b| && elems < MAX_ELEMENTS && b[pos] / 32 == 7
    requires DecodeValue(b, pos, depth, elems).Err?
    ensures Proper(br, depth, elems) && Stands(b, pos, br)
    ensures Kind(br) == DecodeValue(b, pos, depth, elems).error
  {
    var ai := b[pos] % 32;
    if pos + 1 + Width(ai) > |b| {
      br := Here(ArgumentCut(7, ai, b[pos + 1..]));
      assert b[pos..] == [b[pos]] + b[pos + 1..];
    } else {
      br := Here(SimpleUnknown(ai, b[pos + 1..pos + 1 + Width(ai)]));
      assert b[pos..pos + 1 + Width(ai)] == [b[pos]] + b[pos + 1..pos + 1 + Width(ai)];
    }
  }

  lemma ArgumentFound(b: bytes, pos: nat, depth: nat, elems: nat) returns (br: Broken)
    requires pos < |b| && elems < MAX_ELEMENTS && b[pos] / 32 < 7
    requires ReadArgument(b, pos + 1, b[pos] % 32).BadArg?
    ensures Proper(br, depth, elems) && Stands(b, pos, br)
    ensures Kind(br) == DecodeValue(b, pos, depth, elems).error
  {
    var major, ai := b[pos] / 32, b[pos] % 32;
    ArgumentError(b, pos, depth, elems);
    if ai >= 28 {
      br := Here(InfoReserved(major, ai));
      assert b[pos..pos + 1] == [b[pos]];
    } else if pos + 1 + Width(ai) > |b| {
      br := Here(ArgumentCut(major, ai, b[pos + 1..]));
      assert b[pos..] == [b[pos]] + b[pos + 1..];
    } else {
      br := LongFound(b, pos, major, ai, depth, elems);
    }
  }

  lemma LongFound(b: bytes, pos: nat, major: nat, ai: nat, depth: nat, elems: nat) returns (br: Broken)
    requires pos < |b| && elems < MAX_ELEMENTS && b[pos] == 32 * major + ai && major < 7 && 24 <= ai <= 27
    requires pos + 1 + Width(ai) <= |b| && ReadArgument(b, pos + 1, ai).BadArg?
    ensures Proper(br, depth, elems) && Stands(b, pos, br)
    ensures ReadArgument(b, pos + 1, ai) == BadArg(Kind(br))
  {
    var s := b[pos + 1..pos + 1 + Width(ai)];
    FloorBelowWidth(ai);
    br := Here(ArgumentLong(major, ai, FromBE(s)));
    LongPrinted(major, ai, s);
    assert b[pos..pos + 1 + Width(ai)] == [b[pos]] + s;
  }

  lemma LongPrinted(major: nat, ai: nat, s: bytes)
    requires major < 7 && 24 <= ai <= 27 && |s| == Width(ai) && FromBE(s) < Floor(ai)
    ensures PrintDefect(ArgumentLong(major, ai, FromBE(s))) == [32 * major + ai] + s
  {
    ToFromBE(s);
  }

  lemma {:induction false} BodyFound(b: bytes, start: nat, pos: nat, depth: nat, elems: nat, major: nat, arg: nat)
    returns (br: Broken)
    requires start < pos <= |b| <= MAX_INPUT_SIZE && depth <= MAX_DEPTH && elems < MAX_ELEMENTS && major < 7
    requires arg < TWO_TO_THE_64 && b[start..pos] == Header(major, arg)
    requires DecodeBody(b, pos, depth, elems + 1, major, arg).Err?
    ensures Proper(br, depth, elems) && Stands(b, start, br)
    ensures Kind(br) == DecodeBody(b, pos, depth, elems + 1, major, arg).error
    decreases |b| - start, 4
  {
    if major < 2 {
      br := Here(IntegerTooBig(major, arg));
    } else if major < 4 {
      br := Here(StringCut(major, arg, b[pos..]));
      assert b[start..] == b[start..pos] + b[pos..];
    } else if major == 6 {
      br := Here(Tagged(arg));
    } else if depth == MAX_DEPTH {
      br := Here(TooDeep(major, arg));
    } else if major == 4 {
      ArrayBody(b, pos, depth, elems + 1, arg);
      br := ArrayFound(b, start, pos, depth, elems, arg);
    } else {
      MapBody(b, pos, depth, elems + 1, arg);
      var r := DecodeEntries(b, pos, depth + 1, elems + 1, arg);
      if r.Err? {
        br := MapFound(b, start, pos, depth, elems, arg);
      } else {
        br := DisorderFound(b, start, pos, depth, elems, arg, r);
      }
    }
  }

  lemma AtJoin(b: bytes, pos: nat, s: bytes, t: bytes)
    requires At(b, pos, s) && At(b, pos + |s|, t)
    ensures At(b, pos, s + t)
  {
    AtSplit(b, pos, s, t);
  }

  lemma AtJoin3(b: bytes, pos: nat, s: bytes, t: bytes, u: bytes, mid: nat, at: nat)
    requires At(b, pos, s) && mid == pos + |s| && At(b, mid, t) && at == mid + |t| && At(b, at, u)
    ensures At(b, pos, s + (t + u)) && pos + |s + (t + u)| == at + |u|
  {
    AtJoin(b, mid, t, u);
    AtJoin(b, pos, s, t + u);
  }

  lemma {:induction false} ItemsFound(b: bytes, pos: nat, depth: nat, elems: nat, n: nat, x: Error)
    returns (done: seq<Value>, at: nat, e: nat)
    requires pos <= |b| <= MAX_INPUT_SIZE && depth <= MAX_DEPTH && elems <= MAX_ELEMENTS
    requires DecodeItems(b, pos, depth, elems, n) == Err(x)
    ensures |done| < n && CanonicalItems(done) && At(b, pos, EncodeItems(done))
    ensures depth + HeightItems(done) <= MAX_DEPTH
    ensures at == pos + |EncodeItems(done)| <= |b| && e == elems + NodesItems(done) <= MAX_ELEMENTS
    ensures DecodeValue(b, at, depth, e) == Err(x)
    decreases |b| - pos
  {
    var r := DecodeValue(b, pos, depth, elems);
    WhereItemsFail(b, pos, depth, elems, n, x);
    if r.Err? {
      done, at, e := [], pos, elems;
    } else {
      ItemReads(b, pos, depth, elems);
      var rest;
      rest, at, e := ItemsFound(b, r.pos, depth, r.elems, n - 1, x);
      done := [r.val] + rest;
      ItemAndRest(b, pos, r.val, rest);
    }
  }

  lemma WhereItemsFail(b: bytes, pos: nat, depth: nat, elems: nat, n: nat, x: Error)
    requires pos <= |b| && elems <= MAX_ELEMENTS
    ensures DecodeItems(b, pos, depth, elems, n) == Err(x) ==>
              && n > 0
              && match DecodeValue(b, pos, depth, elems)
                 case Err(y) => y == x
                 case Ok(_, p, e) => DecodeItems(b, p, depth, e, n - 1) == Err(x)
  {
  }

  lemma ItemReads(b: bytes, pos: nat, depth: nat, elems: nat)
    requires pos <= |b| && elems <= MAX_ELEMENTS && depth <= MAX_DEPTH && DecodeValue(b, pos, depth, elems).Ok?
    ensures var r := DecodeValue(b, pos, depth, elems);
            && At(b, pos, Encode(r.val)) && r.pos == pos + |Encode(r.val)|
            && Canonical(r.val) && depth + Height(r.val) <= MAX_DEPTH
            && r.elems == elems + Nodes(r.val) <= MAX_ELEMENTS
  {
    DecodeValueSound(b, pos, depth, elems);
  }

  lemma ItemAndRest(b: bytes, pos: nat, v: Value, rest: seq<Value>)
    requires At(b, pos, Encode(v)) && At(b, pos + |Encode(v)|, EncodeItems(rest))
    ensures var vs := [v] + rest;
            && EncodeItems(vs) == Encode(v) + EncodeItems(rest) && At(b, pos, EncodeItems(vs))
            && |EncodeItems(vs)| == |Encode(v)| + |EncodeItems(rest)|
            && NodesItems(vs) == Nodes(v) + NodesItems(rest)
            && HeightItems(vs) == Max(Height(v), HeightItems(rest))
            && CanonicalItems(vs) == (Canonical(v) && CanonicalItems(rest))
  {
    assert ([v] + rest)[1..] == rest;
    AtJoin(b, pos, Encode(v), EncodeItems(rest));
  }

  lemma EntryAndRest(b: bytes, pos: nat, e: Entry, rest: seq<Entry>)
    requires At(b, pos, EncodeEntry(e)) && At(b, pos + |EncodeEntry(e)|, EncodeEntries(rest))
    ensures var es := [e] + rest;
            && EncodeEntries(es) == EncodeEntry(e) + EncodeEntries(rest) && At(b, pos, EncodeEntries(es))
            && |EncodeEntries(es)| == |EncodeEntry(e)| + |EncodeEntries(rest)|
            && NodesEntries(es) == NodesEntry(e) + NodesEntries(rest)
            && HeightEntries(es) == Max(HeightEntry(e), HeightEntries(rest))
            && CanonicalEntries(es) == (CanonicalEntry(e) && CanonicalEntries(rest))
  {
    assert ([e] + rest)[1..] == rest;
    AtJoin(b, pos, EncodeEntry(e), EncodeEntries(rest));
  }

  lemma {:induction false} EntriesFound(b: bytes, pos: nat, depth: nat, elems: nat, n: nat, x: Error)
    returns (before: seq<Entry>, at: nat, e: nat)
    requires pos <= |b| <= MAX_INPUT_SIZE && depth <= MAX_DEPTH && elems <= MAX_ELEMENTS
    requires DecodeEntries(b, pos, depth, elems, n) == Err(x)
    ensures |before| < n && CanonicalEntries(before) && At(b, pos, EncodeEntries(before))
    ensures depth + HeightEntries(before) <= MAX_DEPTH
    ensures at == pos + |EncodeEntries(before)| <= |b| && e == elems + NodesEntries(before) <= MAX_ELEMENTS
    ensures DecodeEntry(b, at, depth, e) == Err(x)
    decreases |b| - pos
  {
    var r := DecodeEntry(b, pos, depth, elems);
    WhereEntriesFail(b, pos, depth, elems, n, x);
    if r.Err? {
      before, at, e := [], pos, elems;
    } else {
      EntryReads(b, pos, depth, elems);
      var rest;
      rest, at, e := EntriesFound(b, r.pos, depth, r.elems, n - 1, x);
      before := [r.val.entry] + rest;
      EntryAndRest(b, pos, r.val.entry, rest);
    }
  }

  lemma WhereEntriesFail(b: bytes, pos: nat, depth: nat, elems: nat, n: nat, x: Error)
    requires pos <= |b| && elems <= MAX_ELEMENTS
    ensures DecodeEntries(b, pos, depth, elems, n) == Err(x) ==>
              && n > 0
              && match DecodeEntry(b, pos, depth, elems)
                 case Err(y) => y == x
                 case Ok(_, p, e) => DecodeEntries(b, p, depth, e, n - 1) == Err(x)
  {
  }

  lemma EntryReads(b: bytes, pos: nat, depth: nat, elems: nat)
    requires pos <= |b| && elems <= MAX_ELEMENTS && depth <= MAX_DEPTH && DecodeEntry(b, pos, depth, elems).Ok?
    ensures var r := DecodeEntry(b, pos, depth, elems);
            && At(b, pos, EncodeEntry(r.val.entry)) && r.pos == pos + |EncodeEntry(r.val.entry)|
            && CanonicalEntry(r.val.entry) && depth + HeightEntry(r.val.entry) <= MAX_DEPTH
            && r.elems == elems + NodesEntry(r.val.entry) <= MAX_ELEMENTS
  {
    DecodeEntrySound(b, pos, depth, elems);
  }

  lemma {:induction false} ArrayFound(b: bytes, start: nat, pos: nat, depth: nat, elems: nat, n: nat)
    returns (br: Broken)
    requires |b| <= MAX_INPUT_SIZE && depth < MAX_DEPTH && elems < MAX_ELEMENTS && n < TWO_TO_THE_64
    requires At(b, start, Header(4, n)) && pos == start + |Header(4, n)|
    requires DecodeItems(b, pos, depth + 1, elems + 1, n).Err?
    ensures Proper(br, depth, elems) && Stands(b, start, br)
    ensures Kind(br) == DecodeItems(b, pos, depth + 1, elems + 1, n).error
    decreases |b| - start, 3
  {
    var x := DecodeItems(b, pos, depth + 1, elems + 1, n).error;
    var done, at, e := ItemsFound(b, pos, depth + 1, elems + 1, n, x);
    var next := BrokenFound(b, at, depth + 1, e);
    br := ArrayBroken(b, start, pos, depth, elems, n, done, at, e, next);
  }

  lemma ArrayBroken(
    b: bytes, start: nat, pos: nat, depth: nat, elems: nat, n: nat, done: seq<Value>, at: nat, e: nat, next: Broken)
    returns (br: Broken)
    requires elems < 10000 && depth < 8 && |done| < n < 0x1_0000_0000_0000_0000
    requires CanonicalItems(done) && depth + 1 + HeightItems(done) <= 8 && e == elems + 1 + NodesItems(done) <= 10000
    requires At(b, start, Header(4, n)) && pos == start + |Header(4, n)|
    requires At(b, pos, EncodeItems(done)) && at == pos + |EncodeItems(done)|
    requires Proper(next, depth + 1, e) && Stands(b, at, next)
    ensures Proper(br, depth, elems) && Stands(b, start, br) && Kind(br) == Kind(next)
  {
    br := InArray(n, done, next);
    AtJoin3(b, start, Header(4, n), EncodeItems(done), Print(next), pos, at);
  }

  lemma {:induction false} MapFound(b: bytes, start: nat, pos: nat, depth: nat, elems: nat, n: nat)
    returns (br: Broken)
    requires |b| <= MAX_INPUT_SIZE && depth < MAX_DEPTH && elems < MAX_ELEMENTS && n < TWO_TO_THE_64
    requires At(b, start, Header(5, n)) && pos == start + |Header(5, n)|
    requires DecodeEntries(b, pos, depth + 1, elems + 1, n).Err?
    ensures Proper(br, depth, elems) && Stands(b, start, br)
    ensures Kind(br) == DecodeEntries(b, pos, depth + 1, elems + 1, n).error
    decreases |b| - start, 3
  {
    var x := DecodeEntries(b, pos, depth + 1, elems + 1, n).error;
    var before, at, e := EntriesFound(b, pos, depth + 1, elems + 1, n, x);
    if DecodeValue(b, at, depth + 1, e).Err? {
      br := KeyFound(b, start, pos, depth, elems, n, before, at, e);
    } else {
      br := ValueFound(b, start, pos, depth, elems, n, before, at, e);
    }
  }

  lemma {:induction false} KeyFound(
    b: bytes, start: nat, pos: nat, depth: nat, elems: nat, n: nat, before: seq<Entry>, at: nat, e: nat)
    returns (br: Broken)
    requires |b| <= MAX_INPUT_SIZE && Begun(n, before, depth, elems) && e == elems + 1 + NodesEntries(before)
    requires At(b, start, Header(5, n)) && pos == start + |Header(5, n)|
    requires At(b, pos, EncodeEntries(before)) && at == pos + |EncodeEntries(before)|
    requires DecodeValue(b, at, depth + 1, e).Err?
    ensures Proper(br, depth, elems) && Stands(b, start, br)
    ensures DecodeEntry(b, at, depth + 1, e) == Err(Kind(br))
    decreases |b| - start, 2
  {
    var next := BrokenFound(b, at, depth + 1, e);
    KeyFails(b, at, depth + 1, e, Kind(next));
    br := InKey(n, before, next);
    AtJoin3(b, start, Header(5, n), EncodeEntries(before), Print(next), pos, at);
  }

  lemma {:induction false} ValueFound(
    b: bytes, start: nat, pos: nat, depth: nat, elems: nat, n: nat, before: seq<Entry>, at: nat, e: nat)
    returns (br: Broken)
    requires |b| <= MAX_INPUT_SIZE && Begun(n, before, depth, elems) && e == elems + 1 + NodesEntries(before)
    requires At(b, start, Header(5, n)) && pos == start + |Header(5, n)|
    requires At(b, pos, EncodeEntries(before)) && at == pos + |EncodeEntries(before)|
    requires DecodeValue(b, at, depth + 1, e).Ok? && DecodeEntry(b, at, depth + 1, e).Err?
    ensures Proper(br, depth, elems) && Stands(b, start, br)
    ensures DecodeEntry(b, at, depth + 1, e) == Err(Kind(br))
    decreases |b| - start, 2
  {
    KeyReads(b, at, depth + 1, e);
    var r := DecodeValue(b, at, depth + 1, e);
    var next := BrokenFound(b, r.pos, depth + 1, r.elems);
    br := ValueBroken(b, start, pos, depth, elems, n, before, at, e, r.val, r.pos, r.elems, next);
  }

  /** An entry that fails after its key was read. */
  lemma KeyReads(b: bytes, at: nat, depth: nat, elems: nat)
    requires at <= |b| && depth <= MAX_DEPTH && elems <= MAX_ELEMENTS && DecodeValue(b, at, depth, elems).Ok?
    ensures var r := DecodeValue(b, at, depth, elems);
            && ReadsValue(b, at, depth, elems, r.val, r.pos, r.elems)
            && At(b, at, Encode(r.val)) && r.pos == at + |Encode(r.val)| && r.elems <= MAX_ELEMENTS && r.pos > at
            && (DecodeEntry(b, at, depth, elems).Err? ==>
                  DecodeValue(b, r.pos, depth, r.elems) == Err(DecodeEntry(b, at, depth, elems).error))
  {
    DecodeValueSound(b, at, depth, elems);
  }

  lemma ValueBroken(
    b: bytes, start: nat, pos: nat, depth: nat, elems: nat, n: nat, before: seq<Entry>, at: nat, e: nat,
    key: Value, p: nat, e': nat, next: Broken)
    returns (br: Broken)
    requires Begun(n, before, depth, elems) && e == elems + 1 + NodesEntries(before)
    requires At(b, start, Header(5, n)) && pos == start + |Header(5, n)|
    requires At(b, pos, EncodeEntries(before)) && at == pos + |EncodeEntries(before)|
    requires At(b, at, Encode(key)) && p == at + |Encode(key)|
    requires Canonical(key) && depth + 1 + Height(key) <= 8 && e' == e + Nodes(key) <= 10000
    requires Proper(next, depth + 1, e') && Stands(b, p, next)
    ensures Proper(br, depth, elems) && Stands(b, start, br) && Kind(br) == Kind(next)
  {
    br := InValue(n, before, key, next);
    AtJoin(b, at, Encode(key), Print(next));
    AtJoin3(b, start, Header(5, n), EncodeEntries(before), Encode(key) + Print(next), pos, at);
  }

  lemma DisorderFound(b: bytes, start: nat, pos: nat, depth: nat, elems: nat, n: nat, r: Read<Spanned>)
    returns (br: Broken)
    requires |b| <= MAX_INPUT_SIZE && depth < MAX_DEPTH && elems < MAX_ELEMENTS && n < TWO_TO_THE_64
    requires At(b, start, Header(5, n)) && pos == start + |Header(5, n)|
    requires r == DecodeEntries(b, pos, depth + 1, elems + 1, n) && r.Ok? && FinishMap(r.val, r.pos, r.elems).Err?
    ensures Proper(br, depth, elems) && Stands(b, start, br)
    ensures FinishMap(r.val, r.pos, r.elems) == Err(Kind(br))
  {
    DecodeEntriesSound(b, pos, depth + 1, elems + 1, n);
    br := DisorderBroken(r.val, r.pos, r.elems);
    AtJoin(b, start, Header(5, n), EncodeEntries(r.val.entries));
  }

  lemma DisorderBroken(m: Spanned, p: nat, e: nat) returns (br: Broken)
    requires m.spans == KeySpans(m.entries) && CanonicalEntries(m.entries)
    requires |EncodeEntries(m.entries)| < TWO_TO_THE_64 && FinishMap(m, p, e).Err?
    ensures br.Disorder? && br.entries == m.entries && FirstDisorder(m.entries, br.k)
    ensures FinishMap(m, p, e) == Err(Kind(br))
  {
    var k := FirstBad(m.spans, 1);
    SpansOf(m.entries);
    br := Disorder(m.entries, k);
    DisorderFinishes(m.entries, k, p, e);
  }

  // ----- the refused language

  /** Decoding fails with an error exactly when the input is over-size and the error says so, or when a defect of that
      kind stands at its beginning: sound items within the limits, and then the first thing that is wrong. */
  lemma DecodeFailsExactly(b: bytes, x: Error)
    ensures Decode(b) == Failure(x) <==>
            if |b| > 1048576 then x == InputTooLarge
            else exists br: Broken :: Proper(br, 0, 0) && Stands(b, 0, br) && Kind(br) == x
  {
    if |b| <= 1048576 {
      if Decode(b) == Failure(x) {
        var br := BrokenFound(b, 0, 0, 0);
      }
      if br: Broken :| Proper(br, 0, 0) && Stands(b, 0, br) && Kind(br) == x {
        BrokenReported(b, 0, 0, 0, br);
      }
    }
  }

  /** The two order errors, over keys: the first adjacent pair that does not ascend is a duplicate or out of order. */
  lemma DisorderedMap(es: seq<Entry>, k: nat, suffix: bytes)
    requires CanonicalEntries(es) && HeightEntries(es) < 8 && NodesEntries(es) < 10000 && FirstDisorder(es, k)
    requires |Encode(Map(es))| + |suffix| <= 1048576
    ensures Decode(Encode(Map(es)) + suffix)
            == Failure(if es[k - 1].key == es[k].key then DuplicateKey else MapOrder)
  {
    var b := Encode(Map(es)) + suffix;
    assert b[..|Encode(Map(es))|] == Encode(Map(es));
    BrokenReported(b, 0, 0, 0, Disorder(es, k));
  }
}
