/** CBOR values, their canonical encoding, and what it means for a value to be canonical and within limits. */
module CborValue {
  import opened ByteStrings

  const MAX_DEPTH := 8
  const MAX_ELEMENTS := 10000
  const MAX_INPUT_SIZE := 0x10_0000

  /** The shapes the decoder accepts. `Text` holds the bytes of a Go string, which need not be UTF-8. */
  datatype Value =
    | Uint(n: int)
    | NegInt(n: int)
    | Bytes(b: bytes)
    | Text(t: bytes)
    | Array(items: seq<Value>)
    | Map(entries: seq<Entry>)
    | Bool(flag: bool)
    | Null
  {
    predicate IsInt() { Uint? || NegInt? }

    /** The `Int` field of the Go struct: zero for every shape that does not set it. */
    function Int(): int { if IsInt() then n else 0 }

    function Entries(): seq<Entry> { if Map? then entries else [] }

    function MapGetInt(key: int): Option<Value> {
      FindInt(Entries(), key)
    }

    function MapGetText(key: bytes): Option<Value> {
      FindText(Entries(), key)
    }
  }

  datatype Entry = Entry(key: Value, val: Value)

  function FindInt(es: seq<Entry>, key: int): Option<Value> {
    if es == [] then None
    else if es[0].key.IsInt() && es[0].key.n == key then Some(es[0].val)
    else FindInt(es[1..], key)
  }

  function FindText(es: seq<Entry>, key: bytes): Option<Value> {
    if es == [] then None
    else if es[0].key.Text? && es[0].key.t == key then Some(es[0].val)
    else FindText(es[1..], key)
  }

  // ----- key order

  /** Shorter encoding first, then bytewise: the order of RFC 8949 section 4.2.3. */
  function CanonicalCompare(a: bytes, b: bytes): (c: int)
    ensures c in {-1, 0, 1}
  {
    if |a| != |b| then (if |a| < |b| then -1 else 1) else Compare(a, b)
  }

  predicate Ascending(spans: seq<bytes>) {
    forall i | 0 < i < |spans| :: CanonicalCompare(spans[i - 1], spans[i]) == -1
  }

  // ----- canonical encoding

  /** Number of argument bytes that follow an initial byte with additional information 24 to 27. */
  function ArgWidth(ai: nat): nat
    requires 24 <= ai <= 27
  {
    if ai == 24 then 1 else if ai == 25 then 2 else if ai == 26 then 4 else 8
  }

  /** The shortest additional information that can carry `arg`. */
  function ShortestInfo(arg: nat): (ai: nat)
    ensures ai < 28
  {
    if arg < 24 then arg
    else if arg < 0x100 then 24
    else if arg < TWO_TO_THE_16 then 25
    else if arg < TWO_TO_THE_32 then 26
    else 27
  }

  function Header(major: nat, arg: nat): (h: bytes)
    requires major < 8
    ensures |h| >= 1
  {
    var ai := ShortestInfo(arg);
    [32 * major + ai] + if ai < 24 then [] else ToBE(arg, ArgWidth(ai))
  }

  function Encode(v: Value): (s: bytes)
    ensures |s| >= 1
    decreases v, 0
  {
    match v
    case Uint(n) => Header(0, Abs(n))
    case NegInt(n) => Header(1, Abs(-1 - n))
    case Bytes(b) => Header(2, |b|) + b
    case Text(t) => Header(3, |t|) + t
    case Array(items) => Header(4, |items|) + EncodeItems(items)
    case Map(entries) => Header(5, |entries|) + EncodeEntries(entries)
    case Bool(flag) => [if flag then 0xf5 else 0xf4]
    case Null => [0xf6]
  }

  function EncodeItems(vs: seq<Value>): (s: bytes)
    ensures |s| >= |vs|
    decreases vs, 1
  {
    if vs == [] then [] else Encode(vs[0]) + EncodeItems(vs[1..])
  }

  function EncodeEntries(es: seq<Entry>): (s: bytes)
    ensures |s| >= |es|
    decreases es, 1
  {
    if es == [] then [] else EncodeEntry(es[0]) + EncodeEntries(es[1..])
  }

  function EncodeEntry(e: Entry): (s: bytes)
    ensures |s| >= 1
    decreases e, 0
  {
    Encode(e.key) + Encode(e.val)
  }

  /** Total on negative numbers so that `Encode` is total; canonical values never need it. */
  function Abs(n: int): nat { if n < 0 then -n else n }

  function KeySpans(es: seq<Entry>): (spans: seq<bytes>)
    ensures |spans| == |es|
  {
    if es == [] then [] else [Encode(es[0].key)] + KeySpans(es[1..])
  }

  lemma {:induction false} KeySpanAt(es: seq<Entry>, i: nat)
    requires i < |es|
    ensures KeySpans(es)[i] == Encode(es[i].key)
  {
    if i > 0 {
      KeySpanAt(es[1..], i - 1);
    }
  }

  // ----- canonical values and their size

  /** Integers fit an int64 with the sign of their shape, and every map has strictly ascending keys. */
  predicate Canonical(v: Value)
    decreases v, 0
  {
    match v
    case Uint(n) => 0 <= n < TWO_TO_THE_63
    case NegInt(n) => -TWO_TO_THE_63 <= n < 0
    case Array(items) => CanonicalItems(items)
    case Map(entries) => CanonicalEntries(entries) && Ascending(KeySpans(entries))
    case _ => true
  }

  predicate CanonicalItems(vs: seq<Value>)
    decreases vs, 1
  {
    vs == [] || (Canonical(vs[0]) && CanonicalItems(vs[1..]))
  }

  predicate CanonicalEntries(es: seq<Entry>)
    decreases es, 1
  {
    es == [] || (CanonicalEntry(es[0]) && CanonicalEntries(es[1..]))
  }

  predicate CanonicalEntry(e: Entry)
    decreases e, 0
  {
    Canonical(e.key) && Canonical(e.val)
  }

  function Max(a: nat, b: nat): nat { if a < b then b else a }

  /** The number of arrays and maps on the deepest path. */
  function Height(v: Value): nat
    decreases v, 0
  {
    match v
    case Array(items) => 1 + HeightItems(items)
    case Map(entries) => 1 + HeightEntries(entries)
    case _ => 0
  }

  function HeightItems(vs: seq<Value>): nat
    decreases vs, 1
  {
    if vs == [] then 0 else Max(Height(vs[0]), HeightItems(vs[1..]))
  }

  function HeightEntries(es: seq<Entry>): nat
    decreases es, 1
  {
    if es == [] then 0 else Max(HeightEntry(es[0]), HeightEntries(es[1..]))
  }

  function HeightEntry(e: Entry): nat
    decreases e, 0
  {
    Max(Height(e.key), Height(e.val))
  }

  /** The number of items in a value, itself included. */
  function Nodes(v: Value): (n: nat)
    ensures n >= 1
    decreases v, 0
  {
    match v
    case Array(items) => 1 + NodesItems(items)
    case Map(entries) => 1 + NodesEntries(entries)
    case _ => 1
  }

  function NodesItems(vs: seq<Value>): nat
    decreases vs, 1
  {
    if vs == [] then 0 else Nodes(vs[0]) + NodesItems(vs[1..])
  }

  function NodesEntries(es: seq<Entry>): nat
    decreases es, 1
  {
    if es == [] then 0 else NodesEntry(es[0]) + NodesEntries(es[1..])
  }

  function NodesEntry(e: Entry): nat
    decreases e, 0
  {
    Nodes(e.key) + Nodes(e.val)
  }

  /** The values a decoder with these limits can produce. */
  predicate Acceptable(v: Value) {
    Canonical(v) && Height(v) <= MAX_DEPTH && Nodes(v) <= MAX_ELEMENTS
  }
}
