/** What the decoder computes, as functions of the buffer and the cursor. The class in CborDecoder is proved
    to compute exactly this; CborTheorems says what it means. */
module CborDecode {
  import opened ByteStrings
  import opened CborValue

  datatype Error =
    | Truncated
    | NonCanonical
    | Unsupported
    | DepthExceeded
    | TooManyElements
    | InputTooLarge
    | MapOrder
    | DuplicateKey

  /** A decoded part, the cursor after it and the number of elements counted so far. */
  datatype Read<+T> = Ok(val: T, pos: nat, elems: nat) | Err(error: Error)

  datatype Arg = Arg(arg: nat, next: nat) | BadArg(error: Error)

  /** Map entries as they are read, each with the bytes its key occupied. */
  datatype Spanned = Spanned(entries: seq<Entry>, spans: seq<bytes>)
  datatype SpannedEntry = SpannedEntry(entry: Entry, span: bytes)

  /** The least argument for which a width is the shortest. */
  function ArgFloor(ai: nat): nat
    requires 24 <= ai <= 27
  {
    if ai == 24 then 24 else if ai == 25 then 0x100 else if ai == 26 then TWO_TO_THE_16 else TWO_TO_THE_32
  }

  function ReadArgument(b: bytes, pos: nat, ai: nat): (r: Arg)
    requires pos <= |b|
    ensures r.Arg? ==> pos <= r.next <= |b|
  {
    if ai < 24 then Arg(ai, pos)
    else if ai >= 28 then BadArg(Unsupported)
    else if pos + ArgWidth(ai) > |b| then BadArg(Truncated)
    else
      var v := FromBE(b[pos..pos + ArgWidth(ai)]);
      if v < ArgFloor(ai) then BadArg(NonCanonical) else Arg(v, pos + ArgWidth(ai))
  }

  function DecodeSimple(b: bytes, pos: nat, elems: nat, ai: nat): (r: Read<Value>)
    ensures r.Ok? ==> r.pos == pos && r.elems == elems
  {
    if ai == 20 then Ok(Bool(false), pos, elems)
    else if ai == 21 then Ok(Bool(true), pos, elems)
    else if ai == 22 then Ok(Null, pos, elems)
    else if 24 <= ai <= 27 && pos + ArgWidth(ai) > |b| then Err(Truncated)
    else Err(Unsupported)
  }

  function DecodeString(b: bytes, pos: nat, elems: nat, arg: nat): (r: Read<bytes>)
    requires pos <= |b|
    ensures r.Ok? ==> r.pos == pos + arg <= |b| && r.elems == elems
  {
    if arg > |b| - pos then Err(Truncated) else Ok(b[pos..pos + arg], pos + arg, elems)
  }

  function DecodeValue(b: bytes, pos: nat, depth: nat, elems: nat): (r: Read<Value>)
    requires pos <= |b|
    ensures r.Ok? ==> pos < r.pos <= |b| && elems < r.elems <= MAX_ELEMENTS
    decreases |b| - pos, 0
  {
    if elems + 1 > MAX_ELEMENTS then Err(TooManyElements)
    else if pos >= |b| then Err(Truncated)
    else
      var major, ai := b[pos] / 32, b[pos] % 32;
      if major == 7 then DecodeSimple(b, pos + 1, elems + 1, ai)
      else
        match ReadArgument(b, pos + 1, ai)
        case BadArg(e) => Err(e)
        case Arg(arg, next) => DecodeBody(b, next, depth, elems + 1, major, arg)
  }

  /** The part of an item after its header, for major types 0 to 6. */
  function DecodeBody(b: bytes, pos: nat, depth: nat, elems: nat, major: nat, arg: nat): (r: Read<Value>)
    requires pos <= |b| && elems <= MAX_ELEMENTS
    ensures r.Ok? ==> pos <= r.pos <= |b| && elems <= r.elems <= MAX_ELEMENTS
    decreases |b| - pos, 3
  {
    if major == 0 then
      if arg >= TWO_TO_THE_63 then Err(Unsupported) else Ok(Uint(arg), pos, elems)
    else if major == 1 then
      if arg >= TWO_TO_THE_63 then Err(Unsupported) else Ok(NegInt(-1 - arg), pos, elems)
    else if major == 2 then
      match DecodeString(b, pos, elems, arg)
      case Ok(s, p, e) => Ok(Bytes(s), p, e)
      case Err(x) => Err(x)
    else if major == 3 then
      match DecodeString(b, pos, elems, arg)
      case Ok(s, p, e) => Ok(Text(s), p, e)
      case Err(x) => Err(x)
    else if major == 4 then
      if depth >= MAX_DEPTH then Err(DepthExceeded)
      else
        match DecodeItems(b, pos, depth + 1, elems, arg)
        case Ok(vs, p, e) => Ok(Array(vs), p, e)
        case Err(x) => Err(x)
    else if major == 5 then
      if depth >= MAX_DEPTH then Err(DepthExceeded)
      else
        match DecodeEntries(b, pos, depth + 1, elems, arg)
        case Ok(m, p, e) => FinishMap(m, p, e)
        case Err(x) => Err(x)
    else Err(Unsupported)
  }

  function DecodeItems(b: bytes, pos: nat, depth: nat, elems: nat, n: nat): (r: Read<seq<Value>>)
    requires pos <= |b| && elems <= MAX_ELEMENTS
    ensures r.Ok? ==> pos <= r.pos <= |b| && elems <= r.elems <= MAX_ELEMENTS && |r.val| == n
    decreases |b| - pos, 2
  {
    if n == 0 then Ok([], pos, elems)
    else
      match DecodeValue(b, pos, depth, elems)
      case Err(x) => Err(x)
      case Ok(v, p, e) =>
        match DecodeItems(b, p, depth, e, n - 1)
        case Err(x) => Err(x)
        case Ok(vs, p', e') => Ok([v] + vs, p', e')
  }

  function DecodeEntries(b: bytes, pos: nat, depth: nat, elems: nat, n: nat): (r: Read<Spanned>)
    requires pos <= |b| && elems <= MAX_ELEMENTS
    ensures r.Ok? ==> pos <= r.pos <= |b| && elems <= r.elems <= MAX_ELEMENTS
    ensures r.Ok? ==> |r.val.entries| == |r.val.spans| == n
    decreases |b| - pos, 2
  {
    if n == 0 then Ok(Spanned([], []), pos, elems)
    else
      match DecodeEntry(b, pos, depth, elems)
      case Err(x) => Err(x)
      case Ok(se, p, e) =>
        match DecodeEntries(b, p, depth, e, n - 1)
        case Err(x) => Err(x)
        case Ok(m, p', e') => Ok(Spanned([se.entry] + m.entries, [se.span] + m.spans), p', e')
  }

  /** One key and its value, with a copy of the bytes of the key. */
  function DecodeEntry(b: bytes, pos: nat, depth: nat, elems: nat): (r: Read<SpannedEntry>)
    requires pos <= |b| && elems <= MAX_ELEMENTS
    ensures r.Ok? ==> pos < r.pos <= |b| && elems < r.elems <= MAX_ELEMENTS
    decreases |b| - pos, 1
  {
    match DecodeValue(b, pos, depth, elems)
    case Err(x) => Err(x)
    case Ok(k, p, e) =>
      match DecodeValue(b, p, depth, e)
      case Err(x) => Err(x)
      case Ok(v, p', e') => Ok(SpannedEntry(Entry(k, v), b[pos..p]), p', e')
  }

  /** The first adjacent pair of key spans, from index `i` on, that is not ascending decides the error. */
  function OrderError(spans: seq<bytes>, i: nat): Option<Error>
    requires i > 0
    decreases |spans| - i
  {
    if i >= |spans| then None
    else if CanonicalCompare(spans[i - 1], spans[i]) == 0 then Some(DuplicateKey)
    else if CanonicalCompare(spans[i - 1], spans[i]) == 1 then Some(MapOrder)
    else OrderError(spans, i + 1)
  }

  function FinishMap(m: Spanned, pos: nat, elems: nat): (r: Read<Value>)
    ensures r.Ok? ==> r.pos == pos && r.elems == elems
  {
    match OrderError(m.spans, 1)
    case Some(x) => Err(x)
    case None => Ok(Map(m.entries), pos, elems)
  }

  /** A decoded item and the number of bytes it occupied. */
  datatype Item = Item(val: Value, size: nat)

  function Decode(b: bytes): (r: Result<Item, Error>)
    ensures r.Success? ==> 0 < r.value.size <= |b|
  {
    if |b| > MAX_INPUT_SIZE then Failure(InputTooLarge)
    else
      match DecodeValue(b, 0, 0, 0)
      case Ok(v, p, _) => Success(Item(v, p))
      case Err(x) => Failure(x)
  }
}
