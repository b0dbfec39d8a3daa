/** Facts about arrays and maps that are given item by item or entry by entry. */
module CborMaps {
  import opened ByteStrings
  import opened CborValue
  import opened CborOrder

  lemma {:induction false} CanonicalByItem(vs: seq<Value>)
    requires forall i | 0 <= i < |vs| :: Canonical(vs[i])
    ensures CanonicalItems(vs)
  {
    if vs != [] {
      CanonicalByItem(vs[1..]);
    }
  }

  lemma {:induction false} CanonicalByEntry(es: seq<Entry>)
    requires forall i | 0 <= i < |es| :: CanonicalEntry(es[i])
    ensures CanonicalEntries(es)
  {
    if es != [] {
      CanonicalByEntry(es[1..]);
    }
  }

  lemma CanonicalMap(es: seq<Entry>)
    requires forall i | 0 <= i < |es| :: CanonicalEntry(es[i])
    requires forall i | 0 < i < |es| :: CanonicalCompare(Encode(es[i - 1].key), Encode(es[i].key)) == -1
    ensures Canonical(Map(es))
  {
    CanonicalByEntry(es);
    forall i | 0 < i < |es|
      ensures CanonicalCompare(KeySpans(es)[i - 1], KeySpans(es)[i]) == -1
    {
      KeySpanAt(es, i - 1);
      KeySpanAt(es, i);
    }
  }

  /** Arrays of scalars are as large as they are long. */
  lemma {:induction false} ScalarItemsSize(vs: seq<Value>)
    requires forall i | 0 <= i < |vs| :: Height(vs[i]) == 0 && Nodes(vs[i]) == 1
    ensures HeightItems(vs) == 0 && NodesItems(vs) == |vs|
  {
    if vs != [] {
      ScalarItemsSize(vs[1..]);
    }
  }

  lemma {:induction false} EntriesHeight(es: seq<Entry>, h: nat)
    requires forall i | 0 <= i < |es| :: HeightEntry(es[i]) <= h
    ensures HeightEntries(es) <= h
  {
    if es != [] {
      EntriesHeight(es[1..], h);
    }
  }

  lemma SizeCons(e: Entry, es: seq<Entry>)
    ensures NodesEntries([e] + es) == NodesEntry(e) + NodesEntries(es)
    ensures HeightEntries([e] + es) == Max(HeightEntry(e), HeightEntries(es))
  {
    assert ([e] + es)[1..] == es;
  }

  /** In a canonical map an entry is found under its own integer key. */
  lemma FindIntEntry(es: seq<Entry>, i: nat)
    requires Canonical(Map(es)) && i < |es| && es[i].key.IsInt()
    ensures FindInt(es, es[i].key.n) == Some(es[i].val)
  {
    MeaningIsEveryEntry(es);
    FindIntIsLookup(es, es[i].key.n);
    EntryCanonical(es, i);
    assert es[i].key == IntKey(es[i].key.n);
  }

  lemma FindTextEntry(es: seq<Entry>, i: nat)
    requires Canonical(Map(es)) && i < |es| && es[i].key.Text?
    ensures FindText(es, es[i].key.t) == Some(es[i].val)
  {
    MeaningIsEveryEntry(es);
    FindTextIsLookup(es, es[i].key.t);
  }

  lemma {:induction false} FindTextNone(es: seq<Entry>, key: bytes)
    requires forall i | 0 <= i < |es| :: es[i].key != Text(key)
    ensures FindText(es, key) == None
  {
    if es != [] {
      FindTextNone(es[1..], key);
    }
  }

  lemma {:induction false} EntryCanonical(es: seq<Entry>, i: nat)
    requires CanonicalEntries(es) && i < |es|
    ensures Canonical(es[i].key) && Canonical(es[i].val)
  {
    if i > 0 {
      EntryCanonical(es[1..], i - 1);
    } else {
      assert CanonicalEntry(es[0]);
    }
  }
}
