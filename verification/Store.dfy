/** The file-backed credential store. The file holds one document; every write builds a new document in a temporary
    file and renames it into place. JSON itself is not modelled: a document is a map from keys to credentials. */
module Store {
  import opened ByteStrings
  import opened Base64
  import opened Policy

  /** `createdAt` is absent for the zero time. */
  datatype Credential = Credential(
    id: bytes, username: string, publicKey: bytes, algorithm: int, signCount: nat,
    aaguid: bytes, createdAt: Option<int>, nickname: string)

  type Document = map<string, Credential>

  /** `Garbage` does not parse. */
  datatype File = Missing | Blank | Doc(doc: Document) | Garbage

  /** Credentials by ID: what the store means to its callers. */
  type Credentials = map<bytes, Credential>

  // ----- meaning of lists and documents

  /** Later elements win, as they do when a document is built. */
  function ByKey(creds: seq<Credential>): Document {
    if creds == [] then map[]
    else
      var c := creds[|creds| - 1];
      ByKey(creds[..|creds| - 1])[EncodeToString(c.id) := c]
  }

  predicate WellKeyed(doc: Document) {
    forall k | k in doc :: k == EncodeToString(doc[k].id)
  }

  predicate WellFormed(f: File) {
    f.Doc? ==> WellKeyed(f.doc)
  }

  function Meaning(doc: Document): Credentials
    requires WellKeyed(doc)
  {
    SameIdSameCredential(doc);
    map c | c in doc.Values :: c.id := c
  }

  lemma SameIdSameCredential(doc: Document)
    requires WellKeyed(doc)
    ensures forall c, d | c in doc.Values && d in doc.Values && c.id == d.id :: c == d
  {
    forall c, d | c in doc.Values && d in doc.Values && c.id == d.id
      ensures c == d
    {
      var k :| k in doc && doc[k] == c;
      var l :| l in doc && doc[l] == d;
    }
  }

  function FileMeaning(f: File): Credentials
    requires WellFormed(f)
  {
    if f.Doc? then Meaning(f.doc) else map[]
  }

  /** A credential is found under its ID and nowhere else. */
  lemma MeaningLookup(doc: Document, id: bytes)
    requires WellKeyed(doc)
    ensures id in Meaning(doc) <==> EncodeToString(id) in doc
    ensures id in Meaning(doc) ==> Meaning(doc)[id] == doc[EncodeToString(id)] && Meaning(doc)[id].id == id
  {
    var key := EncodeToString(id);
    if key in doc {
      EncodeInjective(doc[key].id, id);
      assert doc[key] in doc.Values;
    }
    if id in Meaning(doc) {
      var c :| c in doc.Values && c.id == id;
      var k :| k in doc && doc[k] == c;
    }
  }

  /** A list with every credential of a map exactly once, in some order. */
  predicate Enumerates(creds: seq<Credential>, m: Credentials) {
    && (forall i | 0 <= i < |creds| :: creds[i].id in m && m[creds[i].id] == creds[i])
    && (forall id | id in m :: exists i :: 0 <= i < |creds| && creds[i].id == id)
    && Distinct(creds)
  }

  predicate Distinct(creds: seq<Credential>) {
    forall i, j | 0 <= i < j < |creds| :: creds[i].id != creds[j].id
  }

  lemma {:induction false} ByKeyWellKeyed(creds: seq<Credential>)
    ensures WellKeyed(ByKey(creds))
  {
    if creds != [] {
      ByKeyWellKeyed(creds[..|creds| - 1]);
    }
  }

  /** A document built from a list without repeated IDs means exactly that list. */
  lemma {:induction false} ByKeyMeaning(creds: seq<Credential>, m: Credentials)
    requires Enumerates(creds, m)
    ensures WellKeyed(ByKey(creds)) && Meaning(ByKey(creds)) == m
  {
    ByKeyWellKeyed(creds);
    forall id
      ensures id in Meaning(ByKey(creds)) <==> id in m
      ensures id in m ==> Meaning(ByKey(creds))[id] == m[id]
    {
      MeaningLookup(ByKey(creds), id);
      ByKeyLookup(creds, id);
    }
  }

  lemma {:induction false} ByKeyLookup(creds: seq<Credential>, id: bytes)
    requires Distinct(creds)
    ensures EncodeToString(id) in ByKey(creds) <==> exists i :: 0 <= i < |creds| && creds[i].id == id
    ensures forall i | 0 <= i < |creds| && creds[i].id == id :: ByKey(creds)[EncodeToString(id)] == creds[i]
  {
    if creds != [] {
      var n := |creds| - 1;
      ByKeyLookup(creds[..n], id);
      if EncodeToString(creds[n].id) == EncodeToString(id) {
        EncodeInjective(creds[n].id, id);
      }
    }
  }

  // ----- what each operation does to the finite map

  function Find(m: Credentials, id: bytes): Option<Credential> {
    if id in m then Some(m[id]) else None
  }

  function OfUser(m: Credentials, username: string): Credentials {
    map id | id in m && m[id].username == username :: m[id]
  }

  /** Absent when the ID is taken. */
  function Added(m: Credentials, c: Credential, now: int): Option<Credentials> {
    if c.id in m then None
    else Some(m[c.id := if c.createdAt.None? then c.(createdAt := Some(now)) else c])
  }

  /** Absent when there is no such credential. */
  function CountUpdated(m: Credentials, id: bytes, count: nat): Option<Credentials> {
    if id in m then Some(m[id := m[id].(signCount := count)]) else None
  }

  /** Absent when there is no such credential. */
  function Deleted(m: Credentials, id: bytes): Option<Credentials> {
    if id in m then Some(m - {id}) else None
  }

  datatype SaveStep = Marshal | MkdirAll | CreateTemp | Chmod | Write | Sync | Close | Rename

  /** Which system calls fail this time: reading the file, or some steps of writing it. */
  datatype Faults = Faults(read: bool, write: set<SaveStep>)

  const NO_FAULTS := Faults(false, {})

  /** A write has its whole effect or none, and reports the first thing that stood in its way. */
  ghost predicate Outcome(
    r: Option<Error>, before: Credentials, after: Credentials,
    effect: Option<Credentials>, refusal: Error, faults: Faults)
  {
    && (r == None <==> !faults.read && effect.Some? && faults.write == {})
    && (r != None && !faults.read && effect.None? ==> r == Some(refusal))
    && (r != None && (faults.read || effect.Some?) ==> r == Some(StoreFailure))
    && r == WriteResult(effect, refusal, faults)
    && after == if r.None? then effect.value else before
  }

  function WriteResult(effect: Option<Credentials>, refusal: Error, faults: Faults): (r: Option<Error>)
    ensures r.None? ==> effect.Some?
  {
    if faults.read then Some(StoreFailure)
    else if effect.None? then Some(refusal)
    else if faults.write != {} then Some(StoreFailure)
    else None
  }

  // ----- crashes

  /** Every step since `before` leaves the old file or the new one, and never the old one after the new one. */
  ghost predicate CrashSafe(before: seq<File>, after: seq<File>, oldFile: File, newFile: File) {
    && before <= after
    && (forall i | |before| <= i < |after| :: after[i] == oldFile || after[i] == newFile)
    && (forall i, j | |before| <= i < j < |after| && after[i] == newFile :: after[j] == newFile)
  }

  /** A crash after any step of an operation leaves a store that means the old map or the new one. */
  ghost predicate CrashLeaves(before: seq<File>, after: seq<File>, was: Credentials, becomes: Option<Credentials>) {
    && before <= after
    && forall i | |before| <= i < |after| ::
         && WellFormed(after[i])
         && (FileMeaning(after[i]) == was || becomes == Some(FileMeaning(after[i])))
  }

  // ----- the file system

  /** The file at the store's path, the temporary file, and what a crash after each step so far would have left. */
  class FileSystem {
    var file: File
    var temp: Option<File>
    ghost var afterStep: seq<File>

    constructor (initial: File)
      ensures file == initial && temp == None && afterStep == []
    {
      file, temp, afterStep := initial, None, [];
    }

    /** A step that does not touch the file at the store's path. */
    method Prepare(ok: bool, content: Option<File>) returns (r: bool)
      modifies this
      ensures r == ok && file == old(file)
      ensures temp == (if ok then content else old(temp)) && afterStep == old(afterStep) + [old(file)]
    {
      if ok {
        temp := content;
      }
      afterStep := afterStep + [file];
      return ok;
    }

    /** Moves the temporary file over the file at the store's path, in one step. */
    method RenameTemp(ok: bool) returns (r: bool)
      requires temp.Some?
      modifies this
      ensures r == ok && file == (if ok then old(temp.value) else old(file))
      ensures afterStep == old(afterStep) + [file]
    {
      if ok {
        file, temp := temp.value, None;
      }
      afterStep := afterStep + [file];
      return ok;
    }

    method RemoveTemp()
      modifies this
      ensures file == old(file) && temp == None && afterStep == old(afterStep) + [file]
    {
      temp := None;
      afterStep := afterStep + [file];
    }
  }

  class CredentialStore {
    const fs: FileSystem

    constructor (fs: FileSystem)
      ensures this.fs == fs
    {
      this.fs := fs;
    }

    ghost predicate Valid()
      reads this, fs
    {
      WellFormed(fs.file)
    }

    ghost function Contents(): Credentials
      requires Valid()
      reads this, fs
    {
      FileMeaning(fs.file)
    }

    /** What one operation gets to see as faults: a file that does not parse is one that cannot be read. */
    ghost function Seen(faults: Faults): Faults
      reads this, fs
    {
      faults.(read := faults.read || fs.file.Garbage?)
    }

    /** Go iterates over the map in an arbitrary order, and so does this. Whatever keys the entries of the file are
        under, each is delivered once. */
    method LoadLocked(readFails: bool) returns (r: Result<seq<Credential>, Error>)
      ensures if readFails || fs.file.Garbage? then r == Failure(StoreFailure)
              else r.Success? && ListsEntries(r.value, fs.file) && (Valid() ==> Enumerates(r.value, Contents()))
    {
      if readFails || fs.file.Garbage? {
        return Failure(StoreFailure);
      }
      if !fs.file.Doc? {
        assert ListsEntries([], fs.file);
        return Success([]);
      }
      var doc := fs.file.doc;
      var out: seq<Credential> := [];
      ghost var keys: seq<string> := [];
      var todo := doc.Keys;
      while todo != {}
        invariant todo <= doc.Keys
        invariant Listed(out, keys, doc, todo)
        decreases |todo|
      {
        var k :| k in todo;
        ListedMore(out, keys, doc, todo, k);
        out, keys := out + [doc[k]], keys + [k];
        todo := todo - {k};
      }
      if WellKeyed(doc) {
        ListedAll(out, keys, doc);
      }
      return Success(out);
    }

    /** Replaces the whole contents, or leaves them alone. */
    method SaveLocked(creds: seq<Credential>, fails: set<SaveStep>) returns (ok: bool)
      modifies fs
      ensures fs.file == if ok then Doc(ByKey(creds)) else old(fs.file)
      ensures ok == (fails == {})
      ensures CrashSafe(old(fs.afterStep), fs.afterStep, old(fs.file), Doc(ByKey(creds)))
    {
      var doc: Document := map[];
      for i := 0 to |creds|
        invariant doc == ByKey(creds[..i])
      {
        assert creds[..i + 1][..i] == creds[..i];
        doc := doc[EncodeToString(creds[i].id) := creds[i]];
      }
      assert creds[..|creds|] == creds;
      ok := Marshal !in fails;
      if !ok {
        return;
      }
      ok := fs.Prepare(MkdirAll !in fails, fs.temp);
      if !ok {
        return;
      }
      ok := fs.Prepare(CreateTemp !in fails, Some(Blank));
      if !ok {
        return;
      }
      ok := WriteAndRename(doc, fails);
      if ok {
        NoStepFails(fails);
      }
      fs.RemoveTemp();
    }

    /** The steps on an open temporary file, up to and including the rename. */
    method WriteAndRename(doc: Document, fails: set<SaveStep>) returns (ok: bool)
      requires fs.temp.Some?
      modifies fs
      ensures fs.file == if ok then Doc(doc) else old(fs.file)
      ensures ok <==> Chmod !in fails && Write !in fails && Sync !in fails && Close !in fails && Rename !in fails
      ensures CrashSafe(old(fs.afterStep), fs.afterStep, old(fs.file), Doc(doc))
      ensures !ok ==> forall i | |old(fs.afterStep)| <= i < |fs.afterStep| :: fs.afterStep[i] == old(fs.file)
    {
      ok := fs.Prepare(Chmod !in fails, fs.temp);
      if !ok {
        return;
      }
      ok := fs.Prepare(Write !in fails, Some(Doc(doc)));
      if !ok {
        return;
      }
      ok := fs.Prepare(Sync !in fails, fs.temp);
      if !ok {
        return;
      }
      ok := fs.Prepare(Close !in fails, fs.temp);
      if !ok {
        return;
      }
      ok := fs.RenameTemp(Rename !in fails);
    }

    /** Saves a list that stands for the map `m`. */
    method Commit(creds: seq<Credential>, ghost m: Credentials, faults: Faults) returns (r: Option<Error>)
      requires Valid() && Enumerates(creds, m)
      modifies fs
      ensures Valid()
      ensures Contents() == if r.None? then m else old(Contents())
      ensures r == if faults.write == {} then None else Some(StoreFailure)
      ensures r.Some? ==> fs.file == old(fs.file)
      ensures CrashLeaves(old(fs.afterStep), fs.afterStep, old(Contents()), Some(m))
    {
      ByKeyMeaning(creds, m);
      var ok := SaveLocked(creds, faults.write);
      return if ok then None else Some(StoreFailure);
    }

    /** The scan for a credential by its key: the first position, or the length. */
    method Scan(creds: seq<Credential>, id: bytes) returns (i: nat)
      ensures i <= |creds| && (i < |creds| ==> creds[i].id == id)
      ensures forall j | 0 <= j < i :: creds[j].id != id
    {
      var key := EncodeToString(id);
      i := 0;
      while i < |creds| && EncodeToString(creds[i].id) != key
        invariant i <= |creds|
        invariant forall j | 0 <= j < i :: creds[j].id != id
      {
        i := i + 1;
      }
      if i < |creds| {
        EncodeInjective(creds[i].id, id);
      }
    }

    method FindByID(id: bytes, readFails: bool) returns (r: Result<Option<Credential>, Error>)
      requires Valid()
      ensures r == if readFails || fs.file.Garbage? then Failure(StoreFailure) else Success(Find(Contents(), id))
      ensures r.Success? ==> r.value == if id in Contents() then Some(Contents()[id]) else None
    {
      var creds :- LoadLocked(readFails);
      var i := Scan(creds, id);
      return Success(if i < |creds| then Some(creds[i]) else None);
    }

    /** Every credential of a user, each once, in the order of the load. */
    method FindByUsername(username: string, readFails: bool) returns (r: Result<seq<Credential>, Error>)
      requires Valid()
      ensures if readFails || fs.file.Garbage? then r == Failure(StoreFailure)
              else r.Success? && Enumerates(r.value, OfUser(Contents(), username))
      ensures r.Success? ==>
                forall c :: c in r.value <==> c.id in Contents() && Contents()[c.id] == c && c.username == username
    {
      var creds :- LoadLocked(readFails);
      var out := SelectUser(creds, username);
      UserEnumerates(creds, Contents(), username);
      EnumeratesUser(out, Contents(), username);
      return Success(out);
    }

    method SelectUser(creds: seq<Credential>, username: string) returns (out: seq<Credential>)
      ensures out == UserOnly(creds, username)
    {
      out := [];
      for i := 0 to |creds|
        invariant out == UserOnly(creds[..i], username)
      {
        assert creds[..i + 1][..i] == creds[..i];
        if creds[i].username == username {
          out := out + [creds[i]];
        }
      }
      assert creds[..|creds|] == creds;
    }

    method AddCredential(c: Credential, now: int, faults: Faults) returns (r: Option<Error>)
      requires Valid()
      modifies fs
      ensures Valid()
      ensures Outcome(r, old(Contents()), Contents(),
                      Added(old(Contents()), c, now), AlreadyRegistered, old(Seen(faults)))
      ensures var stamped := c.(createdAt := Some(if c.createdAt.Some? then c.createdAt.value else now));
              r == None ==> c.id !in old(Contents()) && Contents() == old(Contents())[c.id := stamped]
      ensures r.Some? ==> fs.file == old(fs.file)
      ensures CrashLeaves(old(fs.afterStep), fs.afterStep, old(Contents()), Added(old(Contents()), c, now))
    {
      var creds := LoadLocked(faults.read);
      if creds.Failure? {
        return Some(creds.error);
      }
      var i := Scan(creds.value, c.id);
      if i < |creds.value| {
        return Some(AlreadyRegistered);
      }
      var stamped := if c.createdAt.None? then c.(createdAt := Some(now)) else c;
      AddedEnumerates(creds.value, Contents(), stamped);
      r := Commit(creds.value + [stamped], Contents()[c.id := stamped], faults);
    }

    method UpdateSignCount(id: bytes, newCount: nat, faults: Faults) returns (r: Option<Error>)
      requires Valid()
      modifies fs
      ensures Valid()
      ensures Outcome(r, old(Contents()), Contents(),
                      CountUpdated(old(Contents()), id, newCount), NoSuchCredential, old(Seen(faults)))
      ensures r == None ==>
                && id in old(Contents())
                && Contents() == old(Contents())[id := old(Contents())[id].(signCount := newCount)]
      ensures r.Some? ==> fs.file == old(fs.file)
      ensures CrashLeaves(old(fs.afterStep), fs.afterStep, old(Contents()), CountUpdated(old(Contents()), id, newCount))
    {
      var creds := LoadLocked(faults.read);
      if creds.Failure? {
        return Some(creds.error);
      }
      var i := Scan(creds.value, id);
      if i == |creds.value| {
        return Some(NoSuchCredential);
      }
      var c := creds.value[i].(signCount := newCount);
      UpdatedEnumerates(creds.value, Contents(), i, newCount);
      r := Commit(creds.value[i := c], Contents()[id := c], faults);
    }

    method DeleteCredential(id: bytes, faults: Faults) returns (r: Option<Error>)
      requires Valid()
      modifies fs
      ensures Valid()
      ensures Outcome(r, old(Contents()), Contents(), Deleted(old(Contents()), id), NoSuchCredential, old(Seen(faults)))
      ensures r == None ==> id in old(Contents()) && Contents() == old(Contents()) - {id}
      ensures r.Some? ==> fs.file == old(fs.file)
      ensures CrashLeaves(old(fs.afterStep), fs.afterStep, old(Contents()), Deleted(old(Contents()), id))
    {
      var creds := LoadLocked(faults.read);
      if creds.Failure? {
        return Some(creds.error);
      }
      var out, found := RemoveId(creds.value, id);
      if !found {
        return Some(NoSuchCredential);
      }
      WithoutEnumerates(creds.value, Contents(), id);
      r := Commit(out, Contents() - {id}, faults);
    }

    method RemoveId(creds: seq<Credential>, id: bytes) returns (out: seq<Credential>, found: bool)
      ensures out == Without(creds, id)
      ensures found <==> exists j :: 0 <= j < |creds| && creds[j].id == id
    {
      var key := EncodeToString(id);
      out, found := [], false;
      for i := 0 to |creds|
        invariant out == Without(creds[..i], id)
        invariant found <==> exists j :: 0 <= j < i && creds[j].id == id
      {
        assert creds[..i + 1][..i] == creds[..i];
        if EncodeToString(creds[i].id) == key {
          EncodeInjective(creds[i].id, id);
          found := true;
        } else {
          out := out + [creds[i]];
        }
      }
      assert creds[..|creds|] == creds;
    }
  }

  /** `out` holds the entries of `doc` that are not in `todo`, in the order of `keys`. */
  ghost predicate Listed(out: seq<Credential>, keys: seq<string>, doc: Document, todo: set<string>) {
    && |out| == |keys|
    && (forall i | 0 <= i < |keys| :: keys[i] in doc && keys[i] !in todo && out[i] == doc[keys[i]])
    && (forall i, j | 0 <= i < j < |keys| :: keys[i] != keys[j])
    && (forall k | k in doc && k !in todo :: k in keys)
  }

  /** Every entry of the file exactly once, in some order of its keys. */
  ghost predicate ListsEntries(out: seq<Credential>, f: File) {
    if f.Doc? then exists keys: seq<string> :: Listed(out, keys, f.doc, {}) else out == []
  }

  lemma ListedMore(out: seq<Credential>, keys: seq<string>, doc: Document, todo: set<string>, k: string)
    requires Listed(out, keys, doc, todo) && k in todo && k in doc
    ensures Listed(out + [doc[k]], keys + [k], doc, todo - {k})
  {
    var more := keys + [k];
    assert more[|keys|] == k;
    assert forall l | l in keys :: l in more;
  }

  lemma ListedAll(out: seq<Credential>, keys: seq<string>, doc: Document)
    requires WellKeyed(doc) && Listed(out, keys, doc, {})
    ensures Enumerates(out, Meaning(doc))
  {
    forall i | 0 <= i < |out|
      ensures out[i].id in Meaning(doc) && Meaning(doc)[out[i].id] == out[i]
    {
      MeaningLookup(doc, out[i].id);
    }
    forall id | id in Meaning(doc)
      ensures exists i :: 0 <= i < |out| && out[i].id == id
    {
      MeaningLookup(doc, id);
      var i :| 0 <= i < |keys| && keys[i] == EncodeToString(id);
      assert out[i].id == id;
    }
    forall i, j | 0 <= i < j < |out|
      ensures out[i].id != out[j].id
    {
      assert keys[i] == EncodeToString(out[i].id) && keys[j] == EncodeToString(out[j].id);
    }
  }

  lemma NoStepFails(fails: set<SaveStep>)
    requires Marshal !in fails && MkdirAll !in fails && CreateTemp !in fails && Chmod !in fails && Write !in fails
    requires Sync !in fails && Close !in fails && Rename !in fails
    ensures fails == {}
  {
    forall x: SaveStep
      ensures x !in fails
    {
      match x
      case Marshal =>
      case MkdirAll =>
      case CreateTemp =>
      case Chmod =>
      case Write =>
      case Sync =>
      case Close =>
      case Rename =>
    }
  }

  lemma AddedEnumerates(creds: seq<Credential>, m: Credentials, c: Credential)
    requires Enumerates(creds, m) && c.id !in m
    ensures Enumerates(creds + [c], m[c.id := c])
  {
    var more := creds + [c];
    assert more[|creds|].id == c.id;
    assert forall i | 0 <= i < |creds| :: more[i] == creds[i];
  }

  lemma UpdatedEnumerates(creds: seq<Credential>, m: Credentials, i: nat, count: nat)
    requires Enumerates(creds, m) && i < |creds|
    ensures var c := creds[i].(signCount := count);
            Enumerates(creds[i := c], m[c.id := c])
  {
    var c := creds[i].(signCount := count);
    var out := creds[i := c];
    assert forall j | 0 <= j < |creds| :: out[j].id == creds[j].id;
  }

  // ----- the two selections from a list

  function UserOnly(creds: seq<Credential>, username: string): seq<Credential> {
    if creds == [] then []
    else
      var c := creds[|creds| - 1];
      UserOnly(creds[..|creds| - 1], username) + if c.username == username then [c] else []
  }

  function Without(creds: seq<Credential>, id: bytes): seq<Credential> {
    if creds == [] then []
    else
      var c := creds[|creds| - 1];
      Without(creds[..|creds| - 1], id) + if c.id != id then [c] else []
  }

  /** `out` is a selection of `creds` without repeated IDs. */
  ghost predicate Selects(out: seq<Credential>, creds: seq<Credential>, p: Credential -> bool) {
    (forall c :: c in out <==> c in creds && p(c)) && Distinct(out)
  }

  lemma SelectsMore(out: seq<Credential>, creds: seq<Credential>, p: Credential -> bool)
    requires creds != [] && Distinct(creds) && Selects(out, creds[..|creds| - 1], p)
    ensures var c := creds[|creds| - 1]; Selects(out + if p(c) then [c] else [], creds, p)
  {
    var rest, c := creds[..|creds| - 1], creds[|creds| - 1];
    assert creds == rest + [c];
    forall i | 0 <= i < |out|
      ensures out[i].id != c.id
    {
      assert out[i] in out;
      var j :| 0 <= j < |rest| && rest[j] == out[i];
      assert creds[j] == out[i];
    }
  }

  lemma SelectsEnumerates(out: seq<Credential>, creds: seq<Credential>, m: Credentials, p: Credential -> bool)
    requires Enumerates(creds, m) && Selects(out, creds, p)
    ensures Enumerates(out, map id | id in m && p(m[id]) :: m[id])
  {
    forall i | 0 <= i < |out|
      ensures out[i].id in m && m[out[i].id] == out[i] && p(out[i])
    {
      assert out[i] in out;
    }
    forall id | id in m && p(m[id])
      ensures exists i :: 0 <= i < |out| && out[i].id == id
    {
      var j :| 0 <= j < |creds| && creds[j].id == id;
      assert creds[j] in out;
    }
  }

  lemma {:induction false} UserSelects(creds: seq<Credential>, username: string, p: Credential -> bool)
    requires Distinct(creds) && forall c :: p(c) <==> c.username == username
    ensures Selects(UserOnly(creds, username), creds, p)
  {
    if creds != [] {
      UserSelects(creds[..|creds| - 1], username, p);
      SelectsMore(UserOnly(creds[..|creds| - 1], username), creds, p);
    }
  }

  lemma {:induction false} WithoutSelects(creds: seq<Credential>, id: bytes, p: Credential -> bool)
    requires Distinct(creds) && forall c :: p(c) <==> c.id != id
    ensures Selects(Without(creds, id), creds, p)
  {
    if creds != [] {
      WithoutSelects(creds[..|creds| - 1], id, p);
      SelectsMore(Without(creds[..|creds| - 1], id), creds, p);
    }
  }

  lemma UserEnumerates(creds: seq<Credential>, m: Credentials, username: string)
    requires Enumerates(creds, m)
    ensures Enumerates(UserOnly(creds, username), OfUser(m, username))
  {
    var p := (c: Credential) => c.username == username;
    UserSelects(creds, username, p);
    SelectsEnumerates(UserOnly(creds, username), creds, m, p);
    assert OfUser(m, username) == map i | i in m && p(m[i]) :: m[i];
  }

  lemma EnumeratesUser(out: seq<Credential>, m: Credentials, username: string)
    requires Enumerates(out, OfUser(m, username))
    ensures forall c :: c in out ==> c.id in m && m[c.id] == c && c.username == username
    ensures forall c: Credential :: c.id in m && m[c.id] == c && c.username == username ==> c in out
  {
    forall c: Credential | c.id in m && m[c.id] == c && c.username == username
      ensures c in out
    {
      assert c.id in OfUser(m, username);
      var i :| 0 <= i < |out| && out[i].id == c.id;
    }
  }

  lemma WithoutEnumerates(creds: seq<Credential>, m: Credentials, id: bytes)
    requires Enumerates(creds, m)
    ensures Enumerates(Without(creds, id), m - {id})
  {
    var p := (c: Credential) => c.id != id;
    WithoutSelects(creds, id, p);
    SelectsEnumerates(Without(creds, id), creds, m, p);
    WithoutFilters(creds, m, id, p);
  }

  lemma WithoutFilters(creds: seq<Credential>, m: Credentials, id: bytes, p: Credential -> bool)
    requires Enumerates(creds, m) && forall c :: p(c) <==> c.id != id
    ensures m - {id} == map i | i in m && p(m[i]) :: m[i]
  {
    forall i | i in m
      ensures m[i].id == i
    {
      var j :| 0 <= j < |creds| && creds[j].id == i;
    }
  }
}
