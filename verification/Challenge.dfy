/** The store of pending challenges: single use, expiring, one per username and purpose. Clock readings and fresh
    random bytes are parameters. */
module Challenge {
  import opened ByteStrings
  import opened Policy

  const CHALLENGE_TTL := 120_000_000_000  // nanoseconds

  datatype Purpose = ForRegister | ForLogin

  datatype PendingKey = PendingKey(username: string, purpose: Purpose)

  datatype Pending = Pending(challenge: bytes, issuedAt: int)

  type PendingMap = map<PendingKey, Pending>

  // ----- the effect of each locked section

  predicate Expired(pc: Pending, now: int) { now - pc.issuedAt > CHALLENGE_TTL }

  function Purged(pending: PendingMap, now: int): PendingMap {
    map k | k in pending && !Expired(pending[k], now) :: pending[k]
  }

  function Issued(pending: PendingMap, key: PendingKey, challenge: bytes, purgedAt: int, issuedAt: int): PendingMap {
    Purged(pending, purgedAt)[key := Pending(challenge, issuedAt)]
  }

  function Lookup(pending: PendingMap, key: PendingKey): Option<Pending> {
    if key in pending then Some(pending[key]) else None
  }

  function Taken(pending: PendingMap, key: PendingKey): PendingMap { pending - {key} }

  /** The verdict on what was taken; it is reached after the lock is released, at its own clock reading. */
  function Judge(pc: Option<Pending>, got: bytes, now: int): Option<Error> {
    if pc.None? then Some(ChallengeNotFound)
    else if pc.value.challenge != got then Some(ChallengeMismatch)
    else if Expired(pc.value, now) then Some(ChallengeExpired)
    else None
  }

  class ChallengeStore {
    var pending: PendingMap

    constructor ()
      ensures pending == map[]
    {
      pending := map[];
    }

    /** Sweeps the expired entries, in any order. */
    method PurgeExpiredLocked(now: int)
      modifies this
      ensures pending == Purged(old(pending), now)
      ensures forall k :: k in pending <==> k in old(pending) && now - old(pending)[k].issuedAt <= 120_000_000_000
      ensures forall k | k in pending :: pending[k] == old(pending)[k]
    {
      var todo := pending.Keys;
      while todo != {}
        invariant todo <= pending.Keys
        invariant pending == map k | k in old(pending) && (k in todo || !Expired(old(pending)[k], now))
                                 :: old(pending)[k]
        decreases |todo|
      {
        var k :| k in todo;
        todo := todo - {k};
        if Expired(pending[k], now) {
          pending := pending - {k};
        }
      }
    }

    /** `random` is what the system source delivered, if it did; the two clock readings are those of the sweep and of
        the new entry. */
    method Issue(username: string, purpose: Purpose, random: Option<bytes>, purgedAt: int, issuedAt: int)
      returns (r: Option<bytes>)
      modifies this
      ensures r == random
      ensures pending == if random.None? then old(pending)
                         else Issued(old(pending), PendingKey(username, purpose), random.value, purgedAt, issuedAt)
    {
      if random.None? {
        return None;
      }
      PurgeExpiredLocked(purgedAt);
      pending := pending[PendingKey(username, purpose) := Pending(random.value, issuedAt)];
      return random;
    }

    /** Removes the entry whatever the outcome. */
    method Consume(username: string, purpose: Purpose, got: bytes, judgedAt: int) returns (r: Option<Error>)
      modifies this
      ensures pending == Taken(old(pending), PendingKey(username, purpose))
      ensures r == Judge(Lookup(old(pending), PendingKey(username, purpose)), got, judgedAt)
      ensures var key := PendingKey(username, purpose);
              r == if key !in old(pending) then Some(ChallengeNotFound)
                   else if old(pending)[key].challenge != got then Some(ChallengeMismatch)
                   else if judgedAt - old(pending)[key].issuedAt > 120_000_000_000 then Some(ChallengeExpired)
                   else None
    {
      var key := PendingKey(username, purpose);
      var pc := Lookup(pending, key);
      if pc.Some? {
        pending := pending - {key};
      }
      assert pending == Taken(old(pending), key);
      if pc.None? {
        return Some(ChallengeNotFound);
      }
      if pc.value.challenge != got {
        return Some(ChallengeMismatch);
      }
      if judgedAt - pc.value.issuedAt > CHALLENGE_TTL {
        return Some(ChallengeExpired);
      }
      return None;
    }
  }
}

/** The store with its opportunistic sweeps accepts exactly what independent one-shot cells without any sweeping
    accept, and it stays small. */
module ChallengeRefinement {
  import opened ByteStrings
  import opened Policy
  import opened Challenge

  /** The locked sections in the order they ran, with their clock readings. A Consume is judged later, when other
      sections may already have run. */
  datatype Op =
    | Issue(key: PendingKey, challenge: bytes, purgedAt: int, issuedAt: int)
    | Consume(key: PendingKey, got: bytes, judgedAt: int)

  function Apply(pending: PendingMap, op: Op): PendingMap {
    match op
    case Issue(key, challenge, purgedAt, issuedAt) => Issued(pending, key, challenge, purgedAt, issuedAt)
    case Consume(key, _, _) => Taken(pending, key)
  }

  function Run(ops: seq<Op>): PendingMap {
    if ops == [] then map[] else Apply(Run(ops[..|ops| - 1]), ops[|ops| - 1])
  }

  /** A cell for one key: the last operation on that key decides, and nothing else is looked at. */
  function Cell(ops: seq<Op>, key: PendingKey): Option<Pending> {
    if ops == [] then None
    else
      var op := ops[|ops| - 1];
      if op.key != key then Cell(ops[..|ops| - 1], key)
      else if op.Issue? then Some(Pending(op.challenge, op.issuedAt))
      else None
  }

  /** No section reads the clock before an earlier Issue did its sweep. */
  predicate Timely(ops: seq<Op>) {
    forall i, j | 0 <= i < j < |ops| && ops[i].Issue? :: ops[i].purgedAt <= Time(ops[j])
  }

  function Time(op: Op): int { if op.Issue? then op.purgedAt else op.judgedAt }

  /** A pending entry is what its cell holds; a cell whose entry was swept holds an entry that had expired by then. */
  lemma {:induction false} StoreWithinCells(ops: seq<Op>, key: PendingKey, now: int)
    requires Timely(ops) && forall i | 0 <= i < |ops| && ops[i].Issue? :: ops[i].purgedAt <= now
    ensures key in Run(ops) ==> Cell(ops, key) == Some(Run(ops)[key])
    ensures key !in Run(ops) && Cell(ops, key).Some? ==> Expired(Cell(ops, key).value, now)
  {
    if ops != [] {
      var rest, op := ops[..|ops| - 1], ops[|ops| - 1];
      if op.Issue? {
        assert forall i | 0 <= i < |rest| && rest[i].Issue? :: rest[i].purgedAt <= op.purgedAt;
        StoreWithinCells(rest, key, op.purgedAt);
      } else {
        StoreWithinCells(rest, key, now);
      }
    }
  }

  /** A Consume succeeds in the store exactly when it succeeds in the cell of its key; when the errors differ, the
      store has swept the entry and reports it as not found. */
  lemma ConsumeRefinesCell(ops: seq<Op>, i: nat)
    requires Timely(ops) && i < |ops| && ops[i].Consume?
    ensures var op := ops[i];
            var inStore := Judge(Lookup(Run(ops[..i]), op.key), op.got, op.judgedAt);
            var inCell := Judge(Cell(ops[..i], op.key), op.got, op.judgedAt);
            && (inStore == None <==> inCell == None)
            && (inStore != inCell ==> inStore == Some(ChallengeNotFound))
  {
    StoreWithinCells(ops[..i], ops[i].key, ops[i].judgedAt);
  }

  // ----- when the errors differ

  /** Operation `m` issued a challenge for the key, and no later operation is on that key. */
  predicate LastIssue(ops: seq<Op>, key: PendingKey, m: nat) {
    m < |ops| && ops[m].Issue? && ops[m].key == key && forall k | m < k < |ops| :: ops[k].key != key
  }

  /** The last operation on the key issued a challenge, and a later Issue found it too old. */
  ghost predicate Swept(ops: seq<Op>, key: PendingKey) {
    exists m: nat, n: nat ::
      LastIssue(ops, key, m) && m < n < |ops| && ops[n].Issue? && ops[n].purgedAt - ops[m].issuedAt > 120_000_000_000
  }

  lemma {:induction false} CellOrigin(ops: seq<Op>, key: PendingKey) returns (m: nat)
    requires Cell(ops, key).Some?
    ensures LastIssue(ops, key, m)
  {
    if ops[|ops| - 1].key != key {
      m := CellOrigin(ops[..|ops| - 1], key);
    } else {
      m := |ops| - 1;
    }
  }

  /** An entry is still there exactly when no sweep since it was issued found it too old. */
  lemma {:induction false} SurvivesExact(ops: seq<Op>, key: PendingKey, m: nat)
    requires LastIssue(ops, key, m)
    ensures Cell(ops, key) == Some(Pending(ops[m].challenge, ops[m].issuedAt))
    ensures key in Run(ops) <==>
            forall n | m < n < |ops| && ops[n].Issue? :: ops[n].purgedAt - ops[m].issuedAt <= 120_000_000_000
    ensures key in Run(ops) ==> Run(ops)[key] == Pending(ops[m].challenge, ops[m].issuedAt)
  {
    if m + 1 < |ops| {
      var rest := ops[..|ops| - 1];
      assert forall k | 0 <= k < |rest| :: rest[k] == ops[k];
      SurvivesExact(rest, key, m);
    }
  }

  /** The verdicts of store and cell on a Consume differ exactly when the entry was swept. */
  lemma ErrorsDifferExactly(ops: seq<Op>, i: nat)
    requires Timely(ops) && i < |ops| && ops[i].Consume?
    ensures var op := ops[i];
            var inStore := Judge(Lookup(Run(ops[..i]), op.key), op.got, op.judgedAt);
            var inCell := Judge(Cell(ops[..i], op.key), op.got, op.judgedAt);
            inStore != inCell <==> Swept(ops[..i], op.key)
  {
    var before, key := ops[..i], ops[i].key;
    StoreWithinCells(before, key, ops[i].judgedAt);
    if Cell(before, key).Some? {
      var m := CellOrigin(before, key);
      SurvivesExact(before, key, m);
    }
    if Swept(before, key) {
      var m: nat, n: nat :|
        LastIssue(before, key, m) && m < n < i && before[n].Issue?
        && before[n].purgedAt - before[m].issuedAt > 120_000_000_000;
      SurvivesExact(before, key, m);
    }
  }

  /** A run in which they differ: a login challenge expires, another user's Issue sweeps it, then it is presented. */
  function SweptRun(): seq<Op> {
    [Issue(PendingKey("alice", ForLogin), [1], 0, 0),
     Issue(PendingKey("bob", ForLogin), [2], 120_000_000_001, 120_000_000_001),
     Consume(PendingKey("alice", ForLogin), [1], 120_000_000_001)]
  }

  lemma SweptRunDiffers()
    ensures var ops := SweptRun(); var op := ops[2];
            && Timely(ops)
            && Judge(Lookup(Run(ops[..2]), op.key), op.got, op.judgedAt) == Some(ChallengeNotFound)
            && Judge(Cell(ops[..2], op.key), op.got, op.judgedAt) == Some(ChallengeExpired)
  {
    var before := SweptRun()[..2];
    SurvivesExact(before, PendingKey("alice", ForLogin), 0);
    assert before[1].Issue? && before[1].purgedAt - before[0].issuedAt > 120_000_000_000;
  }

  /** The same run a nanosecond earlier: nothing is swept, and the challenge is accepted. */
  function KeptRun(): seq<Op> {
    [Issue(PendingKey("alice", ForLogin), [1], 0, 0),
     Issue(PendingKey("bob", ForLogin), [2], 120_000_000_000, 120_000_000_000),
     Consume(PendingKey("alice", ForLogin), [1], 120_000_000_000)]
  }

  lemma KeptRunAccepts()
    ensures var ops := KeptRun(); var op := ops[2];
            && Timely(ops)
            && Judge(Lookup(Run(ops[..2]), op.key), op.got, op.judgedAt) == None
            && Judge(Cell(ops[..2], op.key), op.got, op.judgedAt) == None
  {
    SurvivesExact(KeptRun()[..2], PendingKey("alice", ForLogin), 0);
  }

  // ----- size

  /** The number of challenges issued at most a lifetime before `now`. */
  function Recent(ops: seq<Op>, now: int): nat {
    if ops == [] then 0
    else
      var op := ops[|ops| - 1];
      Recent(ops[..|ops| - 1], now) + if op.Issue? && now - op.issuedAt <= 120_000_000_000 then 1 else 0
  }

  lemma SubmapSmaller(m: PendingMap, n: PendingMap)
    requires m.Keys <= n.Keys
    ensures |m| <= |n|
  {
    SubsetSmaller(m.Keys, n.Keys);
    assert |m| == |m.Keys| && |n| == |n.Keys|;
  }

  lemma SubsetSmaller(a: set<PendingKey>, b: set<PendingKey>)
    requires a <= b
    ensures |a| <= |b|
  {
    assert b == a + (b - a);
  }

  lemma {:induction false} LiveAtMostRecent(ops: seq<Op>, now: int)
    ensures |Purged(Run(ops), now)| <= Recent(ops, now)
  {
    if ops != [] {
      var rest, op := ops[..|ops| - 1], ops[|ops| - 1];
      LiveAtMostRecent(rest, now);
      var before := Purged(Run(rest), now);
      if op.Issue? && now - op.issuedAt <= 120_000_000_000 {
        SubmapSmaller(Purged(Run(ops), now), before[op.key := Pending(op.challenge, op.issuedAt)]);
      } else {
        SubmapSmaller(Purged(Run(ops), now), before);
      }
    }
  }

  /** Right after an Issue the store holds at most as many entries as were issued within the last lifetime. */
  lemma PendingBounded(ops: seq<Op>)
    requires ops != [] && ops[|ops| - 1].Issue? && ops[|ops| - 1].purgedAt <= ops[|ops| - 1].issuedAt
    ensures |Run(ops)| <= Recent(ops, ops[|ops| - 1].purgedAt)
  {
    LiveAtMostRecent(ops[..|ops| - 1], ops[|ops| - 1].purgedAt);
  }
}
