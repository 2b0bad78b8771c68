/** The replay cache: digests with expiry times, deleted lazily on lookup and in bulk by a background purge.
    Time is one non-decreasing integer clock; every operation runs under the cache's mutex, so it is one step. */
module Replay {
  import opened Bytes
  import opened Message

  type Entries = map<Text, int>

  // ---------- one operation on the map ----------

  predicate Found(e: Entries, digest: Text, now: int) { digest in e && now <= e[digest] }

  function Lookup(e: Entries, digest: Text, now: int): Entries {
    if digest in e && now > e[digest] then e - {digest} else e
  }

  function Insert(e: Entries, digest: Text, now: int, ttl: int): Entries { e[digest := now + ttl] }

  function Purged(e: Entries, now: int): Entries { map d | d in e && now <= e[d] :: e[d] }

  // ---------- the reference: what has ever been added ----------

  type Log = seq<(Text, int)>

  /** Some add of this digest is not older than the time-to-live. */
  predicate Seen(log: Log, digest: Text, now: int, ttl: int) {
    exists i :: 0 <= i < |log| && log[i].0 == digest && now <= log[i].1 + ttl
  }

  /** The cache stands for the log at this clock: an entry is the latest expiry of its digest,
      and whatever has no entry has expired. */
  ghost predicate Represents(e: Entries, log: Log, clock: int, ttl: int) {
    && (forall i :: 0 <= i < |log| ==> log[i].1 <= clock)
    && (forall d :: d in e ==> exists i :: 0 <= i < |log| && log[i].0 == d && log[i].1 + ttl == e[d])
    && (forall i :: 0 <= i < |log| ==>
          if log[i].0 in e then log[i].1 + ttl <= e[log[i].0] else log[i].1 + ttl < clock)
  }

  lemma LookupRefines(e: Entries, log: Log, clock: int, ttl: int, digest: Text, now: int)
    requires Represents(e, log, clock, ttl) && clock <= now
    ensures Found(e, digest, now) == Seen(log, digest, now, ttl)
    ensures Represents(Lookup(e, digest, now), log, now, ttl)
  {
    if digest in e {
      var i :| 0 <= i < |log| && log[i].0 == digest && log[i].1 + ttl == e[digest];
    }
  }

  lemma InsertRefines(e: Entries, log: Log, clock: int, ttl: int, digest: Text, now: int)
    requires Represents(e, log, clock, ttl) && clock <= now
    ensures Represents(Insert(e, digest, now, ttl), log + [(digest, now)], now, ttl)
  {
    var e', log' := Insert(e, digest, now, ttl), log + [(digest, now)];
    forall d | d in e' ensures exists i :: 0 <= i < |log'| && log'[i].0 == d && log'[i].1 + ttl == e'[d] {
      if d == digest {
        assert log'[|log|] == (digest, now);
      } else {
        var i :| 0 <= i < |log| && log[i].0 == d && log[i].1 + ttl == e[d];
        assert log'[i] == log[i];
      }
    }
  }

  lemma PurgeRefines(e: Entries, log: Log, clock: int, ttl: int, now: int)
    requires Represents(e, log, clock, ttl) && clock <= now
    ensures Represents(Purged(e, now), log, now, ttl)
  {}

  /** A purge leaves exactly the digests that still count as seen. */
  lemma PurgeKeepsTheSeen(e: Entries, log: Log, clock: int, ttl: int, now: int, digest: Text)
    requires Represents(e, log, clock, ttl) && clock <= now
    ensures digest in Purged(e, now) <==> Seen(log, digest, now, ttl)
  {
    LookupRefines(e, log, clock, ttl, digest, now);
  }

  // ---------- whole runs ----------

  datatype Op = IsDuplicate(digest: Text, now: int) | Add(digest: Text, now: int) | Purge(now: int)

  function Step(e: Entries, op: Op, ttl: int): Entries {
    match op
    case IsDuplicate(d, now) => Lookup(e, d, now)
    case Add(d, now) => Insert(e, d, now, ttl)
    case Purge(now) => Purged(e, now)
  }

  /** The answers the cache gives along a run. */
  function Answers(e: Entries, ops: seq<Op>, ttl: int): seq<bool>
    decreases ops
  {
    if ops == [] then []
    else
      (if ops[0].IsDuplicate? then [Found(e, ops[0].digest, ops[0].now)] else [])
      + Answers(Step(e, ops[0], ttl), ops[1..], ttl)
  }

  /** The answers the log gives; purges do not exist here. */
  function LogAnswers(log: Log, ops: seq<Op>, ttl: int): seq<bool>
    decreases ops
  {
    if ops == [] then []
    else
      match ops[0]
      case IsDuplicate(d, now) => [Seen(log, d, now, ttl)] + LogAnswers(log, ops[1..], ttl)
      case Add(d, now) => LogAnswers(log + [(d, now)], ops[1..], ttl)
      case Purge(_) => LogAnswers(log, ops[1..], ttl)
  }

  predicate ClockedOps(ops: seq<Op>, clock: int) {
    ops == [] || (clock <= ops[0].now && ClockedOps(ops[1..], ops[0].now))
  }

  lemma StepRefines(e: Entries, log: Log, clock: int, ttl: int, op: Op)
    requires Represents(e, log, clock, ttl) && clock <= op.now
    ensures Represents(Step(e, op, ttl), if op.Add? then log + [(op.digest, op.now)] else log, op.now, ttl)
    ensures op.IsDuplicate? ==> Found(e, op.digest, op.now) == Seen(log, op.digest, op.now, ttl)
  {
    match op
    case IsDuplicate(d, now) => LookupRefines(e, log, clock, ttl, d, now);
    case Add(d, now) => InsertRefines(e, log, clock, ttl, d, now);
    case Purge(now) => PurgeRefines(e, log, clock, ttl, now);
  }

  /** Lazy deletion and purges, wherever they fall, never change an answer. */
  lemma {:induction false} CacheRefinesLog(e: Entries, log: Log, clock: int, ttl: int, ops: seq<Op>)
    requires Represents(e, log, clock, ttl) && ClockedOps(ops, clock)
    ensures Answers(e, ops, ttl) == LogAnswers(log, ops, ttl)
    decreases ops
  {
    if ops != [] {
      var op := ops[0];
      StepRefines(e, log, clock, ttl, op);
      CacheRefinesLog(Step(e, op, ttl), if op.Add? then log + [(op.digest, op.now)] else log, op.now, ttl, ops[1..]);
    }
  }

  /** Go's duration division truncates toward zero. */
  function HalfOf(ttl: int): int { if ttl < 0 then -((-ttl) / 2) else ttl / 2 }

  /** Half the time-to-live, at least ten seconds. */
  function PurgeInterval(ttl: int): (interval: int)
    ensures ttl < 20_000_000_000 ==> interval == 10_000_000_000
    ensures ttl >= 20_000_000_000 ==> interval >= 10_000_000_000 && ttl - 1 <= 2 * interval <= ttl
  {
    if HalfOf(ttl) < 10 * NANOS then 10 * NANOS else HalfOf(ttl)
  }

  /** The cache object; the ghost log and clock say what it stands for. */
  class ReplayCache {
    var entries: Entries
    const ttl: int
    const purgeInterval: int
    ghost var log: Log
    ghost var clock: int

    ghost predicate Valid()
      reads this
    {
      Represents(entries, log, clock, ttl)
    }

    constructor (ttl: int, now: int)
      ensures Valid() && this.ttl == ttl && log == [] && clock == now
      ensures purgeInterval == PurgeInterval(ttl)
    {
      entries := map[];
      this.ttl := ttl;
      purgeInterval := PurgeInterval(ttl);
      log := [];
      clock := now;
    }

    method IsDuplicate(digest: Text, now: int) returns (dup: bool)
      requires Valid() && clock <= now
      modifies this`entries, this`clock
      ensures Valid() && clock == now
      ensures dup == Seen(log, digest, now, ttl)
      ensures entries == Lookup(old(entries), digest, now)
    {
      LookupRefines(entries, log, clock, ttl, digest, now);
      clock := now;
      if digest !in entries {
        return false;
      }
      var exp := entries[digest];
      if now > exp {
        entries := entries - {digest};
        return false;
      }
      return true;
    }

    method Add(digest: Text, now: int)
      requires Valid() && clock <= now
      modifies this`entries, this`log, this`clock
      ensures Valid() && clock == now
      ensures log == old(log) + [(digest, now)]
      ensures entries == Insert(old(entries), digest, now, ttl)
    {
      InsertRefines(entries, log, clock, ttl, digest, now);
      entries := entries[digest := now + ttl];
      log := log + [(digest, now)];
      clock := now;
    }

    /** One tick of purgeLoop: a pass over the entries, deleting the expired ones. */
    method Purge(now: int)
      requires Valid() && clock <= now
      modifies this`entries, this`clock
      ensures Valid() && clock == now
      ensures entries == Purged(old(entries), now)
    {
      PurgeRefines(entries, log, clock, ttl, now);
      ghost var before := entries;
      var todo := entries.Keys;
      while todo != {}
        invariant todo <= before.Keys
        invariant forall d :: d in entries <==> d in before && (d in todo || now <= before[d])
        invariant forall d :: d in entries ==> entries[d] == before[d]
        decreases todo
      {
        var digest :| digest in todo;
        todo := todo - {digest};
        if now > entries[digest] {
          entries := entries - {digest};
        }
      }
      clock := now;
      assert entries == Purged(before, now);
    }
  }
}
