/** The replay gate over any run of the server's packet loop: what two passes of one wire string have in common.
    The gate sees of a packet only its digest and the timestamp its accepting stanza finds in it. */
module ReplayRuns {
  import opened Bytes
  import opened Message
  import opened Access
  import opened Replay
  import opened Server

  /** `dated` is the timestamp under the first accepting stanza, if there is one. */
  datatype Gate = Gate(digest: Text -> Text, dated: (Text, IP) -> Option<int>, limited: bool, maxAge: int)

  predicate YoungEnough(g: Gate, timestamp: int, now: int) {
    g.limited ==> now - timestamp <= g.maxAge
  }

  /** Age check, then replay lookup. */
  predicate Admits(g: Gate, log: Log, pkt: Packet) {
    var dated := g.dated(pkt.wire, pkt.src);
    && dated.Some? && YoungEnough(g, dated.value, pkt.ageNow)
    && !Seen(log, g.digest(pkt.wire), pkt.dupNow, g.maxAge)
  }

  function Logged(g: Gate, log: Log, pkt: Packet): Log {
    if Admits(g, log, pkt) then log + [(g.digest(pkt.wire), pkt.addNow)] else log
  }

  /** A replay history before packet `n`, built up packet by packet. */
  function History(step: (Log, Packet) -> Log, pkts: seq<Packet>, n: nat): Log
    requires n <= |pkts|
  {
    if n == 0 then [] else step(History(step, pkts, n - 1), pkts[n - 1])
  }

  function LogAt(g: Gate, pkts: seq<Packet>, n: nat): Log
    requires n <= |pkts|
  {
    History((log, pkt) => Logged(g, log, pkt), pkts, n)
  }

  lemma LogAtNext(g: Gate, pkts: seq<Packet>, n: nat)
    requires n < |pkts|
    ensures LogAt(g, pkts, n + 1) == Logged(g, LogAt(g, pkts, n), pkts[n])
  {}

  lemma {:induction false} SameHistory(f: (Log, Packet) -> Log, g: (Log, Packet) -> Log, pkts: seq<Packet>, n: nat)
    requires n <= |pkts| && forall log, pkt :: f(log, pkt) == g(log, pkt)
    ensures History(f, pkts, n) == History(g, pkts, n)
  {
    if n > 0 {
      SameHistory(f, g, pkts, n - 1);
    }
  }

  predicate Passes(g: Gate, pkts: seq<Packet>, n: nat)
    requires n < |pkts|
  {
    Admits(g, LogAt(g, pkts, n), pkts[n])
  }

  // ---------- the gate is the server's ----------

  function FirstTimestamp(setup: Setup, wire: Text, src: IP): Option<int>
    requires setup.c.Valid()
  {
    var i := FirstTrue(Verdicts(setup, wire, src));
    if i == |setup.stanzas| then None else Some(StanzaDecrypt(setup.c, setup.stanzas[i], wire).value.timestamp)
  }

  ghost function GateOf(setup: Setup): Gate
    requires setup.c.Valid()
  {
    Gate(wire => WireDigest(setup.c, wire), (wire: Text, src: IP) => FirstTimestamp(setup, wire, src),
         setup.maxAgeSeconds > 0, setup.MaxAge())
  }

  /** The gate's timestamp is the one the first accepting stanza reads. */
  lemma DatedByFirstAccepting(setup: Setup, wire: Text, src: IP, i: nat)
    requires setup.c.Valid() && FirstAccepting(setup.c, setup.stanzas, wire, src, i)
    ensures GateOf(setup).dated(wire, src) == Some(StanzaDecrypt(setup.c, setup.stanzas[i], wire).value.timestamp)
  {
    FirstUnique(setup, wire, src, i);
  }

  lemma JudgePasses(setup: Setup, s: Stanza, i: nat, m: Message, log: Log, pkt: Packet)
    ensures PassesReplay(Judge(setup, s, i, m, log, pkt)) <==>
      AgeAccepted(setup, m.timestamp, pkt.ageNow) && !Seen(log, WireDigest(setup.c, pkt.wire), pkt.dupNow, setup.MaxAge())
  {}

  /** processSPAPacket gets past the replay check, and records the packet, exactly when the gate admits it. */
  lemma GateIsServer(setup: Setup, log: Log, pkt: Packet)
    requires setup.c.Valid()
    ensures PassesReplay(Process(setup, log, pkt)) <==> Admits(GateOf(setup), log, pkt)
    ensures Recorded(setup, log, pkt) == Logged(GateOf(setup), log, pkt)
  {
    var i := FirstTrue(Verdicts(setup, pkt.wire, pkt.src));
    if i < |setup.stanzas| {
      var s := setup.stanzas[i];
      JudgePasses(setup, s, i, StanzaDecrypt(setup.c, s, pkt.wire).value, log, pkt);
    }
  }

  // ---------- two passes ----------

  /** Packets are handled one after the other under a clock that never goes back. */
  ghost predicate Clocked(pkts: seq<Packet>) {
    && (forall i :: 0 <= i < |pkts| ==> Ordered(pkts[i]))
    && (forall i, j :: 0 <= i < j < |pkts| ==> pkts[i].addNow <= pkts[j].ageNow)
  }

  /** Wherever it comes from, this string is dated at most `ts`. */
  ghost predicate DatedAtMost(g: Gate, wire: Text, ts: int) {
    forall src :: g.dated(wire, src).Some? ==> g.dated(wire, src).value <= ts
  }

  lemma {:induction false} PassIsRecorded(g: Gate, pkts: seq<Packet>, i: nat, j: nat)
    requires i < j <= |pkts| && Passes(g, pkts, i)
    ensures (g.digest(pkts[i].wire), pkts[i].addNow) in LogAt(g, pkts, j)
  {
    LogAtNext(g, pkts, j - 1);
    if j > i + 1 {
      PassIsRecorded(g, pkts, i, j - 1);
    }
  }

  /** Two passes of one string, with three clock readings each: the second lookup lies beyond the first
      entry's life, and the second age reading still within the packet's. */
  lemma TwoPasses(g: Gate, pkts: seq<Packet>, i: nat, j: nat, ts: int)
    requires g.limited && i < j < |pkts| && pkts[i].wire == pkts[j].wire && DatedAtMost(g, pkts[j].wire, ts)
    requires Passes(g, pkts, i) && Passes(g, pkts, j)
    ensures pkts[j].dupNow > pkts[i].addNow + g.maxAge
    ensures pkts[j].ageNow <= ts + g.maxAge
  {
    PassIsRecorded(g, pkts, i, j);
    var log := LogAt(g, pkts, j);
    var k :| 0 <= k < |log| && log[k] == (g.digest(pkts[i].wire), pkts[i].addNow);
  }

  // ---------- back to the server ----------

  /** The replay history of the server itself, packet by packet. */
  ghost function ServerLog(setup: Setup, pkts: seq<Packet>, n: nat): Log
    requires setup.c.Valid() && n <= |pkts|
  {
    History(Recording(setup), pkts, n)
  }

  ghost function Recording(setup: Setup): (Log, Packet) -> Log
    requires setup.c.Valid()
  {
    (log, pkt) => Recorded(setup, log, pkt)
  }

  lemma ServerLogNext(setup: Setup, pkts: seq<Packet>, n: nat)
    requires setup.c.Valid() && n < |pkts|
    ensures ServerLog(setup, pkts, n + 1) == Recorded(setup, ServerLog(setup, pkts, n), pkts[n])
  {}

  lemma ServerLogIsGateLog(setup: Setup, pkts: seq<Packet>, n: nat)
    requires setup.c.Valid() && n <= |pkts|
    ensures ServerLog(setup, pkts, n) == LogAt(GateOf(setup), pkts, n)
  {
    var g := GateOf(setup);
    forall log, pkt ensures Recorded(setup, log, pkt) == Logged(g, log, pkt) {
      GateIsServer(setup, log, pkt);
    }
    SameHistory(Recording(setup), (log, pkt) => Logged(g, log, pkt), pkts, n);
  }

  lemma ServerPasses(setup: Setup, pkts: seq<Packet>, n: nat)
    requires setup.c.Valid() && n < |pkts|
    ensures PassesReplay(Process(setup, ServerLog(setup, pkts, n), pkts[n])) <==> Passes(GateOf(setup), pkts, n)
  {
    ServerLogIsGateLog(setup, pkts, n);
    GateIsServer(setup, ServerLog(setup, pkts, n), pkts[n]);
  }

  /** Packet `k` of a server run gets past the replay gate. */
  ghost predicate ServerPassed(setup: Setup, pkts: seq<Packet>, k: nat)
    requires setup.c.Valid()
  {
    k < |pkts| && PassesReplay(Process(setup, ServerLog(setup, pkts, k), pkts[k]))
  }

  /** Among the first `n` packets one with this digest passed and has not expired. */
  ghost predicate PassedRecently(g: Gate, pkts: seq<Packet>, n: nat, digest: Text, now: int)
    requires n <= |pkts|
  {
    exists k :: 0 <= k < n && Passes(g, pkts, k) && g.digest(pkts[k].wire) == digest && now <= pkts[k].addNow + g.maxAge
  }

  /** Whatever the gate has seen before packet `n` is an earlier packet that passed. */
  lemma {:induction false} SeenWasPassed(g: Gate, pkts: seq<Packet>, n: nat, digest: Text, now: int) returns (k: nat)
    requires n <= |pkts| && Seen(LogAt(g, pkts, n), digest, now, g.maxAge)
    ensures k < n && Passes(g, pkts, k) && g.digest(pkts[k].wire) == digest && now <= pkts[k].addNow + g.maxAge
  {
    LogAtNext(g, pkts, n - 1);
    if Seen(LogAt(g, pkts, n - 1), digest, now, g.maxAge) {
      k := SeenWasPassed(g, pkts, n - 1, digest, now);
    } else {
      k := n - 1;
      LastLogged(g, LogAt(g, pkts, k), pkts[k], digest, now);
    }
  }

  lemma LastLogged(g: Gate, log: Log, pkt: Packet, digest: Text, now: int)
    requires Seen(Logged(g, log, pkt), digest, now, g.maxAge) && !Seen(log, digest, now, g.maxAge)
    ensures Admits(g, log, pkt) && g.digest(pkt.wire) == digest && now <= pkt.addNow + g.maxAge
  {
    var longer := Logged(g, log, pkt);
    var i :| 0 <= i < |longer| && longer[i].0 == digest && now <= longer[i].1 + g.maxAge;
    assert i < |log| ==> longer[i] == log[i];
  }

  lemma PassedIsSeen(g: Gate, pkts: seq<Packet>, k: nat, n: nat, now: int)
    requires k < n <= |pkts| && Passes(g, pkts, k) && now <= pkts[k].addNow + g.maxAge
    ensures Seen(LogAt(g, pkts, n), g.digest(pkts[k].wire), now, g.maxAge)
  {
    PassIsRecorded(g, pkts, k, n);
  }

  /** What the history holds before packet `n` is what passed before it. */
  lemma SeenExactlyWhen(g: Gate, pkts: seq<Packet>, n: nat, digest: Text, now: int)
    requires n <= |pkts|
    ensures Seen(LogAt(g, pkts, n), digest, now, g.maxAge) <==> PassedRecently(g, pkts, n, digest, now)
  {
    if Seen(LogAt(g, pkts, n), digest, now, g.maxAge) {
      var k := SeenWasPassed(g, pkts, n, digest, now);
    }
    if PassedRecently(g, pkts, n, digest, now) {
      var k :| 0 <= k < n && Passes(g, pkts, k) && g.digest(pkts[k].wire) == digest && now <= pkts[k].addNow + g.maxAge;
      PassedIsSeen(g, pkts, k, n, now);
    }
  }

  lemma GatePassesExactlyWhen(g: Gate, pkts: seq<Packet>, j: nat, ts: int)
    requires j < |pkts| && g.dated(pkts[j].wire, pkts[j].src) == Some(ts)
    ensures Passes(g, pkts, j)
       <==> YoungEnough(g, ts, pkts[j].ageNow) && !PassedRecently(g, pkts, j, g.digest(pkts[j].wire), pkts[j].dupNow)
  {
    SeenExactlyWhen(g, pkts, j, g.digest(pkts[j].wire), pkts[j].dupNow);
  }

  lemma RecentlyByHash(setup: Setup, pkts: seq<Packet>, j: nat)
    requires setup.c.Valid() && j < |pkts|
    ensures !PassedRecently(GateOf(setup), pkts, j, WireDigest(setup.c, pkts[j].wire), pkts[j].dupNow)
       <==> forall k :: 0 <= k < j && ServerPassed(setup, pkts, k)
                        && setup.c.hash(3, pkts[k].wire) == setup.c.hash(3, pkts[j].wire)
              ==> pkts[j].dupNow - pkts[k].addNow > setup.maxAgeSeconds * 1_000_000_000
  {
    forall k | 0 <= k < j
      ensures ServerPassed(setup, pkts, k) <==> Passes(GateOf(setup), pkts, k)
      ensures WireDigest(setup.c, pkts[k].wire) == WireDigest(setup.c, pkts[j].wire)
         <==> setup.c.hash(3, pkts[k].wire) == setup.c.hash(3, pkts[j].wire)
    {
      ServerPasses(setup, pkts, k);
      DigestsEqualExactlyWhen(setup.c, pkts[k].wire, pkts[j].wire);
    }
  }

  /** In every run of the server, a packet that a stanza accepts gets past the replay gate if and only if it is young
      enough and no earlier packet with its SHA-256 hash got past and was recorded at most the age limit before. */
  lemma PassesExactlyWhen(setup: Setup, pkts: seq<Packet>, j: nat, i: nat)
    requires setup.c.Valid() && j < |pkts|
    requires FirstAccepting(setup.c, setup.stanzas, pkts[j].wire, pkts[j].src, i)
    ensures var sent := StanzaDecrypt(setup.c, setup.stanzas[i], pkts[j].wire).value.timestamp;
      var limit := setup.maxAgeSeconds * 1_000_000_000;
      ServerPassed(setup, pkts, j)
      <==> (setup.maxAgeSeconds > 0 ==> pkts[j].ageNow - sent <= limit)
           && forall k :: 0 <= k < j && ServerPassed(setup, pkts, k)
                          && setup.c.hash(3, pkts[k].wire) == setup.c.hash(3, pkts[j].wire)
                ==> pkts[j].dupNow - pkts[k].addNow > limit
  {
    ServerPasses(setup, pkts, j);
    DatedByFirstAccepting(setup, pkts[j].wire, pkts[j].src, i);
    var sent := StanzaDecrypt(setup.c, setup.stanzas[i], pkts[j].wire).value.timestamp;
    GatePassesExactlyWhen(GateOf(setup), pkts, j, sent);
    RecentlyByHash(setup, pkts, j);
  }

  /** Two packets of a server run carry one string past the replay gate: the guarantee in the server's terms. */
  lemma ServerTwoPasses(setup: Setup, pkts: seq<Packet>, i: nat, j: nat, ts: int)
    requires setup.c.Valid() && setup.maxAgeSeconds > 0
    requires i < j < |pkts| && pkts[i].wire == pkts[j].wire
    requires DatedAtMost(GateOf(setup), pkts[j].wire, ts)
    requires PassesReplay(Process(setup, ServerLog(setup, pkts, i), pkts[i]))
    requires PassesReplay(Process(setup, ServerLog(setup, pkts, j), pkts[j]))
    ensures pkts[j].dupNow > pkts[i].addNow + setup.MaxAge()
    ensures pkts[j].ageNow <= ts + setup.MaxAge()
  {
    ServerPasses(setup, pkts, i);
    ServerPasses(setup, pkts, j);
    TwoPasses(GateOf(setup), pkts, i, j, ts);
  }
}
