/** How often one wire string gets past the replay gate, over any run: the exact number and the exact condition
    under which it is one. */
module ReplayCount {
  import opened Bytes
  import opened Message
  import opened Replay
  import opened Server
  import opened ReplayRuns

  // ---------- the passes of a string ----------

  /** The packets among the first `n` that carry this string and are marked. */
  function Chosen(pkts: seq<Packet>, marked: seq<bool>, wire: Text, n: nat): (chosen: seq<Packet>)
    requires n <= |pkts| == |marked|
    ensures |chosen| <= n
  {
    if n == 0 then []
    else Chosen(pkts, marked, wire, n - 1) + if marked[n - 1] && pkts[n - 1].wire == wire then [pkts[n - 1]] else []
  }

  function Marks(g: Gate, pkts: seq<Packet>): (marked: seq<bool>)
    ensures |marked| == |pkts| && forall k :: 0 <= k < |pkts| ==> marked[k] == Passes(g, pkts, k)
  {
    seq(|pkts|, k requires 0 <= k < |pkts| => Passes(g, pkts, k))
  }

  /** The packets of a run that carried this string past the replay gate. */
  function Passed(g: Gate, pkts: seq<Packet>, wire: Text): seq<Packet> {
    Chosen(pkts, Marks(g, pkts), wire, |pkts|)
  }

  lemma {:induction false} LastChosen(pkts: seq<Packet>, marked: seq<bool>, wire: Text, n: nat) returns (i: nat)
    requires n <= |pkts| == |marked| && Chosen(pkts, marked, wire, n) != []
    ensures i < n && pkts[i].wire == wire && marked[i]
    ensures var chosen := Chosen(pkts, marked, wire, n); chosen[|chosen| - 1] == pkts[i]
  {
    if marked[n - 1] && pkts[n - 1].wire == wire {
      i := n - 1;
    } else {
      i := LastChosen(pkts, marked, wire, n - 1);
    }
  }

  /** How far a packet's lookup may lag behind its age check; None puts no bound. */
  predicate Lags(pkt: Packet, skew: Option<nat>) {
    skew.Some? ==> pkt.dupNow <= pkt.ageNow + skew.value
  }

  ghost predicate Skewed(pkts: seq<Packet>, skew: Option<nat>) {
    forall i :: 0 <= i < |pkts| ==> Lags(pkts[i], skew)
  }

  /** Each pass comes more than a time-to-live after the one before it, and within its packet's age. */
  ghost predicate Spaced(passed: seq<Packet>, ttl: int, latest: int, skew: Option<nat>) {
    && (forall k :: 0 <= k < |passed| ==>
          passed[k].dupNow <= passed[k].addNow && passed[k].ageNow <= latest && Lags(passed[k], skew))
    && (forall k :: 0 <= k < |passed| - 1 ==> Follows(passed[k], passed[k + 1], ttl))
  }

  predicate Follows(p: Packet, q: Packet, ttl: int) { q.ageNow >= p.addNow && q.dupNow > p.addNow + ttl }

  /** Any two marked packets with this string are that far apart, and each is young enough. */
  ghost predicate PairsSpaced(pkts: seq<Packet>, marked: seq<bool>, wire: Text, ttl: int, latest: int)
    requires |pkts| == |marked|
  {
    && (forall j :: 0 <= j < |pkts| && marked[j] && pkts[j].wire == wire ==> pkts[j].ageNow <= latest)
    && (forall i, j :: 0 <= i < j < |pkts| && marked[i] && marked[j] && pkts[i].wire == wire && pkts[j].wire == wire ==>
          Follows(pkts[i], pkts[j], ttl))
  }

  lemma {:induction false} ChosenSpaced(pkts: seq<Packet>, marked: seq<bool>, wire: Text, n: nat,
                                        ttl: int, latest: int, skew: Option<nat>)
    requires n <= |pkts| == |marked| && Clocked(pkts) && Skewed(pkts, skew)
    requires PairsSpaced(pkts, marked, wire, ttl, latest)
    ensures Spaced(Chosen(pkts, marked, wire, n), ttl, latest, skew)
  {
    if n > 0 {
      ChosenSpaced(pkts, marked, wire, n - 1, ttl, latest, skew);
      var before := Chosen(pkts, marked, wire, n - 1);
      if marked[n - 1] && pkts[n - 1].wire == wire {
        if before != [] {
          var i := LastChosen(pkts, marked, wire, n - 1);
        }
        OneMoreSpaced(before, pkts[n - 1], ttl, latest, skew);
      }
    }
  }

  lemma OneMoreSpaced(passed: seq<Packet>, pkt: Packet, ttl: int, latest: int, skew: Option<nat>)
    requires Spaced(passed, ttl, latest, skew)
    requires pkt.dupNow <= pkt.addNow && pkt.ageNow <= latest && Lags(pkt, skew)
    requires passed != [] ==> Follows(passed[|passed| - 1], pkt, ttl)
    ensures Spaced(passed + [pkt], ttl, latest, skew)
  {}

  lemma AgeBound(g: Gate, log: Log, pkt: Packet, ts: int)
    requires g.limited && DatedAtMost(g, pkt.wire, ts) && Admits(g, log, pkt)
    ensures pkt.ageNow <= ts + g.maxAge
  {}

  lemma PassesSpaced(g: Gate, pkts: seq<Packet>, wire: Text, ts: int, skew: Option<nat>)
    requires g.limited && Clocked(pkts) && Skewed(pkts, skew) && DatedAtMost(g, wire, ts)
    ensures Spaced(Passed(g, pkts, wire), g.maxAge, ts + g.maxAge, skew)
  {
    var marked := Marks(g, pkts);
    forall j | 0 <= j < |pkts| && marked[j] && pkts[j].wire == wire ensures pkts[j].ageNow <= ts + g.maxAge {
      AgeBound(g, LogAt(g, pkts, j), pkts[j], ts);
    }
    forall i, j | 0 <= i < j < |pkts| && marked[i] && marked[j] && pkts[i].wire == wire && pkts[j].wire == wire
      ensures Follows(pkts[i], pkts[j], g.maxAge)
    {
      TwoPasses(g, pkts, i, j, ts);
    }
    ChosenSpaced(pkts, marked, wire, |pkts|, g.maxAge, ts + g.maxAge, skew);
  }

  // ---------- how many fit ----------

  /** k * gap, built up step by step. */
  function Offset(k: nat, gap: nat): nat { if k == 0 then 0 else Offset(k - 1, gap) + gap }

  lemma {:induction false} OffsetIs(k: nat, gap: nat)
    ensures Offset(k, gap) == k * gap
  {
    if k > 0 {
      OffsetIs(k - 1, gap);
    }
  }

  lemma {:induction false} OffsetMonotone(j: nat, k: nat, gap: nat)
    requires j <= k
    ensures Offset(j, gap) <= Offset(k, gap)
    decreases k
  {
    if j < k {
      OffsetMonotone(j, k - 1, gap);
    }
  }

  lemma {:induction false} SpacedSpread(passed: seq<Packet>, ttl: nat, latest: int, skew: Option<nat>, k: nat)
    requires Spaced(passed, ttl, latest, skew) && k < |passed|
    ensures passed[k].addNow >= passed[0].addNow + Offset(k, ttl + 1)
    ensures k > 0 ==> passed[k].dupNow >= passed[0].addNow + Offset(k, ttl + 1)
    ensures k > 0 ==> passed[k].ageNow >= passed[0].addNow + Offset(k - 1, ttl + 1)
  {
    if k > 0 {
      SpacedSpread(passed, ttl, latest, skew, k - 1);
      assert Follows(passed[k - 1], passed[k], ttl);
    }
  }

  /** What the lag between age check and lookup can add to a string's life: never more than one time-to-live. */
  function Slack(skew: Option<nat>, ttl: nat): (slack: nat)
    ensures slack <= ttl + 1
  {
    if skew.None? || skew.value > ttl then ttl + 1 else skew.value
  }

  lemma SpacedBound(passed: seq<Packet>, ttl: nat, latest: int, skew: Option<nat>)
    requires Spaced(passed, ttl, latest, skew) && |passed| > 1
    ensures passed[0].addNow + (|passed| - 1) * (ttl + 1) <= latest + Slack(skew, ttl)
  {
    SpacedSpread(passed, ttl, latest, skew, |passed| - 1);
    OffsetIs(|passed| - 1, ttl + 1);
  }

  /** 1 + ceil((ts - t1) / (ttl + 1)): the passes, at least ttl + 1 apart, that fit between `t1` and `ts + ttl`. */
  function MaxPasses(ts: int, t1: int, ttl: nat): (n: nat)
    ensures ts <= t1 ==> n == 1
  {
    if ts <= t1 then 1 else 1 + (ts - t1 + ttl) / (ttl + 1)
  }

  lemma QuotientBound(k: nat, m: nat, x: nat)
    requires m > 0
    ensures k * m <= x <==> k <= x / m
  {
    var q, r := x / m, x % m;
    assert x == q * m + r;
    if k <= q {
      ProductMonotone(k, q, m);
    } else {
      ProductMonotone(q + 1, k, m);
    }
  }

  lemma ProductMonotone(a: nat, b: nat, m: nat)
    requires a <= b
    ensures a * m <= b * m
  {
    assert b * m == a * m + (b - a) * m;
  }

  /** What the number means: the n-th pass still falls within the packet's age. */
  lemma MaxPassesMeaning(n: nat, ts: int, t1: int, ttl: nat)
    requires n >= 1 && ts > t1
    ensures n <= MaxPasses(ts, t1, ttl) <==> t1 + (n - 1) * (ttl + 1) <= ts + ttl
  {
    QuotientBound(n - 1, ttl + 1, ts - t1 + ttl);
  }

  lemma WithinMaxPasses(n: nat, ts: int, t1: int, ttl: nat)
    requires n >= 1
    requires n > 1 ==> t1 + (n - 1) * (ttl + 1) <= ts + ttl
    ensures n <= MaxPasses(ts, t1, ttl)
  {
    if n > 1 {
      ProductMonotone(1, n - 1, ttl + 1);
      MaxPassesMeaning(n, ts, t1, ttl);
    }
  }

  /** The bound for the server's three clock readings, whatever they are: a string dated `ts` that first passes at
      `t1` passes at most 1 + ceil((ts + slack - t1) / (ttl + 1)) times. */
  lemma ReplayBound(g: Gate, pkts: seq<Packet>, wire: Text, ts: int, skew: Option<nat>)
    requires g.limited && g.maxAge >= 0 && Clocked(pkts) && Skewed(pkts, skew)
    requires DatedAtMost(g, wire, ts)
    ensures var passed := Passed(g, pkts, wire);
      passed != [] ==> |passed| <= MaxPasses(ts + Slack(skew, g.maxAge), passed[0].addNow, g.maxAge)
  {
    var passed := Passed(g, pkts, wire);
    PassesSpaced(g, pkts, wire, ts, skew);
    if |passed| > 1 {
      SpacedBound(passed, g.maxAge, ts + g.maxAge, skew);
    }
    if passed != [] {
      WithinMaxPasses(|passed|, ts + Slack(skew, g.maxAge), passed[0].addNow, g.maxAge);
    }
  }

  // ---------- the bound is attained ----------

  function Min(a: int, b: int): int { if a < b then a else b }

  /** A string sent again every `gap`, its first pass recorded at `t1`; ages are read no later than `latest`. */
  function Stretched(wire: Text, src: IP, t1: int, gap: nat, latest: int, k: nat): Packet {
    var t := t1 + Offset(k, gap);
    Packet(wire, src, Min(t, latest), if k == 0 then Min(t, latest) else t, t)
  }

  function Repeated(wire: Text, src: IP, t1: int, gap: nat, latest: int, n: nat): (pkts: seq<Packet>)
    ensures |pkts| == n && EveryGap(pkts, wire, src, t1, gap, latest)
  {
    seq(n, k requires 0 <= k < n => Stretched(wire, src, t1, gap, latest, k))
  }

  predicate EveryGap(pkts: seq<Packet>, wire: Text, src: IP, t1: int, gap: nat, latest: int) {
    forall k {:trigger pkts[k]} :: 0 <= k < |pkts| ==> pkts[k] == Stretched(wire, src, t1, gap, latest, k)
  }

  lemma EveryGapClocked(pkts: seq<Packet>, wire: Text, src: IP, t1: int, gap: nat, latest: int)
    requires EveryGap(pkts, wire, src, t1, gap, latest)
    requires |pkts| >= 2 ==> t1 + Offset(|pkts| - 2, gap) <= latest
    ensures Clocked(pkts)
  {
    forall i, j | 0 <= i < j < |pkts| ensures pkts[i].addNow <= pkts[j].ageNow {
      OffsetMonotone(i, j, gap);
      OffsetMonotone(i, |pkts| - 2, gap);
    }
  }

  lemma EveryGapSkewed(pkts: seq<Packet>, wire: Text, src: IP, t1: int, gap: nat, latest: int, skew: Option<nat>)
    requires EveryGap(pkts, wire, src, t1, gap, latest)
    requires skew.Some? && |pkts| >= 2 ==> t1 + Offset(|pkts| - 1, gap) <= latest + skew.value
    ensures Skewed(pkts, skew)
  {
    forall i | 0 <= i < |pkts| ensures Lags(pkts[i], skew) {
      OffsetMonotone(i, |pkts| - 1, gap);
    }
  }

  ghost predicate LoggedBefore(log: Log, t: int) {
    forall e :: 0 <= e < |log| ==> log[e].1 <= t
  }

  /** One more repetition passes when everything logged is out of date and the packet is young enough. */
  lemma RepetitionPasses(g: Gate, log: Log, pkt: Packet, ts: int, before: int)
    requires g.dated(pkt.wire, pkt.src) == Some(ts) && YoungEnough(g, ts, pkt.ageNow)
    requires LoggedBefore(log, before) && pkt.dupNow > before + g.maxAge
    ensures Admits(g, log, pkt)
  {}

  lemma {:induction false} RepeatedPasses(g: Gate, pkts: seq<Packet>, wire: Text, src: IP, ts: int,
                                          t1: int, gap: nat, latest: int, k: nat)
    requires g.dated(wire, src) == Some(ts) && YoungEnough(g, ts, latest)
    requires gap > g.maxAge && k < |pkts| && EveryGap(pkts, wire, src, t1, gap, latest)
    ensures Passes(g, pkts, k)
    ensures LoggedBefore(LogAt(g, pkts, k + 1), t1 + Offset(k, gap))
  {
    var before := pkts[0].dupNow - gap;
    if k > 0 {
      RepeatedPasses(g, pkts, wire, src, ts, t1, gap, latest, k - 1);
      before := t1 + Offset(k - 1, gap);
    }
    RepetitionPasses(g, LogAt(g, pkts, k), pkts[k], ts, before);
    LogAtNext(g, pkts, k);
  }

  lemma {:induction false} AllChosen(pkts: seq<Packet>, marked: seq<bool>, wire: Text, n: nat)
    requires n <= |pkts| == |marked|
    requires forall k :: 0 <= k < |pkts| ==> marked[k] && pkts[k].wire == wire
    ensures Chosen(pkts, marked, wire, n) == pkts[..n]
  {
    if n > 0 {
      AllChosen(pkts, marked, wire, n - 1);
      assert pkts[..n] == pkts[..n - 1] + [pkts[n - 1]];
    }
  }

  lemma AllPass(g: Gate, wire: Text, src: IP, ts: int, t1: int, gap: nat, latest: int, n: nat) returns (pkts: seq<Packet>)
    requires g.dated(wire, src) == Some(ts) && YoungEnough(g, ts, latest) && gap > g.maxAge
    ensures pkts == Repeated(wire, src, t1, gap, latest, n)
    ensures Passed(g, pkts, wire) == pkts
  {
    pkts := Repeated(wire, src, t1, gap, latest, n);
    forall k | 0 <= k < n ensures Passes(g, pkts, k) {
      RepeatedPasses(g, pkts, wire, src, ts, t1, gap, latest, k);
    }
    AllChosen(pkts, Marks(g, pkts), wire, n);
    assert pkts[..n] == pkts;
  }

  lemma LastPassInTime(ts: int, t1: int, ttl: nat, slack: nat)
    requires slack <= ttl + 1
    ensures var n := MaxPasses(ts + slack, t1, ttl);
      && n >= 1
      && (n >= 2 ==> t1 + Offset(n - 1, ttl + 1) <= ts + ttl + slack)
      && (n >= 2 ==> t1 + Offset(n - 2, ttl + 1) <= ts + ttl)
  {
    var n := MaxPasses(ts + slack, t1, ttl);
    if ts + slack > t1 {
      MaxPassesMeaning(n, ts + slack, t1, ttl);
      OffsetIs(n - 1, ttl + 1);
    }
  }

  lemma ManyPasses(g: Gate, wire: Text, src: IP, ts: int, t1: int, skew: Option<nat>, n: nat) returns (pkts: seq<Packet>)
    requires g.limited && g.maxAge >= 0 && g.dated(wire, src) == Some(ts) && n >= 1
    requires n >= 2 ==> t1 + Offset(n - 1, g.maxAge + 1) <= ts + g.maxAge + Slack(skew, g.maxAge)
    requires n >= 2 ==> t1 + Offset(n - 2, g.maxAge + 1) <= ts + g.maxAge
    ensures Clocked(pkts) && Skewed(pkts, skew)
    ensures |pkts| == n && pkts[0].addNow == t1 && Passed(g, pkts, wire) == pkts
  {
    var gap, latest := g.maxAge + 1, ts + g.maxAge;
    pkts := AllPass(g, wire, src, ts, t1, gap, latest, n);
    EveryGapClocked(pkts, wire, src, t1, gap, latest);
    EveryGapSkewed(pkts, wire, src, t1, gap, latest, skew);
    assert pkts[0] == Stretched(wire, src, t1, gap, latest, 0);
  }

  /** Some run of any string the server accepts makes as many passes as the bound allows. */
  lemma BoundAttained(g: Gate, wire: Text, src: IP, ts: int, t1: int, skew: Option<nat>) returns (pkts: seq<Packet>)
    requires g.limited && g.maxAge >= 0 && g.dated(wire, src) == Some(ts)
    ensures Clocked(pkts) && Skewed(pkts, skew)
    ensures |pkts| == MaxPasses(ts + Slack(skew, g.maxAge), t1, g.maxAge) && pkts != [] && pkts[0].addNow == t1
    ensures Passed(g, pkts, wire) == pkts
  {
    LastPassInTime(ts, t1, g.maxAge, Slack(skew, g.maxAge));
    pkts := ManyPasses(g, wire, src, ts, t1, skew, MaxPasses(ts + Slack(skew, g.maxAge), t1, g.maxAge));
  }

  // ---------- the exact condition ----------

  /** No run with this lag lets the string past the replay gate again once its first pass was recorded at `t1`. */
  ghost predicate AtMostOnceFrom(g: Gate, wire: Text, t1: int, skew: Option<nat>) {
    forall pkts: seq<Packet> :: Clocked(pkts) && Skewed(pkts, skew) ==>
      var passed := Passed(g, pkts, wire);
      passed != [] && passed[0].addNow == t1 ==> |passed| == 1
  }

  /** Replay protection is complete exactly for strings dated early enough before their first pass: by the lag
      between age check and lookup, and by one time-to-live and a tick when that lag has no bound. */
  lemma AtMostOnceExactlyWhen(g: Gate, wire: Text, src: IP, ts: int, t1: int, skew: Option<nat>)
    requires g.limited && g.maxAge >= 0
    requires g.dated(wire, src) == Some(ts) && DatedAtMost(g, wire, ts)
    ensures AtMostOnceFrom(g, wire, t1, skew) <==> ts + Slack(skew, g.maxAge) <= t1
  {
    var late := ts + Slack(skew, g.maxAge);
    if late <= t1 {
      forall pkts: seq<Packet> | Clocked(pkts) && Skewed(pkts, skew)
        ensures var passed := Passed(g, pkts, wire); passed != [] && passed[0].addNow == t1 ==> |passed| == 1
      {
        ReplayBound(g, pkts, wire, ts, skew);
      }
    } else {
      var pkts := BoundAttained(g, wire, src, ts, t1, skew);
      TwoAllowed(late, t1, g.maxAge);
      assert |Passed(g, pkts, wire)| >= 2;
    }
  }

  lemma TwoAllowed(ts: int, t1: int, ttl: nat)
    requires t1 < ts
    ensures MaxPasses(ts, t1, ttl) >= 2
  {
    MaxPassesMeaning(2, ts, t1, ttl);
  }

  /** With the age limit switched off, and with it the time-to-live, there is no protection at all. */
  lemma NoAgeLimitNoProtection(g: Gate, wire: Text, src: IP, ts: int, t1: int, n: nat) returns (pkts: seq<Packet>)
    requires !g.limited && g.maxAge <= 0 && g.dated(wire, src) == Some(ts)
    ensures Clocked(pkts) && Skewed(pkts, Some(0))
    ensures |pkts| == n && Passed(g, pkts, wire) == pkts
  {
    var latest := t1 + Offset(n, 1);
    pkts := AllPass(g, wire, src, ts, t1, 1, latest, n);
    if n >= 1 {
      OffsetMonotone(n - 1, n, 1);
    }
    if n >= 2 {
      OffsetMonotone(n - 2, n, 1);
    }
    EveryGapClocked(pkts, wire, src, t1, 1, latest);
    EveryGapSkewed(pkts, wire, src, t1, 1, latest, Some(0));
  }
}
