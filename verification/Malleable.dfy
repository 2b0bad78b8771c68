/** One message, many wire strings: which variants of a datagram the server takes for another packet, and which
    stanzas rule them out. */
module Malleable {
  import B64 = Base64
  import opened Bytes
  import opened Crypto
  import opened Message
  import RoundTrip
  import WireLength
  import opened SpaDecode
  import opened Access
  import opened Replay
  import opened Server
  import opened ReplayRuns

  // ---------- line breaks are not part of the message ----------

  /** The same characters apart from line breaks, and a length that asks for the same padding. */
  predicate SameButBreaks(v: Text, w: Text) {
    B64.StripNewlines(v) == B64.StripNewlines(w) && |v| % 4 == |w| % 4
  }

  lemma PaddedStrip(s: Text, n: nat)
    requires n == (4 - |s| % 4) % 4
    ensures B64.StripNewlines(B64.Repad(s)) == B64.StripNewlines(s) + Repeat(EQUALS, n)
  {
    PadToFour(|s|, n);
    B64.RepadTo(s, n);
    B64.StripAppend(s, Repeat(EQUALS, n));
    B64.StripNothing(Repeat(EQUALS, n));
  }

  lemma PadToFour(length: nat, n: nat)
    requires n == (4 - length % 4) % 4
    ensures n < 4 && (length + n) % 4 == 0
  {}

  lemma BreaksIgnored(v: Text, w: Text)
    requires SameButBreaks(v, w)
    ensures B64.Decode(v) == B64.Decode(w)
  {
    var n := (4 - |v| % 4) % 4;
    PaddedStrip(v, n);
    PaddedStrip(w, n);
  }

  lemma PrefixedSameButBreaks(p: Text, v: Text, w: Text)
    requires SameButBreaks(v, w)
    ensures SameButBreaks(p + v, p + w)
  {
    B64.StripAppend(p, v);
    B64.StripAppend(p, w);
  }

  /** A stanza without an HMAC key reads the same message from every such variant. */
  lemma KeylessDecryptsVariants(c: Primitives, s: Stanza, v: Text, w: Text)
    requires c.Valid() && s.hmacKey == [] && SameButBreaks(v, w)
    ensures StanzaDecrypt(c, s, v) == StanzaDecrypt(c, s, w)
  {
    PrefixedSameButBreaks(B64.B64_SALT_PREFIX, v, w);
    BreaksIgnored(B64.B64_SALT_PREFIX + v, B64.B64_SALT_PREFIX + w);
  }

  /** `k` groups of four line breaks behind the packet. */
  function Variant(wire: Text, k: nat): (w: Text)
    ensures |w| == |wire| + 4 * k
  {
    wire + Repeat(B64.LF, 4 * k)
  }

  lemma {:induction false} StripBreaks(n: nat)
    ensures B64.StripNewlines(Repeat(B64.LF, n)) == []
  {
    if n > 0 {
      assert Repeat(B64.LF, n)[1..] == Repeat(B64.LF, n - 1);
      StripBreaks(n - 1);
    }
  }

  lemma VariantsSame(wire: Text, k: nat)
    ensures SameButBreaks(Variant(wire, k), wire)
  {
    B64.StripAppend(wire, Repeat(B64.LF, 4 * k));
    StripBreaks(4 * k);
    assert B64.StripNewlines(wire) + [] == B64.StripNewlines(wire);
    FoursIgnored(|wire|, k);
  }

  lemma FoursIgnored(n: nat, k: nat)
    ensures (n + 4 * k) % 4 == n % 4
  {}

  // ---------- what an HMAC key rules out ----------

  /** The text that a stanza with an HMAC key authenticates in a packet. */
  function AuthenticatedText(c: Primitives, s: Stanza, wire: Text): Result<Text> {
    CheckHMAC(c, wire, s.hmacKey, ApplyOptions(Options(s)).hmacType)
  }

  /** The wire string is this text, followed by the text's own HMAC under the stanza's key. */
  predicate Carries(c: Primitives, s: Stanza, wire: Text, text: Text) {
    wire == text + B64.Encode(c.mac(s.hmacType, B64.B64_SALT_PREFIX + text, s.hmacKey))
  }

  lemma AcceptedCarries(c: Primitives, s: Stanza, wire: Text) returns (text: Text)
    requires c.Valid() && s.hmacKey != [] && StanzaDecrypt(c, s, wire).Ok?
    ensures AuthenticatedText(c, s, wire) == Ok(text) && Carries(c, s, wire, text)
  {
    OptionsConfig(s);
    text := AuthenticatedText(c, s, wire).value;
    RoundTrip.AuthenticatedExactlyWhen(c, wire, s.hmacKey, s.hmacType, text);
  }

  /** Under one HMAC key and type each text has one wire string. */
  lemma TextDeterminesWire(c: Primitives, a: Stanza, b: Stanza, v: Text, w: Text, text: Text)
    requires a.hmacKey == b.hmacKey && a.hmacType == b.hmacType
    requires Carries(c, a, v, text) && Carries(c, b, w, text)
    ensures v == w
  {}

  /** A wire string that passes the HMAC check ends in a character of the HMAC's base64. */
  lemma AuthenticatedEnd(c: Primitives, wire: Text, hmacKey: Text, hmacType: int, text: Text)
    requires c.Valid() && hmacKey != [] && CheckHMAC(c, wire, hmacKey, hmacType) == Ok(text)
    ensures wire != [] && B64.DecodeChar(wire[|wire| - 1]).Some?
  {
    RoundTrip.AuthenticatedExactlyWhen(c, wire, hmacKey, hmacType, text);
    LengthTables(c, hmacType, B64.B64_SALT_PREFIX + text, hmacKey);
    B64.EncodeShape(c.mac(hmacType, B64.B64_SALT_PREFIX + text, hmacKey));
    var hmac := B64.Encode(c.mac(hmacType, B64.B64_SALT_PREFIX + text, hmacKey));
    assert wire[|wire| - 1] == hmac[|hmac| - 1];
  }

  /** So no accepted wire string of a keyed stanza ends in a line break. */
  lemma KeyedRefusesBreaks(c: Primitives, s: Stanza, wire: Text)
    requires c.Valid() && s.hmacKey != [] && wire != [] && wire[|wire| - 1] == B64.LF
    ensures StanzaDecrypt(c, s, wire).Err?
  {
    var t := ApplyOptions(Options(s)).hmacType;
    var checked := CheckHMAC(c, wire, s.hmacKey, t);
    if checked.Ok? {
      AuthenticatedEnd(c, wire, s.hmacKey, t, checked.value);
    }
  }

  // ---------- keyless stanzas: one message, many passes ----------

  lemma VariantAccepted(c: Primitives, s: Stanza, wire: Text, src: IP, k: nat)
    requires c.Valid() && k > 0
    ensures s.hmacKey == [] ==> (Accepts(c, s, Variant(wire, k), src) <==> Accepts(c, s, wire, src))
    ensures s.hmacKey != [] ==> !Accepts(c, s, Variant(wire, k), src)
  {
    if s.hmacKey == [] {
      VariantsSame(wire, k);
      KeylessDecryptsVariants(c, s, Variant(wire, k), wire);
    } else {
      KeyedRefusesBreaks(c, s, Variant(wire, k));
    }
  }

  /** The stanza that takes a packet takes its variants, and no earlier one does. */
  lemma VariantFirstAccepted(c: Primitives, stanzas: seq<Stanza>, wire: Text, src: IP, i: nat, k: nat)
    requires c.Valid() && FirstAccepting(c, stanzas, wire, src, i) && stanzas[i].hmacKey == []
    ensures FirstAccepting(c, stanzas, Variant(wire, k), src, i)
    ensures StanzaDecrypt(c, stanzas[i], Variant(wire, k)) == StanzaDecrypt(c, stanzas[i], wire)
  {
    VariantsSame(wire, k);
    KeylessDecryptsVariants(c, stanzas[i], Variant(wire, k), wire);
    if k == 0 {
      assert Variant(wire, k) == wire;
    } else {
      forall j | 0 <= j <= i ensures Accepts(c, stanzas[j], Variant(wire, k), src) ==> Accepts(c, stanzas[j], wire, src) {
        VariantAccepted(c, stanzas[j], wire, src, k);
      }
      VariantAccepted(c, stanzas[i], wire, src, k);
    }
  }

  /** The variants sent one after the other within a single tick. */
  function Burst(wire: Text, src: IP, t: int, n: nat): (pkts: seq<Packet>)
    ensures |pkts| == n && forall k :: 0 <= k < n ==> pkts[k] == Packet(Variant(wire, k), src, t, t, t)
  {
    seq(n, k requires 0 <= k < n => Packet(Variant(wire, k), src, t, t, t))
  }

  ghost predicate IsVariantDigest(g: Gate, digest: Text, wire: Text, n: nat) {
    exists k: nat :: k < n && digest == g.digest(Variant(wire, k))
  }

  /** Everything logged before packet `n` is one of the earlier variants. */
  ghost predicate LoggedVariants(g: Gate, log: Log, wire: Text, n: nat) {
    forall e :: 0 <= e < |log| ==> IsVariantDigest(g, log[e].0, wire, n)
  }

  lemma VariantAdmitted(g: Gate, log: Log, pkt: Packet, wire: Text, n: nat, ts: int)
    requires pkt.wire == Variant(wire, n) && g.dated(pkt.wire, pkt.src) == Some(ts) && YoungEnough(g, ts, pkt.ageNow)
    requires LoggedVariants(g, log, wire, n)
    requires forall k: nat :: k < n ==> g.digest(Variant(wire, k)) != g.digest(Variant(wire, n))
    ensures Admits(g, log, pkt) && LoggedVariants(g, Logged(g, log, pkt), wire, n + 1)
  {
    assert !IsVariantDigest(g, g.digest(pkt.wire), wire, n);
    forall d | IsVariantDigest(g, d, wire, n) || d == g.digest(Variant(wire, n))
      ensures IsVariantDigest(g, d, wire, n + 1) {}
  }

  lemma {:induction false} BurstPasses(g: Gate, pkts: seq<Packet>, wire: Text, src: IP, t: int, ts: int, n: nat)
    requires n < |pkts| && pkts == Burst(wire, src, t, |pkts|)
    requires YoungEnough(g, ts, t) && forall k: nat :: k < |pkts| ==> g.dated(Variant(wire, k), src) == Some(ts)
    requires forall j: nat, k: nat :: j < k < |pkts| ==> g.digest(Variant(wire, j)) != g.digest(Variant(wire, k))
    ensures Passes(g, pkts, n) && LoggedVariants(g, LogAt(g, pkts, n + 1), wire, n + 1)
  {
    if n > 0 {
      BurstPasses(g, pkts, wire, src, t, ts, n - 1);
    }
    VariantAdmitted(g, LogAt(g, pkts, n), pkts[n], wire, n, ts);
    LogAtNext(g, pkts, n);
  }

  /** The stanza that takes the packet is the first to take this variant, and reads the same message. */
  ghost predicate VariantRead(setup: Setup, wire: Text, src: IP, i: nat, k: nat)
    requires setup.c.Valid() && i < |setup.stanzas|
  {
    && FirstAccepting(setup.c, setup.stanzas, Variant(wire, k), src, i)
    && StanzaDecrypt(setup.c, setup.stanzas[i], Variant(wire, k)) == StanzaDecrypt(setup.c, setup.stanzas[i], wire)
  }

  ghost predicate ReadBy(g: Gate, c: Primitives, wire: Text, src: IP, ts: int) {
    g.dated(wire, src) == Some(ts) && g.digest(wire) == WireDigest(c, wire)
  }

  lemma BurstArrives(wire: Text, src: IP, t: int, n: nat)
    requires |wire| + 4 * (n - 1) <= WireLength.BUFFER_SIZE
    ensures var pkts := Burst(wire, src, t, n);
      forall k :: 0 <= k < n ==> WireLength.Received(pkts[k].wire) == pkts[k].wire
  {}

  lemma VariantDated(setup: Setup, g: Gate, wire: Text, src: IP, i: nat, k: nat)
    requires setup.c.Valid() && g == GateOf(setup) && i < |setup.stanzas|
    requires StanzaDecrypt(setup.c, setup.stanzas[i], wire).Ok? && VariantRead(setup, wire, src, i, k)
    ensures ReadBy(g, setup.c, Variant(wire, k), src, StanzaDecrypt(setup.c, setup.stanzas[i], wire).value.timestamp)
  {
    DatedByFirstAccepting(setup, Variant(wire, k), src, i);
  }

  lemma BurstServed(setup: Setup, g: Gate, pkts: seq<Packet>, wire: Text, src: IP, t: int, ts: int, n: nat)
    requires setup.c.Valid() && g == GateOf(setup)
    requires n < |pkts| && pkts == Burst(wire, src, t, |pkts|)
    requires YoungEnough(g, ts, t) && forall k: nat :: k < |pkts| ==> g.dated(Variant(wire, k), src) == Some(ts)
    requires forall j: nat, k: nat :: j < k < |pkts| ==> g.digest(Variant(wire, j)) != g.digest(Variant(wire, k))
    ensures PassesReplay(Process(setup, ServerLog(setup, pkts, n), pkts[n]))
  {
    BurstPasses(g, pkts, wire, src, t, ts, n);
    ServerPasses(setup, pkts, n);
  }

  /** Without an HMAC key one captured message passes the replay gate once for each of its variants within one tick,
      as long as their digests differ: every packet is read as the same message by the same stanza. Variants up to
      the buffer's size arrive as they were sent. */
  lemma KeylessReplays(setup: Setup, wire: Text, src: IP, i: nat, t: int, n: nat) returns (pkts: seq<Packet>)
    requires setup.c.Valid() && FirstAccepting(setup.c, setup.stanzas, wire, src, i) && setup.stanzas[i].hmacKey == []
    requires AgeAccepted(setup, StanzaDecrypt(setup.c, setup.stanzas[i], wire).value.timestamp, t)
    requires forall j: nat, k: nat :: j < k < n ==>
      WireDigest(setup.c, Variant(wire, j)) != WireDigest(setup.c, Variant(wire, k))
    ensures pkts == Burst(wire, src, t, n) && Clocked(pkts)
    ensures |wire| + 4 * (n - 1) <= WireLength.BUFFER_SIZE ==>
      forall k :: 0 <= k < n ==> WireLength.Received(pkts[k].wire) == pkts[k].wire
    ensures forall k :: 0 <= k < n ==>
      VariantRead(setup, wire, src, i, k) && PassesReplay(Process(setup, ServerLog(setup, pkts, k), pkts[k]))
  {
    pkts := Burst(wire, src, t, n);
    var g, ts := GateOf(setup), StanzaDecrypt(setup.c, setup.stanzas[i], wire).value.timestamp;
    if |wire| + 4 * (n - 1) <= WireLength.BUFFER_SIZE {
      BurstArrives(wire, src, t, n);
    }
    forall k: nat | k < n
      ensures VariantRead(setup, wire, src, i, k) && ReadBy(g, setup.c, Variant(wire, k), src, ts)
    {
      VariantFirstAccepted(setup.c, setup.stanzas, wire, src, i, k);
      VariantDated(setup, g, wire, src, i, k);
    }
    forall k | 0 <= k < n ensures PassesReplay(Process(setup, ServerLog(setup, pkts, k), pkts[k])) {
      BurstServed(setup, g, pkts, wire, src, t, ts, k);
    }
  }

  // ---------- one keyless stanza undoes the others' keys ----------

  /** A stanza without an HMAC key reads the text that a keyed stanza with its encryption key and mode authenticates
      as the same message. */
  lemma StrippedReadsAlike(c: Primitives, a: Stanza, b: Stanza, wire: Text, text: Text)
    requires c.Valid() && b.hmacKey == [] && a.encKey == b.encKey && a.encMode == b.encMode
    requires AuthenticatedText(c, a, wire) == Ok(text)
    ensures StanzaDecrypt(c, b, text) == StanzaDecrypt(c, a, wire)
  {
    OptionsConfig(a);
    OptionsConfig(b);
  }

  lemma DifferentDigestsPass(g: Gate, pkts: seq<Packet>, ts: int)
    requires |pkts| == 2 && g.digest(pkts[0].wire) != g.digest(pkts[1].wire)
    requires g.dated(pkts[0].wire, pkts[0].src) == Some(ts) && YoungEnough(g, ts, pkts[0].ageNow)
    requires g.dated(pkts[1].wire, pkts[1].src) == Some(ts) && YoungEnough(g, ts, pkts[1].ageNow)
    ensures Passes(g, pkts, 0) && Passes(g, pkts, 1)
  {
    LogAtNext(g, pkts, 0);
    assert LogAt(g, pkts, 0) == [];
  }

  /** Two packets with one date and different digests both pass the server's replay gate. */
  lemma BothPass(setup: Setup, pkts: seq<Packet>, ts: int)
    requires setup.c.Valid() && |pkts| == 2
    requires GateOf(setup).dated(pkts[0].wire, pkts[0].src) == Some(ts) && AgeAccepted(setup, ts, pkts[0].ageNow)
    requires GateOf(setup).dated(pkts[1].wire, pkts[1].src) == Some(ts) && AgeAccepted(setup, ts, pkts[1].ageNow)
    requires WireDigest(setup.c, pkts[0].wire) != WireDigest(setup.c, pkts[1].wire)
    ensures PassesReplay(Process(setup, ServerLog(setup, pkts, 0), pkts[0]))
    ensures PassesReplay(Process(setup, ServerLog(setup, pkts, 1), pkts[1]))
  {
    DifferentDigestsPass(GateOf(setup), pkts, ts);
    ServerPasses(setup, pkts, 0);
    ServerPasses(setup, pkts, 1);
  }

  function SameTick(v: Text, w: Text, src: IP, t: int): (pkts: seq<Packet>)
    ensures Clocked(pkts)
  {
    [Packet(v, src, t, t, t), Packet(w, src, t, t, t)]
  }

  lemma BothRead(setup: Setup, v: Text, w: Text, src: IP, a: nat, b: nat, t: int, ts: int)
    requires setup.c.Valid() && AgeAccepted(setup, ts, t) && WireDigest(setup.c, v) != WireDigest(setup.c, w)
    requires FirstAccepting(setup.c, setup.stanzas, v, src, a) && FirstAccepting(setup.c, setup.stanzas, w, src, b)
    requires StanzaDecrypt(setup.c, setup.stanzas[a], v).value.timestamp == ts
    requires StanzaDecrypt(setup.c, setup.stanzas[b], w).value.timestamp == ts
    ensures var pkts := SameTick(v, w, src, t);
      && PassesReplay(Process(setup, ServerLog(setup, pkts, 0), pkts[0]))
      && PassesReplay(Process(setup, ServerLog(setup, pkts, 1), pkts[1]))
  {
    DatedByFirstAccepting(setup, v, src, a);
    DatedByFirstAccepting(setup, w, src, b);
    BothPass(setup, SameTick(v, w, src, t), ts);
  }

  lemma StrippedFirstAccepted(c: Primitives, stanzas: seq<Stanza>, wire: Text, text: Text, src: IP, a: nat, b: nat)
    requires c.Valid() && FirstAccepting(c, stanzas, wire, src, a) && AuthenticatedText(c, stanzas[a], wire) == Ok(text)
    requires b < |stanzas| && stanzas[b].hmacKey == [] && MatchesSource(stanzas[b].sourceNets, src)
    requires stanzas[a].encKey == stanzas[b].encKey && stanzas[a].encMode == stanzas[b].encMode
    requires forall k :: 0 <= k < b ==> !Accepts(c, stanzas[k], text, src)
    ensures FirstAccepting(c, stanzas, text, src, b)
    ensures StanzaDecrypt(c, stanzas[b], text) == StanzaDecrypt(c, stanzas[a], wire)
  {
    StrippedReadsAlike(c, stanzas[a], stanzas[b], wire, text);
  }

  /** So a captured packet passes the replay gate again within the same tick once its HMAC is cut off, when the first
      stanza to take what is left has no HMAC key but the same encryption key and mode. */
  lemma StrippedPassesAgain(setup: Setup, wire: Text, text: Text, src: IP, a: nat, b: nat, t: int)
    returns (pkts: seq<Packet>)
    requires setup.c.Valid() && FirstAccepting(setup.c, setup.stanzas, wire, src, a) && setup.stanzas[a].hmacKey != []
    requires AuthenticatedText(setup.c, setup.stanzas[a], wire) == Ok(text)
    requires b < |setup.stanzas| && setup.stanzas[b].hmacKey == [] && MatchesSource(setup.stanzas[b].sourceNets, src)
    requires setup.stanzas[a].encKey == setup.stanzas[b].encKey && setup.stanzas[a].encMode == setup.stanzas[b].encMode
    requires forall k :: 0 <= k < b ==> !Accepts(setup.c, setup.stanzas[k], text, src)
    requires AgeAccepted(setup, StanzaDecrypt(setup.c, setup.stanzas[a], wire).value.timestamp, t)
    requires WireDigest(setup.c, wire) != WireDigest(setup.c, text)
    ensures pkts == SameTick(wire, text, src, t) && |text| < |wire|
    ensures FirstAccepting(setup.c, setup.stanzas, text, src, b)
    ensures StanzaDecrypt(setup.c, setup.stanzas[b], text) == StanzaDecrypt(setup.c, setup.stanzas[a], wire)
    ensures PassesReplay(Process(setup, ServerLog(setup, pkts, 0), pkts[0]))
    ensures PassesReplay(Process(setup, ServerLog(setup, pkts, 1), pkts[1]))
  {
    StrippedFirstAccepted(setup.c, setup.stanzas, wire, text, src, a, b);
    StrippedIsShorter(setup.c, setup.stanzas[a], wire, text);
    pkts := SameTick(wire, text, src, t);
    BothRead(setup, wire, text, src, a, b, t, StanzaDecrypt(setup.c, setup.stanzas[a], wire).value.timestamp);
  }

  lemma StrippedIsShorter(c: Primitives, s: Stanza, wire: Text, text: Text)
    requires c.Valid() && s.hmacKey != [] && AuthenticatedText(c, s, wire) == Ok(text)
    ensures |text| < |wire|
  {
    var t := ApplyOptions(Options(s)).hmacType;
    RoundTrip.AuthenticatedExactlyWhen(c, wire, s.hmacKey, t, text);
    LengthTables(c, t, B64.B64_SALT_PREFIX + text, s.hmacKey);
  }
}
