/** A client's request followed from the message it was made of to the rule the server opens for it. */
module EndToEnd {
  import opened Bytes
  import opened Crypto
  import opened AesCbc
  import opened Message
  import opened SpaEncode
  import opened SpaDecode
  import opened RoundTrip
  import WireLength
  import opened Access
  import opened Replay
  import opened Server

  /** A stanza with the client's keys and settings. */
  predicate Configured(s: Stanza, m: Message, encKey: Text, hmacKey: Text) {
    && s.encKey == encKey && s.hmacKey == hmacKey && s.encMode == m.encryptionMode
    && (hmacKey != [] ==> s.hmacType == m.hmacType)
  }

  /** Without an HMAC key the HMAC type is not looked at. */
  lemma HMACTypeUnused(c: Primitives, wire: Text, encKey: Text, mode: int, a: int, b: int)
    requires c.Valid()
    ensures DecryptWire(c, wire, encKey, [], DecryptConfig(mode, a))
         == DecryptWire(c, wire, encKey, [], DecryptConfig(mode, b))
  {}

  lemma ConfiguredDecrypt(c: Primitives, s: Stanza, m: Message, encKey: Text, hmacKey: Text, wire: Text)
    requires c.Valid() && Configured(s, m, encKey, hmacKey)
    ensures StanzaDecrypt(c, s, wire)
         == DecryptWire(c, wire, encKey, hmacKey, DecryptConfig(m.encryptionMode, m.hmacType))
  {
    OptionsConfig(s);
    if hmacKey == [] {
      HMACTypeUnused(c, wire, encKey, m.encryptionMode, SHA256, m.hmacType);
    }
  }

  /** A stanza configured like the client recovers the message, up to normalisation, exactly when it is faithful. */
  lemma ConfiguredStanzaReads(c: Primitives, p: Platform, s: Stanza, m: Message, encKey: Text, hmacKey: Text, salt: Text)
    requires c.Valid() && |salt| == SALT_LEN
    requires Wire(c, p, m, encKey, hmacKey, salt).Ok? && Configured(s, m, encKey, hmacKey)
    ensures StanzaDecrypt(c, s, Wire(c, p, m, encKey, hmacKey, salt).value) == Ok(Normal(m)) <==> Faithful(m)
  {
    ConfiguredDecrypt(c, s, m, encKey, hmacKey, Wire(c, p, m, encKey, hmacKey, salt).value);
    WireRoundTrip(c, p, m, encKey, hmacKey, salt);
  }

  /** The datagram the client sends, as the server receives it. */
  ghost predicate Sent(setup: Setup, m: Message, encKey: Text, hmacKey: Text, salt: Text, pkt: Packet)
    requires setup.c.Valid() && |salt| == SALT_LEN
  {
    var wire := Wire(setup.c, setup.p, m, encKey, hmacKey, salt);
    wire.Ok? && |wire.value| <= WireLength.BUFFER_SIZE && pkt.wire == WireLength.Received(wire.value)
  }

  /** Stanza `i` is the client's, admits the packet's source, and no earlier stanza takes the packet. */
  ghost predicate Addressed(setup: Setup, i: nat, m: Message, encKey: Text, hmacKey: Text, pkt: Packet)
    requires setup.c.Valid()
  {
    && i < |setup.stanzas| && Configured(setup.stanzas[i], m, encKey, hmacKey)
    && MatchesSource(setup.stanzas[i].sourceNets, pkt.src)
    && forall k :: 0 <= k < i ==> !Accepts(setup.c, setup.stanzas[k], pkt.wire, pkt.src)
  }

  /** From the client's message to the server's decision: the rule is opened exactly when the message the client
      meant, normalised, clears the gates of the client's stanza. */
  lemma RequestHonoured(setup: Setup, i: nat, m: Message, encKey: Text, hmacKey: Text, salt: Text,
                        log: Log, pkt: Packet, ctx: Context)
    requires setup.c.Valid() && setup.p.Valid() && |salt| == SALT_LEN
    requires Sent(setup, m, encKey, hmacKey, salt, pkt) && Faithful(m)
    requires Addressed(setup, i, m, encKey, hmacKey, pkt)
    ensures Process(setup, log, pkt) == OpensRule(i, ctx)
       <==> Cleared(setup, setup.stanzas[i], Normal(m), log, pkt, ctx)
  {
    ConfiguredStanzaReads(setup.c, setup.p, setup.stanzas[i], m, encKey, hmacKey, salt);
    OpensExactlyWhen(setup, log, pkt, i, ctx);
  }

  /** When a request is too old: the age of the second it was made in is checked, so for the client's own date the limit
      is exact up to a second. */
  lemma FreshExactlyWhen(setup: Setup, i: nat, m: Message, encKey: Text, hmacKey: Text, salt: Text,
                         log: Log, pkt: Packet)
    requires setup.c.Valid() && |salt| == SALT_LEN
    requires Sent(setup, m, encKey, hmacKey, salt, pkt) && Faithful(m)
    requires Addressed(setup, i, m, encKey, hmacKey, pkt)
    ensures var age, limit := pkt.ageNow - m.timestamp, setup.maxAgeSeconds * 1_000_000_000;
      && (Process(setup, log, pkt).TooOld?
          <==> setup.maxAgeSeconds > 0 && age + m.timestamp % 1_000_000_000 > limit)
      && (age <= limit - 1_000_000_000 ==> !Process(setup, log, pkt).TooOld?)
      && (setup.maxAgeSeconds > 0 && age > limit ==> Process(setup, log, pkt).TooOld?)
  {
    ConfiguredStanzaReads(setup.c, setup.p, setup.stanzas[i], m, encKey, hmacKey, salt);
    ProcessAt(setup, log, pkt, i);
    JudgeTooOldWhen(setup, setup.stanzas[i], i, Normal(m), log, pkt);
    SecondsOnly(m);
  }

  lemma SecondsOnly(m: Message)
    ensures Normal(m).timestamp == m.timestamp - m.timestamp % 1_000_000_000
  {}

  /** What a rule's context is made of survives normalisation. */
  lemma NormalKeepsContext(m: Message)
    requires EffectiveType(m) != COMMAND
    ensures var n := Normal(m);
      && n.accessMsg == m.accessMsg && n.username == m.username && n.natAccess == m.natAccess
      && Unix(n.timestamp) == Unix(m.timestamp) && n.clientTimeout == m.clientTimeout
  {}

  lemma SameContext(p: Platform, m: Message, n: Message, srcIP: Text, s: Stanza)
    requires n.accessMsg == m.accessMsg && n.username == m.username && n.natAccess == m.natAccess
    requires Unix(n.timestamp) == Unix(m.timestamp) && n.clientTimeout == m.clientTimeout
    ensures BuildContext(p, n, srcIP, s) == BuildContext(p, m, srcIP, s)
  {}

  lemma ValidatedAccess(p: Platform, m: Message)
    requires Validate(p, m) == None && m.messageType != COMMAND
    ensures ValidAccessMsg(p, m.accessMsg) == None
  {}

  lemma AcceptedContext(p: Platform, m: Message, srcIP: Text, s: Stanza, ctx: Context) returns (ip: Text)
    requires ValidAccessMsg(p, m.accessMsg) == None && ctx == BuildContext(p, m, srcIP, s)
    ensures AccessMessageOf(p, m.accessMsg, ip, ctx.proto, ctx.port)
    ensures ctx.sourceIP == if p.parseIP(ip) == Some(V4(0)) || p.parseIP(ip) == Some(V6(0)) then srcIP else ip
    ensures ctx.username == m.username && ctx.accessMsg == m.accessMsg && ctx.natAccess == m.natAccess
    ensures ctx.timestamp * 1_000_000_000 <= m.timestamp < (ctx.timestamp + 1) * 1_000_000_000
    ensures ctx.timeout == if m.clientTimeout == 0 then s.accessTimeout
                           else if 0 < s.maxAccessTimeout < m.clientTimeout then s.maxAccessTimeout
                           else m.clientTimeout
  {
    ip := ParseAccessMsg(m.accessMsg).0;
    AcceptedMessagesSplit(p, m.accessMsg);
  }

  lemma ClearedContext(setup: Setup, s: Stanza, m: Message, log: Log, pkt: Packet, ctx: Context)
    requires Cleared(setup, s, m, log, pkt, ctx)
    ensures m.messageType != COMMAND && ctx == BuildContext(setup.p, m, setup.p.showIP(pkt.src), s)
  {}

  /** The rule's context is the one the client's own message would give. */
  lemma ClearedAsWritten(setup: Setup, s: Stanza, m: Message, log: Log, pkt: Packet, ctx: Context)
    requires Cleared(setup, s, Normal(m), log, pkt, ctx)
    ensures m.messageType != COMMAND && ctx == BuildContext(setup.p, m, setup.p.showIP(pkt.src), s)
  {
    ClearedContext(setup, s, Normal(m), log, pkt, ctx);
    EffectiveTypeStable(m);
    NormalKeepsContext(m);
    SameContext(setup.p, m, Normal(m), setup.p.showIP(pkt.src), s);
  }

  /** The rule is the one the client wrote: its protocol and port, and its address unless that is unspecified. */
  lemma HonouredRule(setup: Setup, i: nat, m: Message, log: Log, pkt: Packet, ctx: Context) returns (ip: Text)
    requires setup.p.Valid() && Validate(setup.p, m) == None
    requires i < |setup.stanzas| && Cleared(setup, setup.stanzas[i], Normal(m), log, pkt, ctx)
    ensures AccessMessageOf(setup.p, m.accessMsg, ip, ctx.proto, ctx.port)
    ensures ctx.sourceIP
         == if setup.p.parseIP(ip) == Some(V4(0)) || setup.p.parseIP(ip) == Some(V6(0)) then setup.p.showIP(pkt.src)
            else ip
    ensures ctx.username == m.username && ctx.accessMsg == m.accessMsg && ctx.natAccess == m.natAccess
    ensures ctx.timestamp * 1_000_000_000 <= m.timestamp < (ctx.timestamp + 1) * 1_000_000_000
    ensures var s := setup.stanzas[i];
      ctx.timeout == if m.clientTimeout == 0 then s.accessTimeout
                     else if 0 < s.maxAccessTimeout < m.clientTimeout then s.maxAccessTimeout
                     else m.clientTimeout
  {
    ClearedAsWritten(setup, setup.stanzas[i], m, log, pkt, ctx);
    ValidatedAccess(setup.p, m);
    ip := AcceptedContext(setup.p, m, setup.p.showIP(pkt.src), setup.stanzas[i], ctx);
  }

  // ---------- a request that opens its rule ----------

  /** What a client and its stanza have to agree on, and what the server's other gates ask for. */
  ghost predicate Honest(setup: Setup, i: nat, m: Message, encKey: Text, hmacKey: Text, log: Log, pkt: Packet) {
    && m.messageType != 0 && m.serverAuth == [] && (m.natAccess == [] || m.messageType in {2, 4, 5, 6})
    && i < |setup.stanzas| && !setup.test
    && (var s := setup.stanzas[i];
        && s.encKey == encKey && s.hmacKey == hmacKey && s.encMode == m.encryptionMode && s.hmacType == m.hmacType
        && (s.requireUsername == [] || s.requireUsername == m.username) && !s.requireSourceAddr && s.openPorts == []
        && exists n :: 0 <= n < |s.sourceNets| && InRange(s.sourceNets[n], pkt.src))
    && (forall k :: 0 <= k < i ==> !MatchesSource(setup.stanzas[k].sourceNets, pkt.src))
    && (setup.maxAgeSeconds > 0 ==>
          pkt.ageNow - m.timestamp <= setup.maxAgeSeconds * 1_000_000_000 - 1_000_000_000)
    && (forall k :: 0 <= k < |log| && log[k].0 == WireDigest(setup.c, pkt.wire) ==>
          pkt.dupNow - log[k].1 > setup.maxAgeSeconds * 1_000_000_000)
  }

  lemma NoEarlierAccepts(setup: Setup, i: nat, pkt: Packet)
    requires setup.c.Valid() && i <= |setup.stanzas|
    requires forall k :: 0 <= k < i ==> !MatchesSource(setup.stanzas[k].sourceNets, pkt.src)
    ensures forall k :: 0 <= k < i ==> !Accepts(setup.c, setup.stanzas[k], pkt.wire, pkt.src)
  {}

  lemma HonestAddressed(setup: Setup, i: nat, m: Message, encKey: Text, hmacKey: Text, log: Log, pkt: Packet)
    requires setup.c.Valid() && Honest(setup, i, m, encKey, hmacKey, log, pkt)
    ensures Addressed(setup, i, m, encKey, hmacKey, pkt)
  {
    NoEarlierAccepts(setup, i, pkt);
    MatchesExactlyWhen(setup.stanzas[i].sourceNets, pkt.src);
  }

  lemma AccessRequestSent(setup: Setup, m: Message, encKey: Text, hmacKey: Text, salt: Text, pkt: Packet)
    requires setup.c.Valid() && |salt| == SALT_LEN
    requires m.messageType != 0 && m.serverAuth == [] && (m.natAccess == [] || m.messageType in {2, 4, 5, 6})
    requires Wire(setup.c, setup.p, m, encKey, hmacKey, salt) == Ok(pkt.wire)
    ensures Sent(setup, m, encKey, hmacKey, salt, pkt) && Faithful(m)
  {
    TypesByNumber(m);
    WireLength.AccessRequestsFit(setup.c, setup.p, m, encKey, hmacKey, salt);
  }

  lemma HonestCleared(setup: Setup, i: nat, m: Message, encKey: Text, hmacKey: Text, log: Log, pkt: Packet, ctx: Context)
    requires Honest(setup, i, m, encKey, hmacKey, log, pkt)
    requires ctx == BuildContext(setup.p, Normal(m), setup.p.showIP(pkt.src), setup.stanzas[i])
    ensures Cleared(setup, setup.stanzas[i], Normal(m), log, pkt, ctx)
  {
    TypesByNumber(m);
    SecondsOnly(m);
  }

  /** A request that is fresh, new and meant for its stanza opens its rule: whatever the message, the keys, the salt,
      the mode and the algorithms, as long as the client can encrypt it. */
  lemma HonestRequestOpens(setup: Setup, i: nat, m: Message, encKey: Text, hmacKey: Text, salt: Text,
                           log: Log, pkt: Packet) returns (ctx: Context, ip: Text)
    requires setup.c.Valid() && setup.p.Valid() && |salt| == SALT_LEN
    requires Wire(setup.c, setup.p, m, encKey, hmacKey, salt) == Ok(pkt.wire)
    requires Honest(setup, i, m, encKey, hmacKey, log, pkt)
    ensures Process(setup, log, pkt) == OpensRule(i, ctx)
    ensures AccessMessageOf(setup.p, m.accessMsg, ip, ctx.proto, ctx.port)
    ensures ctx.sourceIP == ip || (ctx.sourceIP == setup.p.showIP(pkt.src) && setup.p.parseIP(ip).value.bits == 0)
  {
    ctx := BuildContext(setup.p, Normal(m), setup.p.showIP(pkt.src), setup.stanzas[i]);
    AccessRequestSent(setup, m, encKey, hmacKey, salt, pkt);
    HonestAddressed(setup, i, m, encKey, hmacKey, log, pkt);
    HonestCleared(setup, i, m, encKey, hmacKey, log, pkt, ctx);
    RequestHonoured(setup, i, m, encKey, hmacKey, salt, log, pkt, ctx);
    PlaintextShape(setup.c, setup.p, m);
    ip := HonouredRule(setup, i, m, log, pkt, ctx);
  }
}
