/** One packet through the server: the stanza loop, its gates in order, and the action it ends in. */
module Server {
  import B64 = Base64
  import opened Bytes
  import opened Crypto
  import opened Message
  import opened SpaDecode
  import opened Access
  import opened Replay
  import opened Actions

  /** What is fixed while the server runs. Ages are in nanoseconds, the setting in seconds. */
  datatype Setup = Setup(c: Primitives, p: Platform, stanzas: seq<Stanza>, maxAgeSeconds: int, test: bool) {
    function MaxAge(): int { maxAgeSeconds * NANOS }
  }

  /** A packet and the three clock readings made for it: age check, replay lookup, replay insertion. */
  datatype Packet = Packet(wire: Text, src: IP, ageNow: int, dupNow: int, addNow: int)

  predicate Ordered(pkt: Packet) { pkt.ageNow <= pkt.dupNow <= pkt.addNow }

  datatype Outcome =
    | NoStanza
    | TooOld(stanza: nat)
    | Replayed(stanza: nat)
    | WrongUser(stanza: nat)
    | WrongSource(stanza: nat)
    | TestMode(stanza: nat)
    | CommandRefused(stanza: nat)
    | RunsCommand(stanza: nat, command: Text, user: Text)
    | PortRefused(stanza: nat)
    | OpensRule(stanza: nat, ctx: Context)

  /** The decrypt options the server builds for a stanza. */
  function Options(s: Stanza): seq<DecryptOption> {
    [WithMode(s.encMode)] + (if s.hmacKey != [] then [WithHMACType(s.hmacType)] else [])
  }

  /** They select the stanza's mode, and its HMAC type where it has an HMAC key. */
  lemma OptionsConfig(s: Stanza)
    ensures ApplyOptions(Options(s)) == DecryptConfig(s.encMode, if s.hmacKey != [] then s.hmacType else SHA256)
  {
    var mode := [WithMode(s.encMode)];
    assert mode[..0] == [];
    assert ApplyOptions(mode) == DecryptConfig(s.encMode, SHA256);
    if s.hmacKey != [] {
      var opts := mode + [WithHMACType(s.hmacType)];
      assert opts[..1] == mode;
    } else {
      assert mode + [] == mode;
    }
  }

  function StanzaDecrypt(c: Primitives, s: Stanza, wire: Text): Result<Message>
    requires c.Valid()
  {
    DecryptWire(c, wire, s.encKey, s.hmacKey, ApplyOptions(Options(s)))
  }

  predicate Accepts(c: Primitives, s: Stanza, wire: Text, src: IP)
    requires c.Valid()
  {
    MatchesSource(s.sourceNets, src) && StanzaDecrypt(c, s, wire).Ok?
  }

  /** `i` is the first stanza that both matches the source and decrypts the packet. */
  ghost predicate FirstAccepting(c: Primitives, stanzas: seq<Stanza>, wire: Text, src: IP, i: nat)
    requires c.Valid()
  {
    && i < |stanzas| && Accepts(c, stanzas[i], wire, src)
    && forall k :: 0 <= k < i ==> !Accepts(c, stanzas[k], wire, src)
  }

  function WireDigest(c: Primitives, wire: Text): Text {
    B64.Encode(c.hash(SHA256, wire))
  }

  /** Two packets count as one exactly when their SHA-256 hashes agree. */
  lemma DigestsEqualExactlyWhen(c: Primitives, v: Text, w: Text)
    ensures WireDigest(c, v) == WireDigest(c, w) <==> c.hash(3, v) == c.hash(3, w)
  {
    if WireDigest(c, v) == WireDigest(c, w) {
      B64.Injective(c.hash(3, v), c.hash(3, w));
    }
  }

  predicate AgeAccepted(setup: Setup, timestamp: int, now: int) {
    setup.maxAgeSeconds <= 0 || now - timestamp <= setup.MaxAge()
  }

  predicate SourceAccepted(p: Platform, s: Stanza, m: Message, src: IP) {
    s.requireSourceAddr ==> m.accessMsg != [] && ContainsIP(p, m.accessMsg, p.showIP(src))
  }

  /** dispatchAction. */
  function Dispatch(p: Platform, s: Stanza, i: nat, m: Message, src: IP): Outcome {
    if m.messageType == COMMAND then
      if s.enableCmdExec then RunsCommand(i, m.accessMsg, s.cmdExecUser) else CommandRefused(i)
    else
      var ctx := BuildContext(p, m, p.showIP(src), s);
      if AllowsPort(p, s.openPorts, ctx.proto, ctx.port) then OpensRule(i, ctx) else PortRefused(i)
  }

  /** The gates after the replay check. */
  function Authorize(setup: Setup, s: Stanza, i: nat, m: Message, src: IP): Outcome {
    if s.requireUsername != [] && m.username != s.requireUsername then WrongUser(i)
    else if !SourceAccepted(setup.p, s, m, src) then WrongSource(i)
    else if setup.test then TestMode(i)
    else Dispatch(setup.p, s, i, m, src)
  }

  /** Everything after a stanza has decrypted the packet. */
  function Judge(setup: Setup, s: Stanza, i: nat, m: Message, log: Log, pkt: Packet): Outcome {
    if !AgeAccepted(setup, m.timestamp, pkt.ageNow) then TooOld(i)
    else if Seen(log, WireDigest(setup.c, pkt.wire), pkt.dupNow, setup.MaxAge()) then Replayed(i)
    else Authorize(setup, s, i, m, pkt.src)
  }

  function Verdicts(setup: Setup, wire: Text, src: IP): (v: seq<bool>)
    requires setup.c.Valid()
    ensures |v| == |setup.stanzas|
    ensures forall k :: 0 <= k < |v| ==> v[k] == Accepts(setup.c, setup.stanzas[k], wire, src)
  {
    seq(|setup.stanzas|, k requires 0 <= k < |setup.stanzas| => Accepts(setup.c, setup.stanzas[k], wire, src))
  }

  predicate NoneBefore(v: seq<bool>, n: nat) {
    n <= |v| && forall k :: 0 <= k < n ==> !v[k]
  }

  lemma OneMore(v: seq<bool>, n: nat)
    requires NoneBefore(v, n) && n < |v| && !v[n]
    ensures NoneBefore(v, n + 1)
  {}

  /** The first true position, or the length. */
  function FirstTrue(v: seq<bool>): (i: nat)
    ensures i <= |v| && (i < |v| ==> v[i]) && forall k :: 0 <= k < i ==> !v[k]
  {
    if v == [] || v[0] then 0 else 1 + FirstTrue(v[1..])
  }

  /** processSPAPacket against the replay history. */
  function Process(setup: Setup, log: Log, pkt: Packet): Outcome
    requires setup.c.Valid()
  {
    var i := FirstTrue(Verdicts(setup, pkt.wire, pkt.src));
    if i == |setup.stanzas| then NoStanza
    else
      var s := setup.stanzas[i];
      Judge(setup, s, i, StanzaDecrypt(setup.c, s, pkt.wire).value, log, pkt)
  }

  predicate PassesReplay(o: Outcome) { !o.NoStanza? && !o.TooOld? && !o.Replayed? }

  /** Past the replay gate the packet is recorded, whatever the later gates say. */
  function Recorded(setup: Setup, log: Log, pkt: Packet): Log
    requires setup.c.Valid()
  {
    if PassesReplay(Process(setup, log, pkt)) then log + [(WireDigest(setup.c, pkt.wire), pkt.addNow)] else log
  }

  // ---------- the first accepting stanza decides ----------

  lemma FirstUnique(setup: Setup, wire: Text, src: IP, i: nat)
    requires setup.c.Valid()
    ensures FirstAccepting(setup.c, setup.stanzas, wire, src, i)
      <==> i < |setup.stanzas| && i == FirstTrue(Verdicts(setup, wire, src))
  {
    var v := Verdicts(setup, wire, src);
    var first := FirstTrue(v);
    if i < |v| && v[i] && forall k :: 0 <= k < i ==> !v[k] {
      assert !(first < i) && !(i < first);
    }
  }

  lemma ProcessAt(setup: Setup, log: Log, pkt: Packet, i: nat)
    requires setup.c.Valid() && FirstAccepting(setup.c, setup.stanzas, pkt.wire, pkt.src, i)
    ensures var s := setup.stanzas[i];
      Process(setup, log, pkt) == Judge(setup, s, i, StanzaDecrypt(setup.c, s, pkt.wire).value, log, pkt)
  {
    FirstUnique(setup, pkt.wire, pkt.src, i);
  }

  lemma ProcessFirst(setup: Setup, log: Log, pkt: Packet, i: nat)
    requires setup.c.Valid() && i < |setup.stanzas|
    requires var v := Verdicts(setup, pkt.wire, pkt.src); v[i] && NoneBefore(v, i)
    ensures var s := setup.stanzas[i];
      Process(setup, log, pkt) == Judge(setup, s, i, StanzaDecrypt(setup.c, s, pkt.wire).value, log, pkt)
  {
    ProcessAt(setup, log, pkt, i);
  }

  lemma ProcessNone(setup: Setup, log: Log, pkt: Packet)
    requires setup.c.Valid()
    requires NoneBefore(Verdicts(setup, pkt.wire, pkt.src), |setup.stanzas|)
    ensures Process(setup, log, pkt) == NoStanza
  {
    FirstUnique(setup, pkt.wire, pkt.src, FirstTrue(Verdicts(setup, pkt.wire, pkt.src)));
  }

  lemma JudgeNotNoStanza(setup: Setup, s: Stanza, i: nat, m: Message, log: Log, pkt: Packet)
    ensures Judge(setup, s, i, m, log, pkt) != NoStanza
  {}

  lemma NoneAccepts(setup: Setup, log: Log, pkt: Packet)
    requires setup.c.Valid()
    ensures Process(setup, log, pkt) == NoStanza
       <==> forall k :: 0 <= k < |setup.stanzas| ==> !Accepts(setup.c, setup.stanzas[k], pkt.wire, pkt.src)
  {
    var first := FirstTrue(Verdicts(setup, pkt.wire, pkt.src));
    if first < |setup.stanzas| {
      var m := StanzaDecrypt(setup.c, setup.stanzas[first], pkt.wire).value;
      JudgeNotNoStanza(setup, setup.stanzas[first], first, m, log, pkt);
      assert Accepts(setup.c, setup.stanzas[first], pkt.wire, pkt.src);
    }
  }

  lemma PassedOver(c: Primitives, s: Stanza, wire: Text, src: IP)
    requires c.Valid()
    ensures !Accepts(c, s, wire, src)
       <==> (forall i :: 0 <= i < |s.sourceNets| ==> !InRange(s.sourceNets[i], src)) || StanzaDecrypt(c, s, wire).Err?
  {
    MatchesExactlyWhen(s.sourceNets, src);
  }

  /** Nothing happens to a packet exactly when each stanza's networks lie elsewhere or its keys do not decrypt it. */
  lemma NoStanzaExactlyWhen(setup: Setup, log: Log, pkt: Packet)
    requires setup.c.Valid()
    ensures Process(setup, log, pkt) == NoStanza
       <==> forall k :: 0 <= k < |setup.stanzas| ==>
              || (forall n :: 0 <= n < |setup.stanzas[k].sourceNets| ==>
                    !InRange(setup.stanzas[k].sourceNets[n], pkt.src))
              || StanzaDecrypt(setup.c, setup.stanzas[k], pkt.wire).Err?
  {
    NoneAccepts(setup, log, pkt);
    forall k | 0 <= k < |setup.stanzas|
      ensures !Accepts(setup.c, setup.stanzas[k], pkt.wire, pkt.src) <==>
        || (forall n :: 0 <= n < |setup.stanzas[k].sourceNets| ==>
              !InRange(setup.stanzas[k].sourceNets[n], pkt.src))
        || StanzaDecrypt(setup.c, setup.stanzas[k], pkt.wire).Err?
    {
      PassedOver(setup.c, setup.stanzas[k], pkt.wire, pkt.src);
    }
  }

  /** Stanzas behind the first accepting one are never consulted. */
  lemma LaterStanzasIrrelevant(setup: Setup, log: Log, pkt: Packet, i: nat, others: seq<Stanza>)
    requires setup.c.Valid() && FirstAccepting(setup.c, setup.stanzas, pkt.wire, pkt.src, i)
    ensures Process(setup.(stanzas := setup.stanzas[..i + 1] + others), log, pkt) == Process(setup, log, pkt)
  {
    var cut := setup.(stanzas := setup.stanzas[..i + 1] + others);
    assert forall k :: 0 <= k <= i ==> cut.stanzas[k] == setup.stanzas[k];
    assert FirstAccepting(cut.c, cut.stanzas, pkt.wire, pkt.src, i);
    ProcessAt(setup, log, pkt, i);
    ProcessAt(cut, log, pkt, i);
    SameJudgement(setup, cut, setup.stanzas[i], i, StanzaDecrypt(setup.c, setup.stanzas[i], pkt.wire).value, log, pkt);
  }

  /** Judging a message uses everything of the setup but the other stanzas. */
  lemma SameJudgement(a: Setup, b: Setup, s: Stanza, i: nat, m: Message, log: Log, pkt: Packet)
    requires b == a.(stanzas := b.stanzas)
    ensures Judge(a, s, i, m, log, pkt) == Judge(b, s, i, m, log, pkt)
  {}

  // ---------- the imperative loop ----------

  /** The decision part of processSPAPacket, with its effects on the replay cache. */
  method ProcessSPAPacket(setup: Setup, replay: ReplayCache, am: ActionsManager, pkt: Packet, exists_: bool, ok: bool)
    returns (o: Outcome)
    requires setup.c.Valid()
    requires replay.Valid() && replay.ttl == setup.MaxAge() && replay.clock <= pkt.ageNow && Ordered(pkt)
    requires am.Valid()
    modifies replay, am
    ensures o == Process(setup, old(replay.log), pkt)
    ensures replay.Valid() && replay.clock <= pkt.addNow
    ensures replay.log == Recorded(setup, old(replay.log), pkt)
    ensures am.Valid()
    ensures am.Abs() == if o.OpensRule? then OpenRuleEffect(am.pol, old(am.Abs()), o.ctx, exists_, ok) else old(am.Abs())
  {
    o := DecidePacket(setup, replay, pkt);
    if o.OpensRule? {
      var _ := am.OpenRule(o.ctx, exists_, ok);
    }
  }

  /** The head of the loop: source match, options, decryption. */
  method TryStanza(setup: Setup, i: nat, wire: Text, src: IP) returns (r: Result<Message>)
    requires setup.c.Valid() && i < |setup.stanzas|
    ensures r.Ok? <==> Verdicts(setup, wire, src)[i]
    ensures r.Ok? ==> r == StanzaDecrypt(setup.c, setup.stanzas[i], wire)
  {
    var stanza := setup.stanzas[i];
    var matched := MatchSource(stanza.sourceNets, src);
    if !matched {
      return Err(InvalidData);
    }
    var opts := [WithMode(stanza.encMode)];
    if |stanza.hmacKey| > 0 {
      opts := opts + [WithHMACType(stanza.hmacType)];
    }
    assert opts == Options(stanza);
    r := Decrypt(setup.c, wire, stanza.encKey, stanza.hmacKey, opts);
    assert r == StanzaDecrypt(setup.c, stanza, wire);
  }

  method DecidePacket(setup: Setup, replay: ReplayCache, pkt: Packet) returns (o: Outcome)
    requires setup.c.Valid()
    requires replay.Valid() && replay.ttl == setup.MaxAge() && replay.clock <= pkt.ageNow && Ordered(pkt)
    modifies replay
    ensures o == Process(setup, old(replay.log), pkt)
    ensures replay.Valid() && replay.clock <= pkt.addNow
    ensures replay.log == Recorded(setup, old(replay.log), pkt)
  {
    for i := 0 to |setup.stanzas|
      invariant NoneBefore(Verdicts(setup, pkt.wire, pkt.src), i)
      invariant unchanged(replay)
    {
      var m := TryStanza(setup, i, pkt.wire, pkt.src);
      if m.Err? {
        OneMore(Verdicts(setup, pkt.wire, pkt.src), i);
        continue;
      }
      ProcessFirst(setup, replay.log, pkt, i);
      assert old(replay.Valid());
      o := JudgePacket(setup, replay, pkt, i, m.value);
      return;
    }
    ProcessNone(setup, replay.log, pkt);
    return NoStanza;
  }

  /** The body of the loop after a successful decryption. */
  method JudgePacket(setup: Setup, replay: ReplayCache, pkt: Packet, i: nat, m: Message) returns (o: Outcome)
    requires i < |setup.stanzas|
    requires replay.Valid() && replay.ttl == setup.MaxAge() && replay.clock <= pkt.ageNow && Ordered(pkt)
    modifies replay
    ensures replay.Valid() && replay.clock <= pkt.addNow
    ensures o == Judge(setup, setup.stanzas[i], i, m, old(replay.log), pkt)
    ensures replay.log
      == if PassesReplay(o) then old(replay.log) + [(WireDigest(setup.c, pkt.wire), pkt.addNow)] else old(replay.log)
  {
    var stanza := setup.stanzas[i];
    var age := pkt.ageNow - m.timestamp;
    if setup.maxAgeSeconds > 0 && age > setup.maxAgeSeconds * NANOS {
      return TooOld(i);
    }
    var digest := WireDigest(setup.c, pkt.wire);
    var dup := replay.IsDuplicate(digest, pkt.dupNow);
    if dup {
      return Replayed(i);
    }
    replay.Add(digest, pkt.addNow);
    if stanza.requireUsername != [] && m.username != stanza.requireUsername {
      return WrongUser(i);
    }
    if stanza.requireSourceAddr {
      if m.accessMsg == [] || !ContainsIP(setup.p, m.accessMsg, setup.p.showIP(pkt.src)) {
        return WrongSource(i);
      }
    }
    if setup.test {
      return TestMode(i);
    }
    o := DispatchAction(setup, i, m, pkt.src);
  }

  method DispatchAction(setup: Setup, i: nat, m: Message, src: IP) returns (o: Outcome)
    requires i < |setup.stanzas|
    ensures o == Dispatch(setup.p, setup.stanzas[i], i, m, src)
  {
    var stanza := setup.stanzas[i];
    if m.messageType == COMMAND {
      if !stanza.enableCmdExec {
        return CommandRefused(i);
      }
      return RunsCommand(i, m.accessMsg, stanza.cmdExecUser);
    }
    var ctx := BuildContext(setup.p, m, setup.p.showIP(src), stanza);
    var allowed := CheckPort(setup.p, stanza, ctx.proto, ctx.port);
    return if allowed then OpensRule(i, ctx) else PortRefused(i);
  }

  // ---------- what it takes to open a rule or to run a command ----------

  /** The gates that every decrypted message must pass before anything is done for it. */
  ghost predicate Admitted(setup: Setup, s: Stanza, m: Message, log: Log, pkt: Packet) {
    && (setup.maxAgeSeconds > 0 ==> pkt.ageNow - m.timestamp <= setup.maxAgeSeconds * 1_000_000_000)
    && (forall k :: 0 <= k < |log| && log[k].0 == WireDigest(setup.c, pkt.wire) ==>
          pkt.dupNow > log[k].1 + setup.maxAgeSeconds * 1_000_000_000)
    && (s.requireUsername == [] || m.username == s.requireUsername)
    && (s.requireSourceAddr ==> m.accessMsg != [] && setup.p.parseIP(Before(m.accessMsg, COMMA)) == Some(pkt.src))
    && !setup.test
  }

  /** What a decrypted message must meet for its stanza to open this rule. */
  ghost predicate Cleared(setup: Setup, s: Stanza, m: Message, log: Log, pkt: Packet, ctx: Context) {
    && Admitted(setup, s, m, log, pkt)
    && m.messageType != COMMAND
    && ctx == BuildContext(setup.p, m, setup.p.showIP(pkt.src), s)
    && AllowsPort(setup.p, s.openPorts, ctx.proto, ctx.port)
  }

  lemma JudgeOpensWhen(setup: Setup, s: Stanza, i: nat, m: Message, log: Log, pkt: Packet, ctx: Context)
    requires setup.p.Valid()
    ensures Judge(setup, s, i, m, log, pkt) == OpensRule(i, ctx) <==> Cleared(setup, s, m, log, pkt, ctx)
  {
    ContainsIPMeaning(setup.p, m.accessMsg, pkt.src);
  }

  lemma JudgeRunsWhen(setup: Setup, s: Stanza, i: nat, m: Message, log: Log, pkt: Packet, command: Text, user: Text)
    requires setup.p.Valid()
    ensures Judge(setup, s, i, m, log, pkt) == RunsCommand(i, command, user)
       <==> Admitted(setup, s, m, log, pkt) && m.messageType == COMMAND && s.enableCmdExec
            && command == m.accessMsg && user == s.cmdExecUser
  {
    ContainsIPMeaning(setup.p, m.accessMsg, pkt.src);
  }

  lemma JudgeTooOldWhen(setup: Setup, s: Stanza, i: nat, m: Message, log: Log, pkt: Packet)
    ensures Judge(setup, s, i, m, log, pkt).TooOld?
       <==> setup.maxAgeSeconds > 0 && pkt.ageNow - m.timestamp > setup.maxAgeSeconds * 1_000_000_000
  {}

  lemma JudgeNamesStanza(setup: Setup, s: Stanza, i: nat, m: Message, log: Log, pkt: Packet)
    ensures var o := Judge(setup, s, i, m, log, pkt); o.OpensRule? || o.RunsCommand? ==> o.stanza == i
  {}

  /** A rule is opened exactly when the least accepting stanza lets the packet through every gate. */
  lemma OpensExactlyWhen(setup: Setup, log: Log, pkt: Packet, i: nat, ctx: Context)
    requires setup.c.Valid() && setup.p.Valid()
    ensures Process(setup, log, pkt) == OpensRule(i, ctx)
      <==> FirstAccepting(setup.c, setup.stanzas, pkt.wire, pkt.src, i)
           && Cleared(setup, setup.stanzas[i], StanzaDecrypt(setup.c, setup.stanzas[i], pkt.wire).value, log, pkt, ctx)
  {
    var first := FirstTrue(Verdicts(setup, pkt.wire, pkt.src));
    FirstUnique(setup, pkt.wire, pkt.src, i);
    if first < |setup.stanzas| {
      var m := StanzaDecrypt(setup.c, setup.stanzas[first], pkt.wire).value;
      JudgeOpensWhen(setup, setup.stanzas[first], first, m, log, pkt, ctx);
      JudgeNamesStanza(setup, setup.stanzas[first], first, m, log, pkt);
    }
  }

  /** A command runs exactly when it passes the same gates and the least accepting stanza allows commands. With
      requireSourceAddr its text up to the first comma has to be the source address. */
  lemma RunsExactlyWhen(setup: Setup, log: Log, pkt: Packet, i: nat, command: Text, user: Text)
    requires setup.c.Valid() && setup.p.Valid()
    ensures Process(setup, log, pkt) == RunsCommand(i, command, user)
      <==> FirstAccepting(setup.c, setup.stanzas, pkt.wire, pkt.src, i)
           && (var s, m := setup.stanzas[i], StanzaDecrypt(setup.c, setup.stanzas[i], pkt.wire).value;
               && Admitted(setup, s, m, log, pkt) && m.messageType == COMMAND && s.enableCmdExec
               && command == m.accessMsg && user == s.cmdExecUser)
  {
    var first := FirstTrue(Verdicts(setup, pkt.wire, pkt.src));
    FirstUnique(setup, pkt.wire, pkt.src, i);
    if first < |setup.stanzas| {
      var m := StanzaDecrypt(setup.c, setup.stanzas[first], pkt.wire).value;
      JudgeRunsWhen(setup, setup.stanzas[first], first, m, log, pkt, command, user);
      JudgeNamesStanza(setup, setup.stanzas[first], first, m, log, pkt);
    }
  }

  /** The rule's timeout is positive and within the larger of the stanza's resolved settings exactly when it is
      tame, as it always is when neither setting is negative. */
  lemma OpenedTimeoutBounded(setup: Setup, log: Log, pkt: Packet, i: nat, ctx: Context, raw: Stanza) returns (m: Message)
    requires setup.c.Valid() && setup.p.Valid()
    requires Process(setup, log, pkt) == OpensRule(i, ctx)
    requires i < |setup.stanzas| && setup.stanzas[i] == ResolveTimeouts(raw)
    ensures StanzaDecrypt(setup.c, setup.stanzas[i], pkt.wire) == Ok(m)
    ensures 1 <= ctx.timeout <= LongestTimeout(setup.stanzas[i]) <==> TimeoutTame(m, raw)
    ensures raw.accessTimeout >= 0 && raw.maxAccessTimeout >= 0 ==> TimeoutTame(m, raw)
  {
    OpensExactlyWhen(setup, log, pkt, i, ctx);
    m := StanzaDecrypt(setup.c, setup.stanzas[i], pkt.wire).value;
    TimeoutBounds(m, raw);
  }
}
