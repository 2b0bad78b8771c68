/** Access stanzas: source networks, ports, timeouts, and the rule context built from a message. */
module Access {
  import opened Bytes
  import opened Crypto
  import opened Numbers
  import opened Decimal
  import opened Message

  // ---------- source networks ----------

  /** A network: every address that agrees with `base` on all but the lowest `hostBits` bits. */
  datatype IPNet = IPNet(base: IP, hostBits: nat)

  predicate Contains(n: IPNet, ip: IP) {
    n.base.V4? == ip.V4? && n.base.bits / Power2(n.hostBits) == ip.bits / Power2(n.hostBits)
  }

  predicate MatchesSource(nets: seq<IPNet>, ip: IP) {
    exists i :: 0 <= i < |nets| && Contains(nets[i], ip)
  }

  /** accessStanza.matchSource. */
  method MatchSource(nets: seq<IPNet>, ip: IP) returns (matched: bool)
    ensures matched == MatchesSource(nets, ip)
  {
    for i := 0 to |nets|
      invariant forall k :: 0 <= k < i ==> !Contains(nets[k], ip)
    {
      if Contains(nets[i], ip) {
        return true;
      }
    }
    return false;
  }

  /** The addresses of a network form one range, of its own family: from the base rounded down to a multiple of its
      size. */
  predicate InRange(n: IPNet, ip: IP) {
    var size := Power2(n.hostBits);
    var low := n.base.bits - n.base.bits % size;
    (n.base.V4? <==> ip.V4?) && low <= ip.bits < low + size
  }

  lemma ContainsExactlyWhen(n: IPNet, ip: IP)
    ensures Contains(n, ip) <==> InRange(n, ip)
    ensures n.hostBits == 0 ==> (Contains(n, ip) <==> ip == n.base)
  {
    SameQuotient(n.base.bits, ip.bits, Power2(n.hostBits));
  }

  lemma SameQuotient(x: nat, y: nat, m: nat)
    requires m > 0
    ensures x / m == y / m <==> x - x % m <= y < x - x % m + m
  {
    var q := x / m;
    assert x - x % m == q * m;
    if q * m <= y < q * m + m {
      DivModOf(q, y - q * m, m);
    }
  }

  /** So a list of networks admits exactly the addresses in one of their ranges. */
  lemma MatchesExactlyWhen(nets: seq<IPNet>, ip: IP)
    ensures MatchesSource(nets, ip) <==> exists i :: 0 <= i < |nets| && InRange(nets[i], ip)
  {
    forall i | 0 <= i < |nets| ensures Contains(nets[i], ip) <==> InRange(nets[i], ip) {
      ContainsExactlyWhen(nets[i], ip);
    }
  }

  /** 0.0.0.0/0 and ::/0, what the source ANY stands for. */
  const ANY_NETS := [IPNet(V4(0), 32), IPNet(V6(0), 128)]

  /** ANY admits every address, of both families. */
  lemma AnyMatchesEverything(ip: IP)
    ensures MatchesSource(ANY_NETS, ip)
  {
    AddressSpaces();
    var i := if ip.V4? then 0 else 1;
    QuotientZero(ip.bits, Power2(ANY_NETS[i].hostBits));
    QuotientZero(0, Power2(ANY_NETS[i].hostBits));
    assert Contains(ANY_NETS[i], ip);
  }

  lemma AddressSpaces()
    ensures Power2(32) == IPV4_SIZE && Power2(128) == IPV6_SIZE
  {
    assert Power2(8) == 0x100;
    Squared(8, 0x100);
    Squared(16, 0x1_0000);
    Squared(32, 0x1_0000_0000);
    Squared(64, 0x1_0000_0000_0000_0000);
  }

  lemma Squared(n: nat, power: nat)
    requires Power2(n) == power
    ensures Power2(n + n) == power * power
  {
    SumOfExponents(n, n);
  }

  lemma {:induction false} SumOfExponents(m: nat, n: nat)
    ensures Power2(m + n) == Power2(m) * Power2(n)
  {
    if m > 0 {
      SumOfExponents(m - 1, n);
    }
  }

  lemma QuotientZero(x: nat, m: nat)
    requires x < m
    ensures x / m == 0
  {}

  // ---------- stanzas ----------

  datatype Stanza = Stanza(
    sourceNets: seq<IPNet>,
    openPorts: seq<Text>,
    encKey: Text,
    hmacKey: Text,
    hmacType: int,
    encMode: int,
    accessTimeout: int,
    maxAccessTimeout: int,
    requireUsername: Text,
    requireSourceAddr: bool,
    enableCmdExec: bool,
    cmdExecUser: Text)

  const DEFAULT_ACCESS_TIMEOUT := 30
  const DEFAULT_MAX_ACCESS_TIMEOUT := 300

  /** The end of accessStanza.resolve: unset timeouts get their defaults. */
  function ResolveTimeouts(s: Stanza): Stanza {
    s.(accessTimeout := if s.accessTimeout == 0 then DEFAULT_ACCESS_TIMEOUT else s.accessTimeout,
       maxAccessTimeout := if s.maxAccessTimeout == 0 then DEFAULT_MAX_ACCESS_TIMEOUT else s.maxAccessTimeout)
  }

  function EffectiveTimeout(m: Message, s: Stanza): int {
    if m.clientTimeout > 0 then
      if s.maxAccessTimeout > 0 && m.clientTimeout > s.maxAccessTimeout then s.maxAccessTimeout else m.clientTimeout
    else s.accessTimeout
  }

  function LongestTimeout(s: Stanza): int {
    if s.accessTimeout > s.maxAccessTimeout then s.accessTimeout else s.maxAccessTimeout
  }

  /** When the timeout is tame: a wish or a setting that is not negative, and a wish that is cut or small. */
  predicate TimeoutTame(m: Message, s: Stanza) {
    && (m.clientTimeout > 0 || s.accessTimeout >= 0)
    && (m.clientTimeout == 0 || s.maxAccessTimeout >= 0 || m.clientTimeout <= ResolveTimeouts(s).accessTimeout)
  }

  /** For all settings: a wish is cut at the maximum unless that is negative, no wish means the stanza's own
      timeout, and the result is positive and within the larger setting exactly when it is tame. */
  lemma TimeoutBounds(m: Message, s: Stanza)
    ensures var t := EffectiveTimeout(m, ResolveTimeouts(s));
      var own, most := if s.accessTimeout == 0 then 30 else s.accessTimeout,
                       if s.maxAccessTimeout == 0 then 300 else s.maxAccessTimeout;
      && (m.clientTimeout == 0 ==> t == own)
      && (m.clientTimeout > 0 && most < 0 ==> t == m.clientTimeout)
      && (m.clientTimeout > 0 && most > 0 ==>
            t <= most && t <= m.clientTimeout && (t == most || t == m.clientTimeout))
      && (1 <= t && (t <= own || t <= most) <==> TimeoutTame(m, s))
      && LongestTimeout(ResolveTimeouts(s)) == if own > most then own else most
  {}

  /** allowsPort: an empty list allows everything; comparison ignores case. */
  predicate AllowsPort(p: Platform, openPorts: seq<Text>, proto: Text, port: Text) {
    openPorts == [] || exists i :: 0 <= i < |openPorts| && p.equalFold(openPorts[i], proto + [SLASH] + port)
  }

  method CheckPort(p: Platform, s: Stanza, proto: Text, port: Text) returns (ok: bool)
    ensures ok == AllowsPort(p, s.openPorts, proto, port)
  {
    if |s.openPorts| == 0 {
      return true;
    }
    var requested := proto + [SLASH] + port;
    for i := 0 to |s.openPorts|
      invariant forall k :: 0 <= k < i ==> !p.equalFold(s.openPorts[k], requested)
    {
      if p.equalFold(s.openPorts[i], requested) {
        return true;
      }
    }
    return false;
  }

  // ---------- access messages ----------

  /** parseAccessMsg: "ip,proto/port", with empty strings for what is missing. */
  function ParseAccessMsg(msg: Text): (Text, Text, Text) {
    match Cut(msg, COMMA)
    case None => ([], [], [])
    case Some((ip, protoPort)) =>
      match Cut(protoPort, SLASH)
      case None => (ip, protoPort, [])
      case Some((proto, port)) => (ip, proto, port)
  }

  /** "ip,proto/port" with an address, a known protocol and a port in range. */
  predicate AccessMessageOf(p: Platform, msg: Text, ip: Text, proto: Text, port: Text) {
    && msg == ip + [',' as int] + proto + ['/' as int] + port
    && p.parseIP(ip).Some?
    && (proto == [116, 99, 112] || proto == [117, 100, 112] || proto == [105, 99, 109, 112])
    && AllDigits(port) && 1 <= DigitsValue(port) <= 65535
  }

  /** What the client's validator accepts, the server's splitter takes apart without loss. */
  lemma AcceptedMessagesSplit(p: Platform, msg: Text)
    requires ValidAccessMsg(p, msg) == None
    ensures var (ip, proto, port) := ParseAccessMsg(msg); AccessMessageOf(p, msg, ip, proto, port)
  {
    var (ip, proto, port) := ParseAccessMsg(msg);
    Reassemble(ip, proto, port);
  }

  /** Whatever has this form, and is not too long, is accepted and split into these parts. */
  lemma WellFormedAccepted(p: Platform, msg: Text, ip: Text, proto: Text, port: Text)
    requires p.Valid() && AccessMessageOf(p, msg, ip, proto, port) && |msg| <= MAX_ACCESS_MSG
    ensures ValidAccessMsg(p, msg) == None && ParseAccessMsg(msg) == (ip, proto, port)
  {
    Reassemble(ip, proto, port);
    CutUnique(ip, COMMA, proto + [SLASH] + port);
    CutUnique(proto, SLASH, port);
    CutAccepted(p, msg, ip, proto + [SLASH] + port, proto, port);
  }

  lemma CutAccepted(p: Platform, msg: Text, ip: Text, protoPort: Text, proto: Text, port: Text)
    requires Cut(msg, COMMA) == Some((ip, protoPort)) && Cut(protoPort, SLASH) == Some((proto, port))
    requires 0 < |msg| <= MAX_ACCESS_MSG && p.parseIP(ip).Some?
    requires proto == TCP || proto == UDP || proto == ICMP
    requires AllDigits(port) && 1 <= DigitsValue(port) <= MAX_PORT
    ensures ValidAccessMsg(p, msg) == None && ParseAccessMsg(msg) == (ip, proto, port)
  {}

  /** The validator accepts exactly this grammar, and the splitter returns its parts. */
  lemma AcceptedExactlyWhen(p: Platform, msg: Text, ip: Text, proto: Text, port: Text)
    requires p.Valid()
    ensures ValidAccessMsg(p, msg) == None && ParseAccessMsg(msg) == (ip, proto, port)
       <==> AccessMessageOf(p, msg, ip, proto, port) && |msg| <= MAX_ACCESS_MSG
  {
    if AccessMessageOf(p, msg, ip, proto, port) && |msg| <= MAX_ACCESS_MSG {
      WellFormedAccepted(p, msg, ip, proto, port);
    } else if ValidAccessMsg(p, msg) == None {
      AcceptedMessagesSplit(p, msg);
    }
  }

  lemma AccessExactlyWhen(p: Platform, msg: Text)
    requires p.Valid()
    ensures ValidAccessMsg(p, msg) == None
       <==> |msg| <= 256 && exists ip, proto, port :: AccessMessageOf(p, msg, ip, proto, port)
  {
    if ValidAccessMsg(p, msg) == None {
      AcceptedMessagesSplit(p, msg);
    }
    if ip, proto, port :| AccessMessageOf(p, msg, ip, proto, port) {
      AcceptedExactlyWhen(p, msg, ip, proto, port);
    }
  }

  /** The validators as one condition: exactly these messages are valid. */
  lemma ValidExactlyWhen(p: Platform, m: Message)
    requires p.Valid()
    ensures Validate(p, m) == None
       <==> && |m.randVal| == 16 && (forall i :: 0 <= i < 16 ==> '0' as int <= m.randVal[i] <= '9' as int)
            && 1 <= |m.username| <= 64 && p.printable(m.username)
            && 0 <= m.messageType <= 6
            && (if m.messageType == 0 then 1 <= |m.accessMsg| <= 1400
                else |m.accessMsg| <= 256 && exists ip, proto, port :: AccessMessageOf(p, m.accessMsg, ip, proto, port))
            && (m.messageType in {2, 4, 5, 6} ==> 1 <= |m.natAccess| <= 128)
  {
    AccessExactlyWhen(p, m.accessMsg);
    TypesByNumber(m);
  }

  /** An invalid message is refused for a missing field exactly when its first bad field is an empty one. */
  lemma MissingExactlyWhen(p: Platform, m: Message)
    ensures Validate(p, m) == Some(MissingField)
       <==> ValidRandVal(m.randVal) == None
            && (m.username == []
                || (ValidUsername(p, m.username) == None && 0 <= m.messageType <= 6
                    && (m.accessMsg == []
                        || (m.natAccess == [] && m.messageType in {2, 4, 5, 6}
                            && ValidAccessMsg(p, m.accessMsg) == None))))
  {
    TypesByNumber(m);
  }

  lemma Reassemble(ip: Text, proto: Text, port: Text)
    ensures ip + [COMMA] + (proto + [SLASH] + port) == ip + [COMMA] + proto + [SLASH] + port
  {}

  /** The data the rule commands are rendered from. */
  datatype Context = Context(
    sourceIP: Text, proto: Text, port: Text, username: Text,
    timestamp: int, timeout: int, accessMsg: Text, natAccess: Text)

  predicate Unspecified(ip: IP) { ip.bits == 0 }

  /** buildTemplateContext: an unspecified address stands for the packet's own source. */
  function BuildContext(p: Platform, m: Message, srcIP: Text, s: Stanza): Context {
    var (ip, proto, port) := ParseAccessMsg(m.accessMsg);
    var parsed := p.parseIP(ip);
    Context(if parsed.Some? && Unspecified(parsed.value) then srcIP else ip, proto, port, m.username,
            Unix(m.timestamp), EffectiveTimeout(m, s), m.accessMsg, m.natAccess)
  }

  /** The context of a message "ip,proto/port": its own address unless that is 0.0.0.0 or ::, the second it is dated,
      and the stanza's timeout or the client's wish, cut at a positive maximum. */
  lemma ContextOf(p: Platform, m: Message, srcIP: Text, s: Stanza, ip: Text, proto: Text, port: Text)
    requires m.accessMsg == ip + [44] + (proto + [47] + port) && 44 !in ip && 47 !in proto
    ensures var ctx := BuildContext(p, m, srcIP, s);
      && ctx.sourceIP == (if p.parseIP(ip) == Some(V4(0)) || p.parseIP(ip) == Some(V6(0)) then srcIP else ip)
      && ctx.proto == proto && ctx.port == port && ctx.username == m.username
      && ctx.accessMsg == m.accessMsg && ctx.natAccess == m.natAccess
      && ctx.timestamp * 1_000_000_000 <= m.timestamp < (ctx.timestamp + 1) * 1_000_000_000
      && ctx.timeout == (if m.clientTimeout == 0 then s.accessTimeout
                         else if 0 < s.maxAccessTimeout < m.clientTimeout then s.maxAccessTimeout
                         else m.clientTimeout)
  {
    CutUnique(ip, COMMA, proto + [SLASH] + port);
    CutUnique(proto, SLASH, port);
  }

  /** What is missing stays empty: without a slash behind the comma there is no port, without a comma there is
      nothing at all. */
  lemma ShortForms(msg: Text, ip: Text, rest: Text)
    ensures 44 !in msg ==> ParseAccessMsg(msg) == ([], [], [])
    ensures 44 !in ip && 47 !in rest ==> ParseAccessMsg(ip + [44] + rest) == (ip, rest, [])
  {
    if 44 !in ip && 47 !in rest {
      CutUnique(ip, COMMA, rest);
    }
  }

  /** "ip/proto/port" */
  function RuleKey(ctx: Context): Text {
    ctx.sourceIP + [SLASH] + ctx.proto + [SLASH] + ctx.port
  }

  // ---------- the source address requirement ----------

  /** splitFirst: everything before the first separator. */
  method SplitFirstPart(s: Text, sep: Byte) returns (head: Text)
    ensures head == Before(s, sep)
  {
    var idx := 0;
    while idx < |s| && s[idx] != sep
      invariant 0 <= idx <= |s|
      invariant forall j :: 0 <= j < idx ==> s[j] != sep
    {
      idx := idx + 1;
    }
    head := s[..idx];
  }

  function Before(s: Text, sep: Byte): (head: Text)
    ensures sep !in head
    ensures if sep in s then head + [sep] <= s else head == s
  {
    match Cut(s, sep)
    case None => s
    case Some((head, _)) => head
  }

  /** containsIP: addresses are compared, and texts only when one of them is not an address. */
  predicate ContainsIP(p: Platform, accessMsg: Text, ip: Text) {
    var msgIP := Before(accessMsg, COMMA);
    var parsedMsg, parsedSrc := p.parseIP(msgIP), p.parseIP(ip);
    if parsedMsg.None? || parsedSrc.None? then msgIP == ip else parsedMsg == parsedSrc
  }

  /** For a real source this is exactly: the part before the comma denotes that address. */
  lemma ContainsIPMeaning(p: Platform, accessMsg: Text, src: IP)
    requires p.Valid()
    ensures ContainsIP(p, accessMsg, p.showIP(src)) <==> p.parseIP(Before(accessMsg, COMMA)) == Some(src)
  {
    assert p.parseIP(p.showIP(src)) == Some(src);
  }

  /** So "head,rest" and a bare "head" pass exactly when the head denotes the packet's source. */
  lemma SourceGate(p: Platform, head: Text, rest: Text, src: IP)
    requires p.Valid() && 44 !in head
    ensures ContainsIP(p, head + [44] + rest, p.showIP(src)) <==> p.parseIP(head) == Some(src)
    ensures ContainsIP(p, head, p.showIP(src)) <==> p.parseIP(head) == Some(src)
  {
    CutUnique(head, COMMA, rest);
    ContainsIPMeaning(p, head, src);
    ContainsIPMeaning(p, head + [44] + rest, src);
  }
}
