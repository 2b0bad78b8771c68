/** SPA messages, their types and their field validators. */
module Message {
  import opened Bytes
  import opened Crypto
  import opened Decimal

  const NANOS := 1_000_000_000

  type UInt32 = x: int | 0 <= x <= MAX_UINT32
  /** time.Time in nanoseconds since the epoch; its second count is an int64. */
  type Instant = t: int | MIN_INT64 * NANOS <= t < (MAX_INT64 + 1) * NANOS

  /** The second an instant lies in, before the epoch as well. */
  function Unix(t: Instant): (s: int)
    ensures MIN_INT64 <= s <= MAX_INT64
    ensures s * 1_000_000_000 <= t < (s + 1) * 1_000_000_000
  {
    t / NANOS
  }

  const IPV4_SIZE := 0x1_0000_0000
  const IPV6_SIZE := 0x1_0000_0000_0000_0000_0000_0000_0000_0000
  const MAPPED_PREFIX := 0xFFFF

  /** An address as 32 or 128 bits, in canonical form: an IPv4-mapped IPv6 address is the IPv4 address. */
  datatype Address = V4(bits: nat) | V6(bits: nat)

  predicate Canonical(a: Address) {
    match a
    case V4(bits) => bits < IPV4_SIZE
    case V6(bits) => bits < IPV6_SIZE && bits / IPV4_SIZE != MAPPED_PREFIX
  }

  /** 32 bits, or 128 bits outside ::ffff:0:0/96. */
  lemma CanonicalExactlyWhen(a: Address)
    ensures Canonical(a)
       <==> if a.V4? then a.bits <= 0xFFFF_FFFF
            else a.bits <= 0xFFFF_FFFF_FFFF_FFFF_FFFF_FFFF_FFFF_FFFF
                 && !(0xFFFF_0000_0000 <= a.bits <= 0xFFFF_FFFF_FFFF)
  {}

  type IP = a: Address | Canonical(a) witness V4(0)

  /** The library text routines, taken as parameters. */
  datatype Platform = Platform(
    parseIP: Text -> Option<IP>,
    showIP: IP -> Text,
    printable: Text -> bool,          // every rune is printable and none is a space
    equalFold: (Text, Text) -> bool)
  {
    /** net.ParseIP accepts neither ',' nor '/', and reads back what net.IP.String prints. */
    ghost predicate Valid() {
      && (forall t :: parseIP(t).Some? ==> COMMA !in t && SLASH !in t)
      && (forall ip :: parseIP(showIP(ip)) == Some(ip))
    }
  }

  function ReadUnary(t: Text): Option<IP> {
    if t == [] || COMMA in t || SLASH in t then None
    else
      var a := if t[0] == 4 then V4(|t| - 1) else V6(|t| - 1);
      if Canonical(a) then Some(a) else None
  }

  /** The assumptions can be met: addresses are written in unary behind a tag, and only addresses are read. */
  lemma ValidPlatformsExist() returns (p: Platform)
    ensures p.Valid()
  {
    p := Platform(
      (t: Text) => ReadUnary(t),
      (ip: IP) => [if ip.V4? then 4 else 6] + Repeat(1, ip.bits),
      t => true,
      (s, t) => s == t);
  }

  // ---------- message types ----------

  const COMMAND := 0
  const ACCESS := 1
  const NAT_ACCESS := 2
  const TIMEOUT_ACCESS := 3
  const TIMEOUT_NAT_ACCESS := 4
  const LOCAL_NAT_ACCESS := 5
  const TIMEOUT_LOCAL_NAT_ACCESS := 6

  predicate ValidType(t: int) { COMMAND <= t <= TIMEOUT_LOCAL_NAT_ACCESS }

  predicate RequiresNAT(t: int) {
    t == NAT_ACCESS || t == TIMEOUT_NAT_ACCESS || t == LOCAL_NAT_ACCESS || t == TIMEOUT_LOCAL_NAT_ACCESS
  }

  datatype Message = Message(
    randVal: Text,
    username: Text,
    timestamp: Instant,
    messageType: int,
    accessMsg: Text,
    natAccess: Text,
    serverAuth: Text,
    clientTimeout: UInt32,
    digestType: int,
    encryptionMode: int,
    hmacType: int)

  /** The type that is written: a timeout turns a plain type into its timeout variant. */
  function EffectiveType(m: Message): int {
    if m.clientTimeout == 0 || m.messageType == COMMAND then m.messageType
    else if m.messageType == ACCESS then TIMEOUT_ACCESS
    else if m.messageType == NAT_ACCESS then TIMEOUT_NAT_ACCESS
    else if m.messageType == LOCAL_NAT_ACCESS then TIMEOUT_LOCAL_NAT_ACCESS
    else m.messageType
  }

  /** The types by number: which are valid, which take a NAT access string, and what a timeout makes of each. */
  lemma TypesByNumber(m: Message)
    ensures ValidType(m.messageType) <==> 0 <= m.messageType <= 6
    ensures RequiresNAT(m.messageType) <==> m.messageType in {2, 4, 5, 6}
    ensures EffectiveType(m)
         == if m.clientTimeout > 0 && m.messageType in {1, 2} then m.messageType + 2
            else if m.clientTimeout > 0 && m.messageType == 5 then 6
            else m.messageType
  {}

  /** Adjusting the type settles after one step and never changes validity, NAT-ness or being a command. */
  lemma EffectiveTypeStable(m: Message)
    ensures EffectiveType(m.(messageType := EffectiveType(m))) == EffectiveType(m)
    ensures ValidType(EffectiveType(m)) <==> ValidType(m.messageType)
    ensures RequiresNAT(EffectiveType(m)) <==> RequiresNAT(m.messageType)
    ensures EffectiveType(m) == COMMAND <==> m.messageType == COMMAND
  {}

  // ---------- validators ----------

  const MAX_ENCODED := 1500
  const MIN_ENCODED := 36
  const MAX_ACCESS_MSG := 256
  const MAX_USERNAME := 64
  const MAX_CMD := 1400
  const MAX_NAT_ACCESS := 128
  const MAX_PORT := 65535
  const RAND_VAL_SIZE := 16
  const MIN_FIELDS := 6
  const MAX_FIELDS := 9

  /** "tcp", "udp" and "icmp" */
  const TCP: Text := [116, 99, 112]
  const UDP: Text := [117, 100, 112]
  const ICMP: Text := [105, 99, 109, 112]

  function ValidRandVal(val: Text): Option<SpaError> {
    if |val| != RAND_VAL_SIZE || !AllDigits(val) then Some(InvalidData) else None
  }

  function ValidUsername(p: Platform, username: Text): Option<SpaError> {
    if username == [] then Some(MissingField)
    else if |username| > MAX_USERNAME || !p.printable(username) then Some(InvalidData)
    else None
  }

  /** A match of the pattern (tcp|udp|icmp)/digits over the whole string. */
  function MatchProtoPort(s: Text): Option<(Text, Text)> {
    match Cut(s, SLASH)
    case None => None
    case Some((proto, port)) =>
      if (proto == TCP || proto == UDP || proto == ICMP) && port != [] && AllDigits(port)
      then Some((proto, port)) else None
  }

  /** strconv.Atoi with its error dropped: out-of-range digits read as the largest integer. */
  function ClampedValue(digits: Text): int
    requires AllDigits(digits)
  {
    if DigitsValue(digits) > MAX_INT64 then MAX_INT64 else DigitsValue(digits)
  }

  function ValidAccessMsg(p: Platform, msg: Text): Option<SpaError> {
    if msg == [] then Some(MissingField)
    else if |msg| > MAX_ACCESS_MSG then Some(InvalidData)
    else
      match Cut(msg, COMMA)
      case None => Some(InvalidData)
      case Some((ip, protoPort)) =>
        if p.parseIP(ip).None? then Some(InvalidData)
        else
          match MatchProtoPort(protoPort)
          case None => Some(InvalidData)
          case Some((_, port)) => if 1 <= ClampedValue(port) <= MAX_PORT then None else Some(InvalidData)
  }

  function ValidCmdMsg(msg: Text): Option<SpaError> {
    if msg == [] then Some(MissingField) else if |msg| > MAX_CMD then Some(InvalidData) else None
  }

  function ValidNATAccess(nat_: Text): Option<SpaError> {
    if nat_ == [] then Some(MissingField) else if |nat_| > MAX_NAT_ACCESS then Some(InvalidData) else None
  }

  /** Message.validate: the first failing check decides the error. */
  function Validate(p: Platform, m: Message): Option<SpaError> {
    var randVal, user := ValidRandVal(m.randVal), ValidUsername(p, m.username);
    if randVal.Some? then randVal
    else if user.Some? then user
    else if !ValidType(m.messageType) then Some(InvalidData)
    else
      var body := if m.messageType == COMMAND then ValidCmdMsg(m.accessMsg) else ValidAccessMsg(p, m.accessMsg);
      if body.Some? then body
      else if RequiresNAT(m.messageType) then ValidNATAccess(m.natAccess)
      else None
  }
}
