/** What the rule key "ip/proto/port" tells apart, also for messages that no client would send. */
module RuleKeys {
  import opened Bytes
  import opened Decimal
  import opened Message
  import opened Access

  // ---------- splitting at the separator ----------

  lemma {:induction false} SplitConcat(a: Text, b: Text, sep: Byte)
    ensures Split(a + [sep] + b, sep) == Split(a, sep) + Split(b, sep)
  {
    if a == [] {
      assert (a + [sep] + b)[1..] == b;
    } else {
      assert (a + [sep] + b)[1..] == a[1..] + [sep] + b;
      SplitConcat(a[1..], b, sep);
    }
  }

  lemma {:induction false} JoinSplit(s: Text, sep: Byte)
    ensures Join(Split(s, sep), sep) == s
  {
    if s != [] {
      JoinSplit(s[1..], sep);
      var rest := Split(s[1..], sep);
      if s[0] == sep {
        assert ([[]] + rest)[1..] == rest;
      } else {
        JoinHead(s[0], rest, sep);
      }
      assert s == [s[0]] + s[1..];
    }
  }

  /** A byte put before the first part is put before the joined text. */
  lemma JoinHead(c: Byte, parts: seq<Text>, sep: Byte)
    requires parts != []
    ensures Join([[c] + parts[0]] + parts[1..], sep) == [c] + Join(parts, sep)
  {
    var changed := [[c] + parts[0]] + parts[1..];
    assert changed[1..] == parts[1..];
  }

  // ---------- when two keys are equal ----------

  /** The parts of a context's key, cut at every slash. */
  function Components(ctx: Context): seq<Text> {
    Split(ctx.sourceIP, SLASH) + Split(ctx.proto, SLASH) + Split(ctx.port, SLASH)
  }

  lemma KeyComponents(ctx: Context)
    ensures Split(RuleKey(ctx), SLASH) == Components(ctx)
  {
    SplitConcat(ctx.sourceIP + [SLASH] + ctx.proto, ctx.port, SLASH);
    SplitConcat(ctx.sourceIP, ctx.proto, SLASH);
  }

  /** Any two contexts share a key exactly when their slash-separated components agree as one list. */
  lemma KeysEqualExactlyWhen(a: Context, b: Context)
    ensures RuleKey(a) == RuleKey(b) <==> Components(a) == Components(b)
  {
    KeyComponents(a);
    KeyComponents(b);
    JoinSplit(RuleKey(a), SLASH);
    JoinSplit(RuleKey(b), SLASH);
  }

  /** The server's splitter never leaves a slash in the protocol. */
  lemma ProtoSlashFree(msg: Text)
    ensures SLASH !in ParseAccessMsg(msg).1
  {}

  /** Where the source has no slash either, the key determines source, protocol and port, whatever the port is. */
  lemma RuleKeyInjective(a: Context, b: Context)
    requires SLASH !in a.sourceIP && SLASH !in a.proto
    requires SLASH !in b.sourceIP && SLASH !in b.proto
    requires RuleKey(a) == RuleKey(b)
    ensures a.sourceIP == b.sourceIP && a.proto == b.proto && a.port == b.port
  {
    KeysEqualExactlyWhen(a, b);
    PlainComponents(a);
    PlainComponents(b);
    assert Split(a.port, SLASH) == Components(a)[2..] == Components(b)[2..] == Split(b.port, SLASH);
    JoinSplit(a.port, SLASH);
    JoinSplit(b.port, SLASH);
  }

  lemma PlainComponents(ctx: Context)
    requires SLASH !in ctx.sourceIP && SLASH !in ctx.proto
    ensures Components(ctx) == [ctx.sourceIP, ctx.proto] + Split(ctx.port, SLASH)
  {
    SplitFirst(ctx.sourceIP, [], SLASH);
    SplitFirst(ctx.proto, [], SLASH);
  }

  // ---------- the contexts the server builds ----------

  predicate SameTarget(a: Context, b: Context) {
    a.sourceIP == b.sourceIP && a.proto == b.proto && a.port == b.port
  }

  /** Two contexts the server builds, from whatever messages: one key for different targets takes a slash in one of
      the sources, which is then no address. */
  lemma CollisionNeedsASlash(p: Platform, m: Message, src: Text, s: Stanza, m': Message, src': Text, s': Stanza)
    requires p.Valid()
    ensures var a, b := BuildContext(p, m, src, s), BuildContext(p, m', src', s');
      RuleKey(a) == RuleKey(b) && !SameTarget(a, b) ==>
        || (SLASH in a.sourceIP && p.parseIP(a.sourceIP).None?)
        || (SLASH in b.sourceIP && p.parseIP(b.sourceIP).None?)
  {
    var a, b := BuildContext(p, m, src, s), BuildContext(p, m', src', s');
    ProtoSlashFree(m.accessMsg);
    ProtoSlashFree(m'.accessMsg);
    if RuleKey(a) == RuleKey(b) && SLASH !in a.sourceIP && SLASH !in b.sourceIP {
      RuleKeyInjective(a, b);
    }
  }

  /** "ip/proto,port/rest" and "ip,proto/port/rest" are different targets under one key. */
  lemma CollidingMessages(ip: Text, proto: Text, port: Text, rest: Text)
    requires COMMA !in ip && COMMA !in proto && SLASH !in proto && SLASH !in port
    ensures ParseAccessMsg(ip + [SLASH] + proto + [COMMA] + (port + [SLASH] + rest)) == (ip + [SLASH] + proto, port, rest)
    ensures ParseAccessMsg(ip + [COMMA] + (proto + [SLASH] + (port + [SLASH] + rest)))
         == (ip, proto, port + [SLASH] + rest)
  {
    ParsedAs(ip + [SLASH] + proto, port, rest);
    ParsedAs(ip, proto, port + [SLASH] + rest);
  }

  lemma SameText(ip: Text, proto: Text, port: Text, rest: Text)
    ensures ip + [SLASH] + proto + [SLASH] + port + [SLASH] + rest
         == ip + [SLASH] + proto + [SLASH] + (port + [SLASH] + rest)
  {}

  lemma ParsedAs(ip: Text, proto: Text, port: Text)
    requires COMMA !in ip && SLASH !in proto
    ensures ParseAccessMsg(ip + [COMMA] + (proto + [SLASH] + port)) == (ip, proto, port)
  {
    CutUnique(ip, COMMA, proto + [SLASH] + port);
    CutUnique(proto, SLASH, port);
  }

  /** So the server keeps one timer for two requests: a source that is no address can collide with one that is. */
  lemma CollidingContexts(p: Platform, m: Message, m': Message, src: Text, s: Stanza,
                          ip: Text, proto: Text, port: Text, rest: Text)
    requires p.Valid() && p.parseIP(ip).Some? && !Unspecified(p.parseIP(ip).value)
    requires COMMA !in proto && SLASH !in proto && SLASH !in port
    requires m.accessMsg == ip + [SLASH] + proto + [COMMA] + (port + [SLASH] + rest)
    requires m'.accessMsg == ip + [COMMA] + (proto + [SLASH] + (port + [SLASH] + rest))
    ensures var a, b := BuildContext(p, m, src, s), BuildContext(p, m', src, s);
      RuleKey(a) == RuleKey(b) && !SameTarget(a, b)
  {
    CollidingMessages(ip, proto, port, rest);
    SameText(ip, proto, port, rest);
    assert SLASH in ip + [SLASH] + proto by {
      assert (ip + [SLASH] + proto)[|ip|] == SLASH;
    }
  }

  // ---------- accepted messages ----------

  /** Contexts that come from accepted messages: no part contains the key's separator. */
  predicate Separable(ctx: Context) {
    SLASH !in ctx.sourceIP && SLASH !in ctx.proto && SLASH !in ctx.port
  }

  lemma AcceptedContextsSeparable(p: Platform, m: Message, src: IP, s: Stanza)
    requires p.Valid() && ValidAccessMsg(p, m.accessMsg) == None
    ensures Separable(BuildContext(p, m, p.showIP(src), s))
  {
    AcceptedPartsSlashFree(p, m.accessMsg);
    assert p.parseIP(p.showIP(src)) == Some(src);
  }

  lemma AcceptedPartsSlashFree(p: Platform, msg: Text)
    requires p.Valid() && ValidAccessMsg(p, msg) == None
    ensures var (ip, proto, port) := ParseAccessMsg(msg); SLASH !in ip && SLASH !in proto && SLASH !in port
  {
    AcceptedMessagesSplit(p, msg);
    ProtoSlashFree(msg);
    DigitsSlashFree(ParseAccessMsg(msg).2);
  }

  lemma DigitsSlashFree(s: Text)
    requires AllDigits(s)
    ensures SLASH !in s
  {
    assert forall i :: 0 <= i < |s| ==> IsDigit(s[i]);
  }
}
