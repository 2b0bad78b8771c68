/** Standard base64 (section 4 of RFC 4648) with the trailing '=' padding of section 3.2 stripped,
    down to 6-bit groups. The decoder is Go's non-strict one: line breaks are skipped and the unused
    low bits of the last group (section 3.5) are ignored. */
module Base64 {
  import opened Bytes
  import opened Numbers

  type Sextet = x: int | 0 <= x < 64

  const CR: Byte := 13
  const LF: Byte := 10

  function Alphabet(v: Sextet): Byte {
    if v < 26 then 'A' as int + v
    else if v < 52 then 'a' as int + (v - 26)
    else if v < 62 then '0' as int + (v - 52)
    else if v == 62 then '+' as int
    else '/' as int
  }

  function DecodeChar(c: Byte): Option<Sextet> {
    if 'A' as int <= c <= 'Z' as int then Some(c - 'A' as int)
    else if 'a' as int <= c <= 'z' as int then Some(c - 'a' as int + 26)
    else if '0' as int <= c <= '9' as int then Some(c - '0' as int + 52)
    else if c == '+' as int then Some(62)
    else if c == '/' as int then Some(63)
    else None
  }

  predicate InAlphabet(s: Text) {
    forall i :: 0 <= i < |s| ==> DecodeChar(s[i]).Some?
  }

  // ---------- encoding ----------

  function Group(a: Byte, b: Byte, c: Byte): (g: Text)
    ensures |g| == 4 && InAlphabet(g)
  {
    [Alphabet(a / 4), Alphabet(a % 4 * 16 + b / 16), Alphabet(b % 16 * 4 + c / 64), Alphabet(c % 64)]
  }

  /** base64.StdEncoding.EncodeToString. */
  function EncodeStd(d: Text): (s: Text)
    ensures |s| == (|d| + 2) / 3 * 4
  {
    if d == [] then []
    else if |d| == 1 then Group(d[0], 0, 0)[..2] + [EQUALS, EQUALS]
    else if |d| == 2 then Group(d[0], d[1], 0)[..3] + [EQUALS]
    else Group(d[0], d[1], d[2]) + EncodeStd(d[3..])
  }

  function Encode(d: Text): Text {
    TrimRight(EncodeStd(d), EQUALS)
  }

  // ---------- decoding ----------

  function StripNewlines(s: Text): (t: Text)
    ensures 13 !in t && 10 !in t
  {
    if s == [] then []
    else if s[0] == CR || s[0] == LF then StripNewlines(s[1..])
    else [s[0]] + StripNewlines(s[1..])
  }

  /** One four-character quantum; '=' may only close the last one. */
  function DecodeQuantum(q: Text, last: bool): Option<Text>
    requires |q| == 4
  {
    var v0, v1, v2, v3 := DecodeChar(q[0]), DecodeChar(q[1]), DecodeChar(q[2]), DecodeChar(q[3]);
    if v0.None? || v1.None? then None
    else if v2.Some? && v3.Some? then
      Some([v0.value * 4 + v1.value / 16, v1.value % 16 * 16 + v2.value / 4, v2.value % 4 * 64 + v3.value])
    else if !last || q[3] != EQUALS then None
    else if v2.Some? then Some([v0.value * 4 + v1.value / 16, v1.value % 16 * 16 + v2.value / 4])
    else if q[2] == EQUALS then Some([v0.value * 4 + v1.value / 16])
    else None
  }

  function DecodeQuanta(s: Text): Option<Text> {
    if s == [] then Some([])
    else if |s| < 4 then None
    else
      var q := DecodeQuantum(s[..4], |s| == 4);
      var rest := DecodeQuanta(s[4..]);
      if q.None? || rest.None? then None else Some(q.value + rest.value)
  }

  /** base64.StdEncoding.DecodeString. */
  function DecodeStd(s: Text): Option<Text> {
    DecodeQuanta(StripNewlines(s))
  }

  /** Padding re-added up to a multiple of four. */
  function Repad(s: Text): Text {
    if |s| % 4 == 0 then s else s + Repeat(EQUALS, 4 - |s| % 4)
  }

  function Decode(s: Text): Option<Text> {
    DecodeStd(Repad(s))
  }

  // ---------- round trip ----------

  lemma DecodeAlphabet(v: Sextet)
    ensures DecodeChar(Alphabet(v)) == Some(v)
  {}

  lemma QuantumOfSextets(v0: Sextet, v1: Sextet, v2: Sextet, v3: Sextet, last: bool)
    ensures DecodeQuantum([Alphabet(v0), Alphabet(v1), Alphabet(v2), Alphabet(v3)], last)
         == Some([v0 * 4 + v1 / 16, v1 % 16 * 16 + v2 / 4, v2 % 4 * 64 + v3])
    ensures DecodeQuantum([Alphabet(v0), Alphabet(v1), Alphabet(v2), EQUALS], true)
         == Some([v0 * 4 + v1 / 16, v1 % 16 * 16 + v2 / 4])
    ensures DecodeQuantum([Alphabet(v0), Alphabet(v1), EQUALS, EQUALS], true) == Some([v0 * 4 + v1 / 16])
  {
    DecodeAlphabet(v0);
    DecodeAlphabet(v1);
    DecodeAlphabet(v2);
    DecodeAlphabet(v3);
  }

  /** Cutting 24 bits into sextets and into bytes again is the identity. */
  lemma SextetArithmetic(a: Byte, b: Byte, c: Byte)
    ensures a / 4 * 4 + (a % 4 * 16 + b / 16) / 16 == a
    ensures (a % 4 * 16 + b / 16) % 16 * 16 + (b % 16 * 4 + c / 64) / 4 == b
    ensures (b % 16 * 4 + c / 64) % 4 * 64 + c % 64 == c
  {}

  lemma QuantumFull(a: Byte, b: Byte, c: Byte, last: bool)
    ensures DecodeQuantum(Group(a, b, c), last) == Some([a, b, c])
  {
    SextetArithmetic(a, b, c);
    var v0, v1, v2, v3 := a / 4, a % 4 * 16 + b / 16, b % 16 * 4 + c / 64, c % 64;
    assert Group(a, b, c) == [Alphabet(v0), Alphabet(v1), Alphabet(v2), Alphabet(v3)];
    QuantumOfSextets(v0, v1, v2, v3, last);
  }

  lemma QuantumOne(a: Byte)
    ensures DecodeQuantum(Group(a, 0, 0)[..2] + [EQUALS, EQUALS], true) == Some([a])
  {
    var v0, v1 := a / 4, a % 4 * 16;
    SextetArithmetic(a, 0, 0);
    assert Group(a, 0, 0)[..2] + [EQUALS, EQUALS] == [Alphabet(v0), Alphabet(v1), EQUALS, EQUALS];
    QuantumOfSextets(v0, v1, 0, 0, true);
  }

  lemma QuantumTwo(a: Byte, b: Byte)
    ensures DecodeQuantum(Group(a, b, 0)[..3] + [EQUALS], true) == Some([a, b])
  {
    var v0, v1, v2 := a / 4, a % 4 * 16 + b / 16, b % 16 * 4;
    SextetArithmetic(a, b, 0);
    assert Group(a, b, 0)[..3] + [EQUALS] == [Alphabet(v0), Alphabet(v1), Alphabet(v2), EQUALS];
    QuantumOfSextets(v0, v1, v2, 0, true);
  }

  lemma QuantaBuild(q: Text, tail: Text)
    requires |q| == 4
    requires DecodeQuantum(q, tail == []).Some? && DecodeQuanta(tail).Some?
    ensures DecodeQuanta(q + tail) == Some(DecodeQuantum(q, tail == []).value + DecodeQuanta(tail).value)
  {
    assert (q + tail)[..4] == q && (q + tail)[4..] == tail;
  }

  lemma FullGroupInverts(a: Byte, b: Byte, c: Byte, tail: Text, d: Text)
    requires DecodeQuanta(tail) == Some(d)
    ensures DecodeQuanta(Group(a, b, c) + tail) == Some([a, b, c] + d)
  {
    QuantumFull(a, b, c, tail == []);
    QuantaBuild(Group(a, b, c), tail);
  }

  lemma LastQuantum(q: Text, d: Text)
    requires |q| == 4 && DecodeQuantum(q, true) == Some(d)
    ensures DecodeQuanta(q) == Some(d)
  {
    assert q[..4] == q && q[4..] == [];
    assert d + [] == d;
  }

  lemma {:induction false} QuantaInvertEncode(d: Text)
    ensures DecodeQuanta(EncodeStd(d)) == Some(d)
  {
    if d == [] {
    } else if |d| == 1 {
      QuantumOne(d[0]);
      assert d == [d[0]];
      LastQuantum(EncodeStd(d), d);
    } else if |d| == 2 {
      QuantumTwo(d[0], d[1]);
      assert d == [d[0], d[1]];
      LastQuantum(EncodeStd(d), d);
    } else {
      QuantaInvertEncode(d[3..]);
      FullGroupInverts(d[0], d[1], d[2], EncodeStd(d[3..]), d[3..]);
      assert d == [d[0], d[1], d[2]] + d[3..];
    }
  }

  /** The encoding without its padding, group by group. */
  function Unpadded(d: Text): (s: Text)
    ensures InAlphabet(s)
    ensures |s| == (4 * |d| + 2) / 3
  {
    if d == [] then []
    else if |d| == 1 then Group(d[0], 0, 0)[..2]
    else if |d| == 2 then Group(d[0], d[1], 0)[..3]
    else Group(d[0], d[1], d[2]) + Unpadded(d[3..])
  }

  /** The number of '=' that close the encoding of n bytes. */
  function PadCount(n: nat): (p: nat)
    ensures p < 3
    ensures n >= 3 ==> p == PadCount(n - 3)
  {
    (3 - n % 3) % 3
  }

  lemma {:induction false} PaddingFollows(d: Text)
    ensures EncodeStd(d) == Unpadded(d) + Repeat(EQUALS, PadCount(|d|))
  {
    if |d| >= 3 {
      PaddingFollows(d[3..]);
    }
  }

  /** An encoding is alphabet characters followed by its padding; stripping '=' removes exactly that. */
  lemma EncodeShape(d: Text)
    ensures EncodeStd(d) == Encode(d) + Repeat(EQUALS, PadCount(|d|))
    ensures InAlphabet(Encode(d))
    ensures |Encode(d)| == (4 * |d| + 2) / 3
  {
    PaddingFollows(d);
    var body := Unpadded(d);
    assert body != [] ==> DecodeChar(body[|body| - 1]).Some?;
    TrimRightUnique(body, EQUALS, PadCount(|d|));
  }

  lemma {:induction false} StripNothing(s: Text)
    requires CR !in s && LF !in s
    ensures StripNewlines(s) == s
  {
    if s != [] {
      StripNothing(s[1..]);
    }
  }

  lemma StripStep(c: Byte, s: Text, t: Text)
    ensures [c] + (StripNewlines(s) + StripNewlines(t)) == [c] + StripNewlines(s) + StripNewlines(t)
  {}

  lemma {:induction false} StripAppend(s: Text, t: Text)
    ensures StripNewlines(s + t) == StripNewlines(s) + StripNewlines(t)
  {
    if s == [] {
      assert s + t == t;
    } else {
      StripAppend(s[1..], t);
      assert (s + t)[1..] == s[1..] + t;
      StripStep(s[0], s[1..], t);
    }
  }

  lemma RepadTo(e: Text, p: nat)
    requires p < 4 && (|e| + p) % 4 == 0
    ensures Repad(e) == e + Repeat(EQUALS, p)
  {}

  lemma EncodeStdAligned(d: Text)
    ensures |EncodeStd(d)| % 4 == 0
  {}

  lemma RepadEncode(d: Text)
    ensures Repad(Encode(d)) == EncodeStd(d)
    ensures Repad(EncodeStd(d)) == EncodeStd(d)
  {
    EncodeShape(d);
    EncodeStdAligned(d);
    RepadTo(Encode(d), PadCount(|d|));
    RepadTo(EncodeStd(d), 0);
  }

  lemma NoNewlines(d: Text)
    ensures StripNewlines(EncodeStd(d)) == EncodeStd(d)
  {
    EncodeShape(d);
    var s := EncodeStd(d);
    assert forall i :: 0 <= i < |s| ==> s[i] == EQUALS || DecodeChar(s[i]).Some?;
    StripNothing(s);
  }

  /** Decoding undoes encoding for every byte string, with or without the padding. */
  lemma RoundTrip(d: Text)
    ensures Decode(Encode(d)) == Some(d)
    ensures Decode(EncodeStd(d)) == Some(d)
  {
    RepadEncode(d);
    NoNewlines(d);
    QuantaInvertEncode(d);
  }

  lemma Injective(d: Text, d': Text)
    requires Encode(d) == Encode(d')
    ensures d == d'
  {
    RoundTrip(d);
    RoundTrip(d');
  }

  lemma NoColon(d: Text)
    ensures COLON !in Encode(d)
  {
    EncodeShape(d);
    assert DecodeChar(COLON).None?;
  }

  // ---------- both directions group by group ----------

  /** The alphabet in order: capital letters, small letters, digits, '+' and '/'. */
  lemma AlphabetTable(v: Sextet)
    ensures Alphabet(v)
         == if v == 0 then 'A' as int
            else if v == 26 then 'a' as int
            else if v == 52 then '0' as int
            else if v == 62 then '+' as int
            else if v == 63 then '/' as int
            else Alphabet(v - 1) + 1
  {}

  /** No other character has a value. */
  lemma OnlyTheAlphabet(c: Byte, v: Sextet)
    ensures DecodeChar(c) == Some(v) <==> c == Alphabet(v)
  {
    if DecodeChar(c).Some? {
      var w := DecodeChar(c).value;
      assert w < 26 ==> Alphabet(w) == c;
      assert 26 <= w < 52 ==> Alphabet(w) == c;
      assert 52 <= w ==> Alphabet(w) == c;
    }
  }

  /** Three bytes as one number of 24 bits. */
  function Joined(a: nat, b: nat, c: nat): nat { 65536 * a + 256 * b + c }

  function ByteAt(d: Text, k: nat): Byte { if k < |d| then d[k] else 0 }

  /** The first three bytes, with zeros for those that are not there. */
  function BytesValue(d: Text): nat { Joined(ByteAt(d, 0), ByteAt(d, 1), ByteAt(d, 2)) }

  function SextetAt(s: Text, k: nat): Sextet {
    if k < |s| && DecodeChar(s[k]).Some? then DecodeChar(s[k]).value else 0
  }

  /** Four characters as one number of 24 bits. */
  function SextetsValue(s: Text): nat {
    262144 * SextetAt(s, 0) + 4096 * SextetAt(s, 1) + 64 * SextetAt(s, 2) + SextetAt(s, 3)
  }

  function From(s: Text, k: nat): Text { if k <= |s| then s[k..] else [] }

  lemma GroupValue(a: Byte, b: Byte, c: Byte, tail: Text)
    ensures SextetsValue(Group(a, b, c) + tail) == Joined(a, b, c)
  {
    DecodeAlphabet(a / 4);
    DecodeAlphabet(a % 4 * 16 + b / 16);
    DecodeAlphabet(b % 16 * 4 + c / 64);
    DecodeAlphabet(c % 64);
  }

  lemma UnpaddedHead(d: Text)
    ensures SextetsValue(Unpadded(d)) == BytesValue(d)
  {
    if d != [] && |d| < 3 {
      GroupValue(d[0], if |d| == 2 then d[1] else 0, 0, []);
      ShortHead(d[0], if |d| == 2 then d[1] else 0, Unpadded(d));
    } else if |d| >= 3 {
      GroupValue(d[0], d[1], d[2], Unpadded(d[3..]));
    }
  }

  /** Leaving out the zero sextets at the end of a group does not change its value. */
  lemma ShortHead(a: Byte, b: Byte, s: Text)
    requires s == Group(a, b, 0)[..3] || (b == 0 && s == Group(a, 0, 0)[..2])
    ensures SextetsValue(s) == SextetsValue(Group(a, b, 0) + [])
  {
    DecodeAlphabet(0);
  }

  lemma UnpaddedTail(d: Text) returns (q: Text)
    requires |d| >= 3
    ensures |q| == 4 && Unpadded(d) == q + Unpadded(d[3..]) && d == d[..3] + d[3..]
  {
    q := Group(d[0], d[1], d[2]);
  }

  lemma ShortTail(d: Text, u: Text, i: nat)
    requires u == Unpadded(d) && (i == 0 || |d| < 3)
    ensures From(u, 4 * i) == Unpadded(From(d, 3 * i))
  {
    if i == 0 {
      assert u[0..] == u && d[0..] == d;
    }
  }

  /** Dropping groups of the encoding is encoding what is left. */
  lemma {:induction false} UnpaddedFrom(d: Text, u: Text, i: nat)
    requires u == Unpadded(d)
    ensures From(u, 4 * i) == Unpadded(From(d, 3 * i))
    decreases i
  {
    if i == 0 || |d| < 3 {
      ShortTail(d, u, i);
    } else {
      var q := UnpaddedTail(d);
      UnpaddedFrom(d[3..], Unpadded(d[3..]), i - 1);
      LaterFrom(q, Unpadded(d[3..]), d[..3], d[3..], i);
    }
  }

  lemma LaterFrom(q: Text, s: Text, a: Text, d: Text, i: nat)
    requires |q| == 4 && |a| == 3 && i > 0
    ensures From(q + s, 4 * i) == From(s, 4 * (i - 1)) && From(a + d, 3 * i) == From(d, 3 * (i - 1))
  {
    FromBehind(q, s, 4 * i);
    FromBehind(a, d, 3 * i);
  }

  lemma LaterGroup(q: Text, s: Text, a: Text, d: Text, i: nat)
    requires |q| == 4 && |a| == 3 && i > 0
    ensures SextetsValue(From(q + s, 4 * i)) == SextetsValue(From(s, 4 * (i - 1)))
    ensures BytesValue(From(a + d, 3 * i)) == BytesValue(From(d, 3 * (i - 1)))
  {
    LaterFrom(q, s, a, d, i);
  }

  lemma FromBehind(head: Text, tail: Text, k: nat)
    requires |head| <= k
    ensures From(head + tail, k) == From(tail, k - |head|)
  {}

  lemma EncodeIsUnpadded(d: Text)
    ensures Encode(d) == Unpadded(d)
  {
    PaddingFollows(d);
    var body := Unpadded(d);
    assert body != [] ==> DecodeChar(body[|body| - 1]).Some?;
    TrimRightUnique(body, EQUALS, PadCount(|d|));
  }

  /** The encoding group by group: four characters show the 24 bits of three bytes, with zero bits for what is missing
      at the end. */
  lemma EncodedGroups(d: Text, i: nat)
    ensures SextetsValue(From(Encode(d), 4 * i)) == BytesValue(From(d, 3 * i))
  {
    EncodeIsUnpadded(d);
    UnpaddedFrom(d, Unpadded(d), i);
    UnpaddedHead(From(d, 3 * i));
  }

  /** Alphabet characters, and `n` times '=' up to a multiple of four. */
  predicate Quanta(s: Text, n: nat) {
    && |s| % 4 == 0 && n <= 2 && n <= |s| && InAlphabet(s[..|s| - n])
    && forall k :: |s| - n <= k < |s| ==> s[k] == '=' as int
  }

  /** The bits of `x` that fit into n bytes less than three. */
  function Cleared(x: nat, n: nat): nat {
    if n == 0 then x else if n == 1 then x - x % 256 else x - x % 65536
  }

  lemma QuantumShape(q: Text, last: bool) returns (n: nat)
    requires |q| == 4 && DecodeQuantum(q, last).Some?
    ensures Quanta(q, n) && (n > 0 ==> last)
  {
    n := if q[2] == EQUALS then 2 else if q[3] == EQUALS then 1 else 0;
  }

  lemma QuantumValue(q: Text, last: bool, n: nat)
    requires |q| == 4 && Quanta(q, n) && (n > 0 ==> last)
    ensures DecodeQuantum(q, last).Some?
    ensures var d := DecodeQuantum(q, last).value; |d| == 3 - n && BytesValue(d) == Cleared(SextetsValue(q), n)
  {
    InAlphabetAt(q, n);
    JoinedSextets(SextetAt(q, 0), SextetAt(q, 1), SextetAt(q, 2), SextetAt(q, 3));
  }

  lemma InAlphabetAt(q: Text, n: nat)
    requires |q| == 4 && Quanta(q, n)
    ensures DecodeChar(q[0]).Some? && DecodeChar(q[1]).Some?
    ensures if n == 2 then q[2] == EQUALS else DecodeChar(q[2]).Some?
    ensures if n == 0 then DecodeChar(q[3]).Some? else q[3] == EQUALS
  {
    var body := q[..|q| - n];
    assert forall k :: 0 <= k < |body| ==> body[k] == q[k];
  }

  lemma JoinedSextets(v0: Sextet, v1: Sextet, v2: Sextet, v3: Sextet)
    ensures var x := 262144 * v0 + 4096 * v1 + 64 * v2 + v3;
      var a, b, c := v0 * 4 + v1 / 16, v1 % 16 * 16 + v2 / 4, v2 % 4 * 64 + v3;
      && Joined(a, b, c) == x && Joined(a, b, 0) == Cleared(x, 1)
      && (v2 == v3 == 0 ==> Joined(a, 0, 0) == Cleared(x, 2))
  {
    var a, b, c := v0 * 4 + v1 / 16, v1 % 16 * 16 + v2 / 4, v2 % 4 * 64 + v3;
    assert v1 == 16 * (v1 / 16) + v1 % 16 && v2 == 4 * (v2 / 4) + v2 % 4;
    DivModOf(256 * a + b, c, 256);
    DivModOf(a, 256 * b + c, 65536);
  }

  lemma QuantaSplit(s: Text, n: nat)
    requires |s| > 4
    ensures Quanta(s, n) <==> Quanta(s[..4], 0) && Quanta(s[4..], n)
  {
    if Quanta(s[..4], 0) && Quanta(s[4..], n) {
      var head, tail := s[..4], s[4..];
      assert s == head + tail;
      assert s[..|s| - n] == head + tail[..|tail| - n];
      assert head[..|head| - 0] == head;
    }
    if Quanta(s, n) {
      var body := s[..|s| - n];
      assert s[..4] == body[..4] && s[4..][..|s| - 4 - n] == body[4..];
      assert s[..4][..4] == s[..4];
    }
  }

  /** Exactly the texts of this shape are decoded. */
  lemma {:induction false} DecodesExactlyWhen(s: Text)
    ensures DecodeQuanta(s).Some? <==> exists n: nat :: Quanta(s, n)
  {
    if s == [] {
      assert Quanta(s, 0);
    } else if |s| == 4 {
      assert s[..4] == s && s[4..] == [];
      if DecodeQuantum(s, true).Some? {
        var n := QuantumShape(s, true);
      }
      if n: nat :| Quanta(s, n) {
        QuantumValue(s, true, n);
      }
    } else if |s| > 4 {
      DecodesExactlyWhen(s[4..]);
      if DecodeQuanta(s).Some? {
        var zero := QuantumShape(s[..4], false);
        var n: nat :| Quanta(s[4..], n);
        QuantaSplit(s, n);
      }
      if n: nat :| Quanta(s, n) {
        QuantaSplit(s, n);
        QuantumValue(s[..4], false, 0);
      }
    }
  }

  /** And three bytes come out of every four characters, fewer by the number of '=' at the end; the bits that do not
      fit are dropped. */
  lemma {:induction false} DecodedGroups(s: Text, n: nat, i: nat)
    requires Quanta(s, n) && 4 * i + 4 <= |s|
    ensures DecodeQuanta(s).Some? && |DecodeQuanta(s).value| == |s| / 4 * 3 - n
    ensures BytesValue(From(DecodeQuanta(s).value, 3 * i))
         == Cleared(SextetsValue(From(s, 4 * i)), if 4 * i + 4 == |s| then n else 0)
    decreases |s|
  {
    if |s| == 4 {
      QuantumValue(s, true, n);
      LastQuantum(s, DecodeQuantum(s, true).value);
    } else {
      var q, tail := s[..4], s[4..];
      QuantaSplit(s, n);
      QuantumValue(q, false, 0);
      DecodedGroups(tail, n, if i == 0 then 0 else i - 1);
      assert s == q + tail;
      var d, rest := DecodeQuantum(q, false).value, DecodeQuanta(tail).value;
      QuantaBuild(q, tail);
      if i == 0 {
        FirstGroup(q, tail, d, rest);
      } else {
        LaterGroup(q, tail, d, rest, i);
      }
    }
  }

  lemma FirstGroup(q: Text, s: Text, a: Text, d: Text)
    requires |q| == 4 && |a| == 3
    ensures SextetsValue(From(q + s, 0)) == SextetsValue(q) && BytesValue(From(a + d, 0)) == BytesValue(a)
  {}

  // ---------- the constant "Salted__" prefix ----------

  /** "Salted__" */
  const SALTED: Text := [83, 97, 108, 116, 101, 100, 95, 95]
  /** "U2FsdGVkX1" */
  const B64_SALT_PREFIX: Text := [85, 50, 70, 115, 100, 71, 86, 107, 88, 49]

  lemma HeaderGroups(x: Byte)
    ensures Group(83, 97, 108) == B64_SALT_PREFIX[..4]
    ensures Group(116, 101, 100) == B64_SALT_PREFIX[4..8]
    ensures Group(95, 95, x)[..2] == B64_SALT_PREFIX[8..]
  {}

  lemma EncodeGroup(a: Byte, b: Byte, c: Byte, tail: Text)
    ensures EncodeStd([a, b, c] + tail) == Group(a, b, c) + EncodeStd(tail)
  {
    assert ([a, b, c] + tail)[3..] == tail;
  }

  lemma HeaderText(x: Byte, rest: Text)
    ensures B64_SALT_PREFIX <= Group(83, 97, 108) + (Group(116, 101, 100) + (Group(95, 95, x) + rest))
  {
    HeaderGroups(x);
    assert B64_SALT_PREFIX == B64_SALT_PREFIX[..4] + (B64_SALT_PREFIX[4..8] + B64_SALT_PREFIX[8..]);
  }

  /** Whatever follows the header, its encoding begins with the ten characters the wire format drops. */
  lemma SaltedPrefix(tail: Text)
    requires tail != []
    ensures B64_SALT_PREFIX <= Encode(SALTED + tail)
    ensures |Encode(SALTED + tail)| > |B64_SALT_PREFIX|
  {
    var t1 := [95, 95, tail[0]] + tail[1..];
    var t2 := [116, 101, 100] + t1;
    assert SALTED + tail == [83, 97, 108] + t2;
    EncodeGroup(83, 97, 108, t2);
    EncodeGroup(116, 101, 100, t1);
    EncodeGroup(95, 95, tail[0], tail[1..]);
    HeaderText(tail[0], EncodeStd(tail[1..]));
    PrefixKept(SALTED + tail);
  }

  lemma PrefixKept(d: Text)
    requires B64_SALT_PREFIX <= EncodeStd(d) && |d| > 8
    ensures B64_SALT_PREFIX <= Encode(d) && |Encode(d)| > |B64_SALT_PREFIX|
  {
    EncodeShape(d);
  }

  /** The characters whose 6-bit value starts with 1111: '8', '9', '+' and '/'. */
  predicate ClosesHeader(c: Byte) {
    c == '8' as int || c == '9' as int || c == '+' as int || c == '/' as int
  }

  lemma ClosesHeaderValue(c: Byte)
    ensures ClosesHeader(c) <==> DecodeChar(c).Some? && DecodeChar(c).value / 4 == 15
  {}

  /** The receiver's header test depends on one wire character only: the first that is not a line break. */
  lemma HeaderCheck(wire: Text, data: Text)
    requires Decode(B64_SALT_PREFIX + wire) == Some(data)
    requires |data| >= 8
    ensures data[..8] == SALTED <==> StripNewlines(wire) != [] && ClosesHeader(StripNewlines(wire)[0])
  {
    PrefixClean();
    var n := DecodeAppend(B64_SALT_PREFIX, wire);
    HeaderPadded(StripNewlines(wire), n, data);
  }

  lemma PrefixClean()
    ensures CR !in B64_SALT_PREFIX && LF !in B64_SALT_PREFIX
  {}

  lemma HeaderPadded(v: Text, n: nat, data: Text)
    requires DecodeQuanta(B64_SALT_PREFIX + (v + Repeat(EQUALS, n))) == Some(data)
    requires |data| >= 8
    ensures data[..8] == SALTED <==> v != [] && ClosesHeader(v[0])
  {
    var w := v + Repeat(EQUALS, n);
    HeaderQuanta(w, data);
    assert w[0] == if v != [] then v[0] else EQUALS;
  }

  lemma DecodeAppend(p: Text, wire: Text) returns (n: nat)
    requires CR !in p && LF !in p
    ensures Decode(p + wire) == DecodeQuanta(p + (StripNewlines(wire) + Repeat(EQUALS, n)))
  {
    var s := p + wire;
    n := if |s| % 4 == 0 then 0 else 4 - |s| % 4;
    var pad := Repeat(EQUALS, n);
    assert Repad(s) == s + pad;
    StripNothing(p);
    StripNothing(pad);
    StripAppend(p, wire);
    StripAppend(s, pad);
    assert p + StripNewlines(wire) + pad == p + (StripNewlines(wire) + pad);
  }

  lemma QuantaStep(q: Text, tail: Text)
    requires |q| == 4 && DecodeQuanta(q + tail).Some?
    ensures DecodeQuantum(q, tail == []).Some? && DecodeQuanta(tail).Some?
    ensures DecodeQuanta(q + tail).value == DecodeQuantum(q, tail == []).value + DecodeQuanta(tail).value
  {
    assert (q + tail)[..4] == q && (q + tail)[4..] == tail;
  }

  /** What a decoded quantum says about its characters. */
  lemma QuantumBytes(q: Text, last: bool)
    requires |q| == 4 && DecodeQuantum(q, last).Some?
    requires DecodeChar(q[0]) == Some(23) && DecodeChar(q[1]) == Some(53)
    ensures var d := DecodeQuantum(q, last).value;
      && 1 <= |d| <= 3 && d[0] == 95
      && (|d| == 1 ==> last && q[2] == EQUALS)
      && (|d| >= 2 ==> DecodeChar(q[2]).Some? && d[1] == 80 + DecodeChar(q[2]).value / 4)
  {}

  lemma PrefixGroups(w: Text)
    ensures B64_SALT_PREFIX + w == Group(83, 97, 108) + (Group(116, 101, 100) + ([88, 49] + w))
  {
    HeaderGroups(0);
  }

  /** The first seven bytes are fixed, and so is the high half of the eighth. */
  lemma HeaderQuanta(w: Text, data: Text)
    requires DecodeQuanta(B64_SALT_PREFIX + w) == Some(data)
    requires |data| >= 8
    ensures w != []
    ensures data[..8] == SALTED <==> ClosesHeader(w[0])
  {
    var q1, q2, t := Group(83, 97, 108), Group(116, 101, 100), [88, 49] + w;
    PrefixGroups(w);
    QuantaStep(q1, q2 + t);
    QuantumFull(83, 97, 108, false);
    QuantaStep(q2, t);
    QuantumFull(116, 101, 100, false);
    var rest := DecodeQuanta(t).value;
    HeaderBytes(data, rest);
    ThirdQuantum(w, rest);
  }

  lemma HeaderBytes(data: Text, rest: Text)
    requires |rest| >= 2 && data == [83, 97, 108] + ([116, 101, 100] + rest)
    ensures data[..8] == SALTED <==> rest[0] == 95 && rest[1] == 95
  {
    assert data[6] == rest[0] && data[7] == rest[1];
    assert data[0] == 83 && data[1] == 97 && data[2] == 108 && data[3] == 116 && data[4] == 101 && data[5] == 100;
    if data[..8] == SALTED {
      assert data[6] == SALTED[6] && data[7] == SALTED[7];
    }
  }

  lemma ThirdQuantum(w: Text, rest: Text)
    requires DecodeQuanta([88, 49] + w) == Some(rest)
    requires |rest| >= 2
    ensures w != [] && rest[0] == 95
    ensures rest[1] == 95 <==> ClosesHeader(w[0])
  {
    var t := [88, 49] + w;
    assert t[0] == 88 && t[1] == 49;
    WholeQuantum(t);
    assert t[2] == w[0];
    ThirdBytes(t[..4], t[4..], rest);
  }

  lemma WholeQuantum(t: Text)
    requires t != [] && DecodeQuanta(t).Some?
    ensures |t| >= 4
    ensures DecodeQuantum(t[..4], t[4..] == []).Some? && DecodeQuanta(t[4..]).Some?
    ensures DecodeQuanta(t).value == DecodeQuantum(t[..4], t[4..] == []).value + DecodeQuanta(t[4..]).value
  {
    assert |t| == 4 <==> t[4..] == [];
  }

  lemma ThirdBytes(q: Text, tail: Text, rest: Text)
    requires |q| == 4 && DecodeQuantum(q, tail == []).Some? && DecodeQuanta(tail).Some?
    requires q[0] == 88 && q[1] == 49
    requires rest == DecodeQuantum(q, tail == []).value + DecodeQuanta(tail).value
    requires |rest| >= 2
    ensures rest[0] == 95
    ensures rest[1] == 95 <==> ClosesHeader(q[2])
  {
    QuantumBytes(q, tail == []);
    EighthByte(q[2], DecodeQuantum(q, tail == []).value, DecodeQuanta(tail).value, tail == []);
  }

  lemma EighthByte(c: Byte, d: Text, more: Text, last: bool)
    requires 1 <= |d| <= 3 && |d + more| >= 2
    requires |d| == 1 ==> last
    requires last ==> more == []
    requires |d| >= 2 ==> DecodeChar(c).Some? && d[1] == 80 + DecodeChar(c).value / 4
    ensures (d + more)[0] == d[0]
    ensures (d + more)[1] == 95 <==> ClosesHeader(c)
  {
    ClosesHeaderValue(c);
  }
}
