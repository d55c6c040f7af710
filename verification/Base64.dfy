/**
  The base64 coder of the bundled Buffer. Shifts and masks on disjoint bit fields are
  written as multiplication, division, remainder and addition.
 */
module Base64 {
  import opened Sequences
  import opened Units
  import opened Wrappers

  type Sextet = i: int | 0 <= i < 64

  // ---------------------------------------------------------------------------
  // The alphabet of section 4 of RFC 4648

  function Letter(i: Sextet): char {
    if i < 26 then (i + 65) as char
    else if i < 52 then (i + 71) as char
    else if i < 62 then (i - 4) as char
    else if i == 62 then '+'
    else '/'
  }

  predicate InAlphabet(c: char) {
    'A' <= c <= 'Z' || 'a' <= c <= 'z' || '0' <= c <= '9' || c == '+' || c == '/'
  }

  /** The reverse table; it also knows the two URL-safe letters, and any other character
      reads as undefined, which the bit operators take as zero. */
  function Lookup(c: char): Sextet {
    if 'A' <= c <= 'Z' then c as int - 65
    else if 'a' <= c <= 'z' then c as int - 71
    else if '0' <= c <= '9' then c as int + 4
    else if c == '+' || c == '-' then 62
    else if c == '/' || c == '_' then 63
    else 0
  }

  lemma LookupLetter(i: Sextet)
    ensures InAlphabet(Letter(i)) && Lookup(Letter(i)) == i && Letter(i) != '='
  {}

  lemma LetterIs(i: Sextet, c: char)
    ensures Letter(i) == c <==> InAlphabet(c) && Lookup(c) == i
  {}

  // ---------------------------------------------------------------------------
  // Bit fields

  function Bytes2(b0: int, b1: int): int { b0 * 0x100 + b1 }
  function Bytes3(b0: int, b1: int, b2: int): int { b0 * 0x1_0000 + b1 * 0x100 + b2 }
  function Sextets4(a: int, b: int, c: int, d: int): int { a * 0x4_0000 + b * 0x1000 + c * 64 + d }

  /** The `sh`-bit right shift is a division by `d`; then the low six or eight bits. */
  function SextetAt(n: int, d: int): Sextet
    requires d > 0
  {
    n / d % 64
  }

  function ByteAt(n: int, d: int): Byte
    requires d > 0
  {
    n / d % 0x100
  }

  // ---------------------------------------------------------------------------
  // What is encoded

  function Quantum(b0: Byte, b1: Byte, b2: Byte): string {
    var n := Bytes3(b0, b1, b2);
    [Letter(SextetAt(n, 0x4_0000)), Letter(SextetAt(n, 0x1000)), Letter(SextetAt(n, 64)), Letter(SextetAt(n, 1))]
  }

  function OneByte(b0: Byte): string {
    [Letter(SextetAt(b0, 4)), Letter(SextetAt(16 * b0, 1)), '=', '=']
  }

  function TwoBytes(b0: Byte, b1: Byte): string {
    var n := Bytes2(b0, b1);
    [Letter(SextetAt(n, 0x400)), Letter(SextetAt(n, 16)), Letter(SextetAt(4 * n, 1)), '=']
  }

  /** The four letters of a group of one, two or three bytes. */
  function EncodeGroup(g: seq<Byte>): string {
    if |g| == 0 then []
    else if |g| == 1 then OneByte(g[0])
    else if |g| == 2 then TwoBytes(g[0], g[1])
    else Quantum(g[0], g[1], g[2])
  }

  /** Groups of three from the front, what is left being the last group. */
  function ByThrees(b: seq<Byte>, f: seq<Byte> -> string): string {
    if |b| == 0 then []
    else if |b| < 3 then f(b)
    else f(b[..3]) + ByThrees(b[3..], f)
  }

  function Encoded(b: seq<Byte>): string {
    ByThrees(b, EncodeGroup)
  }

  function Triple(c0: char, c1: char, c2: char, c3: char): seq<Byte> {
    var n := Sextets4(Lookup(c0), Lookup(c1), Lookup(c2), Lookup(c3));
    [ByteAt(n, 0x1_0000), ByteAt(n, 0x100), ByteAt(n, 1)]
  }

  function Single(c0: char, c1: char): seq<Byte> {
    [ByteAt(4 * Lookup(c0) + Lookup(c1) / 16, 1)]
  }

  function Pair(c0: char, c1: char, c2: char): seq<Byte> {
    var n := 0x400 * Lookup(c0) + 16 * Lookup(c1) + Lookup(c2) / 4;
    [ByteAt(n, 0x100), ByteAt(n, 1)]
  }

  function DecodeInner(g: string): seq<Byte> {
    if |g| == 4 then Triple(g[0], g[1], g[2], g[3]) else []
  }

  /** Padding is looked for in the last two characters of the string only. */
  function DecodeLast(g: string): seq<Byte> {
    if |g| != 4 then []
    else if g[2] == '=' then Single(g[0], g[1])
    else if g[3] == '=' then Pair(g[0], g[1], g[2])
    else Triple(g[0], g[1], g[2], g[3])
  }

  /** Groups of four characters, the last one treated on its own. */
  function ByFours(s: string, inner: string -> seq<Byte>, last: string -> seq<Byte>): seq<Byte>
    requires |s| % 4 == 0
  {
    if |s| == 0 then []
    else if |s| == 4 then last(s)
    else inner(s[..4]) + ByFours(s[4..], inner, last)
  }

  function Decoded(s: string): seq<Byte>
    requires |s| % 4 == 0
  {
    ByFours(s, DecodeInner, DecodeLast)
  }

  // ---------------------------------------------------------------------------
  // Digits

  /** Base 64 digits of a 24-bit number. */
  lemma SextetsOf(n: int)
    requires 0 <= n < 0x100_0000
    ensures Sextets4(SextetAt(n, 0x4_0000), SextetAt(n, 0x1000), SextetAt(n, 64), SextetAt(n, 1)) == n
  {
    assert n / 0x1000 == n / 0x4_0000 * 64 + n / 0x1000 % 64;
    assert n / 64 == n / 0x1000 * 64 + n / 64 % 64;
  }

  lemma OctetsOf(n: int)
    requires 0 <= n < 0x100_0000
    ensures Bytes3(ByteAt(n, 0x1_0000), ByteAt(n, 0x100), ByteAt(n, 1)) == n
  {
    assert n / 0x100 == n / 0x1_0000 * 0x100 + n / 0x100 % 0x100;
  }

  lemma OctetsAre(b0: Byte, b1: Byte, b2: Byte)
    ensures var n := Bytes3(b0, b1, b2);
      ByteAt(n, 0x1_0000) == b0 && ByteAt(n, 0x100) == b1 && ByteAt(n, 1) == b2
  {
    var n := Bytes3(b0, b1, b2);
    assert n / 0x100 == Bytes2(b0, b1) && n / 0x1_0000 == b0;
  }

  lemma SextetsAre(a: Sextet, b: Sextet, c: Sextet, d: Sextet)
    ensures var n := Sextets4(a, b, c, d);
      SextetAt(n, 0x4_0000) == a && SextetAt(n, 0x1000) == b && SextetAt(n, 64) == c && SextetAt(n, 1) == d
  {
    var q: int := 64 * a + b;
    var r: int := 64 * q + c;
    NestedSextets(r, q, a, b, c);
    LastSextet(64 * r + d, r, d);
    assert Sextets4(a, b, c, d) == 64 * r + d;
  }

  lemma NestedSextets(r: int, q: int, a: Sextet, b: Sextet, c: Sextet)
    requires q == 64 * a + b && r == 64 * q + c
    ensures r % 64 == c && r / 64 == q && q % 64 == b && r / 0x1000 == a
  {
    LastSextet(r, q, c);
    LastSextet(q, a, b);
  }

  lemma LastSextet(n: int, q: int, d: Sextet)
    requires q >= 0 && n == 64 * q + d
    ensures n / 64 == q && n % 64 == d
    ensures n / 0x1000 == q / 64 && n / 0x4_0000 == q / 0x1000
  {}

  lemma TripleOfQuantum(b0: Byte, b1: Byte, b2: Byte)
    ensures var q := Quantum(b0, b1, b2);
      Triple(q[0], q[1], q[2], q[3]) == [b0, b1, b2] && q[2] != '=' && q[3] != '='
  {
    var n := Bytes3(b0, b1, b2);
    SextetsOf(n);
    OctetsAre(b0, b1, b2);
    LookupLetter(SextetAt(n, 0x4_0000));
    LookupLetter(SextetAt(n, 0x1000));
    LookupLetter(SextetAt(n, 64));
    LookupLetter(SextetAt(n, 1));
  }

  lemma SingleOfOneByte(b0: Byte)
    ensures var q := OneByte(b0); Single(q[0], q[1]) == [b0]
  {
    LookupLetter(SextetAt(b0, 4));
    LookupLetter(SextetAt(16 * b0, 1));
    LowBits(b0, 4, 16);
  }

  /** Shifting up and cutting to six bits keeps the low bits in the upper places. */
  lemma LowBits(n: int, d: int, e: int)
    requires n >= 0 && ((d == 4 && e == 16) || (d == 16 && e == 4))
    ensures e * n / 1 % 64 == e * (n % d)
  {
    var q, r := n / d, n % d;
    assert n == d * q + r;
    assert e * n == 64 * q + e * r;
  }

  lemma PairOfTwoBytes(b0: Byte, b1: Byte)
    ensures var q := TwoBytes(b0, b1); Pair(q[0], q[1], q[2]) == [b0, b1] && q[2] != '='
  {
    var n := Bytes2(b0, b1);
    var x, y, z := SextetAt(n, 0x400), SextetAt(n, 16), SextetAt(4 * n, 1);
    LookupLetter(x);
    LookupLetter(y);
    LookupLetter(z);
    assert z / 4 == n % 16 by { LowBits(n, 16, 4); }
    TenSixFour(n);
    TwoOctets(b0, b1);
  }

  lemma TwoOctets(b0: Byte, b1: Byte)
    ensures ByteAt(Bytes2(b0, b1), 0x100) == b0 && ByteAt(Bytes2(b0, b1), 1) == b1
  {}

  /** The sixteen bits of two letters and the upper four of a third. */
  lemma PairBits(a: Sextet, b: Sextet, c: Sextet)
    ensures var n := 0x400 * a + 16 * b + c / 4;
      && SextetAt(n, 0x400) == a && SextetAt(n, 16) == b && SextetAt(4 * n, 1) == 4 * (c / 4)
      && Bytes2(ByteAt(n, 0x100), ByteAt(n, 1)) == n
  {
    var n := 0x400 * a + 16 * b + c / 4;
    LowBits(n, 16, 4);
    assert n / 16 == 64 * a + b && n % 16 == c / 4;
    assert n / 0x400 == a;
  }

  lemma TenSixFour(n: int)
    requires 0 <= n < 0x1_0000
    ensures 0x400 * SextetAt(n, 0x400) + 16 * SextetAt(n, 16) + n % 16 == n
  {
    assert n / 16 == n / 0x400 * 64 + n / 16 % 64;
  }

  lemma QuantumOfTriple(c0: char, c1: char, c2: char, c3: char)
    ensures var t := Triple(c0, c1, c2, c3);
      Quantum(t[0], t[1], t[2]) == [c0, c1, c2, c3]
      <==> InAlphabet(c0) && InAlphabet(c1) && InAlphabet(c2) && InAlphabet(c3)
  {
    var a, b, c, d := Lookup(c0), Lookup(c1), Lookup(c2), Lookup(c3);
    OctetsOf(Sextets4(a, b, c, d));
    SextetsAre(a, b, c, d);
    var t := Triple(c0, c1, c2, c3);
    assert Quantum(t[0], t[1], t[2]) == [Letter(a), Letter(b), Letter(c), Letter(d)];
    SameFour(a, b, c, d, c0, c1, c2, c3);
  }

  lemma SameFour(a: Sextet, b: Sextet, c: Sextet, d: Sextet, c0: char, c1: char, c2: char, c3: char)
    requires a == Lookup(c0) && b == Lookup(c1) && c == Lookup(c2) && d == Lookup(c3)
    ensures [Letter(a), Letter(b), Letter(c), Letter(d)] == [c0, c1, c2, c3]
      <==> InAlphabet(c0) && InAlphabet(c1) && InAlphabet(c2) && InAlphabet(c3)
  {
    LetterIs(a, c0);
    LetterIs(b, c1);
    LetterIs(c, c2);
    LetterIs(d, c3);
    var e := [Letter(a), Letter(b), Letter(c), Letter(d)];
    assert e[0] == Letter(a) && e[1] == Letter(b) && e[2] == Letter(c) && e[3] == Letter(d);
  }

  lemma OneByteOfSingle(c0: char, c1: char)
    ensures OneByte(Single(c0, c1)[0]) == [c0, c1, '=', '=']
      <==> InAlphabet(c0) && InAlphabet(c1) && Lookup(c1) % 16 == 0
  {
    var a, b := Lookup(c0), Lookup(c1);
    SingleBits(a, b);
    var m := 16 * (b / 16);
    var e := OneByte(Single(c0, c1)[0]);
    assert e == [Letter(a), Letter(m), '=', '='];
    assert e[0] == Letter(a) && e[1] == Letter(m);
    LetterIs(a, c0);
    LetterIs(m, c1);
  }

  lemma SingleBits(a: Sextet, b: Sextet)
    ensures var n := 4 * a + b / 16;
      ByteAt(n, 1) == n && SextetAt(n, 4) == a && SextetAt(16 * n, 1) == 16 * (b / 16)
  {
    var n := 4 * a + b / 16;
    LowBits(n, 4, 16);
    assert n / 4 == a && n % 4 == b / 16;
  }

  lemma TwoBytesOfPair(c0: char, c1: char, c2: char)
    ensures var d := Pair(c0, c1, c2);
      TwoBytes(d[0], d[1]) == [c0, c1, c2, '=']
      <==> InAlphabet(c0) && InAlphabet(c1) && InAlphabet(c2) && Lookup(c2) % 4 == 0
  {
    var a, b, c := Lookup(c0), Lookup(c1), Lookup(c2);
    var m := 4 * (c / 4);
    TwoBytesIs(c0, c1, c2);
    var e := [Letter(a), Letter(b), Letter(m), '='];
    assert e[0] == Letter(a) && e[1] == Letter(b) && e[2] == Letter(m);
    LetterIs(a, c0);
    LetterIs(b, c1);
    LetterIs(m, c2);
  }

  lemma TwoBytesIs(c0: char, c1: char, c2: char)
    ensures var d := Pair(c0, c1, c2);
      TwoBytes(d[0], d[1]) == [Letter(Lookup(c0)), Letter(Lookup(c1)), Letter(4 * (Lookup(c2) / 4)), '=']
  {
    var a: int, b: int, c: int := Lookup(c0), Lookup(c1), Lookup(c2);
    PairBits(a, b, c);
    LettersOfTwo(Pair(c0, c1, c2)[0], Pair(c0, c1, c2)[1], 0x400 * a + 16 * b + c / 4);
  }

  lemma LettersOfTwo(b0: Byte, b1: Byte, n: int)
    requires n == Bytes2(b0, b1)
    ensures TwoBytes(b0, b1)
         == [Letter(SextetAt(n, 0x400)), Letter(SextetAt(n, 16)), Letter(SextetAt(4 * n, 1)), '=']
  {}

  // ---------------------------------------------------------------------------
  // Round trips

  ghost predicate FourLetters(f: seq<Byte> -> string) {
    forall g :: 1 <= |g| <= 3 ==> |f(g)| == 4
  }

  lemma {:induction false} ByThreesLength(b: seq<Byte>, f: seq<Byte> -> string)
    requires FourLetters(f)
    ensures |ByThrees(b, f)| == 4 * ((|b| + 2) / 3)
  {
    if |b| >= 3 { ByThreesLength(b[3..], f); }
  }

  ghost predicate ThreeBytes(inner: string -> seq<Byte>) {
    forall g :: |g| == 4 ==> |inner(g)| == 3
  }

  /** Encoding can be cut wherever a whole number of triples lies before the cut. */
  lemma {:induction false} ByThreesAppend(a: seq<Byte>, b: seq<Byte>, f: seq<Byte> -> string)
    requires |a| % 3 == 0
    ensures ByThrees(a + b, f) == ByThrees(a, f) + ByThrees(b, f)
  {
    if |a| == 0 {
      assert a + b == b;
    } else {
      ByThreesAppend(a[3..], b, f);
      assert (a + b)[3..] == a[3..] + b && (a + b)[..3] == a[..3];
    }
  }

  /** Group codes that are undone group by group are undone on the whole. */
  lemma {:induction false} ByFoursOfByThrees(b: seq<Byte>, f: seq<Byte> -> string,
                                             inner: string -> seq<Byte>, last: string -> seq<Byte>)
    requires FourLetters(f)
    requires forall g {:trigger last(f(g))} :: 1 <= |g| <= 3 ==> last(f(g)) == g
    requires forall g {:trigger inner(f(g))} :: |g| == 3 ==> inner(f(g)) == g
    ensures |ByThrees(b, f)| % 4 == 0 && ByFours(ByThrees(b, f), inner, last) == b
    decreases |b|
  {
    ByThreesLength(b, f);
    if 1 <= |b| <= 3 {
      OneGroup(b, f);
    } else if |b| > 3 {
      ByThreesLength(b[3..], f);
      ByFoursOfByThrees(b[3..], f, inner, last);
      UndoFirst(b[..3], b[3..], ByThrees(b[3..], f), f, inner, last);
    }
  }

  lemma UndoFirst(g: seq<Byte>, rest: seq<Byte>, s: string, f: seq<Byte> -> string,
                  inner: string -> seq<Byte>, last: string -> seq<Byte>)
    requires |f(g)| == 4 && inner(f(g)) == g
    requires |s| > 0 && |s| % 4 == 0 && ByFours(s, inner, last) == rest
    ensures ByFours(f(g) + s, inner, last) == g + rest
  {
    FirstFour(f(g), s, inner, last);
  }

  lemma FirstFour(g: string, s: string, inner: string -> seq<Byte>, last: string -> seq<Byte>)
    requires |g| == 4 && |s| > 0 && |s| % 4 == 0
    ensures ByFours(g + s, inner, last) == inner(g) + ByFours(s, inner, last)
  {
    assert (g + s)[..4] == g && (g + s)[4..] == s;
  }

  lemma GroupsAreUndone()
    ensures FourLetters(EncodeGroup)
    ensures forall g :: 1 <= |g| <= 3 ==> DecodeLast(EncodeGroup(g)) == g
    ensures forall g :: |g| == 3 ==> DecodeInner(EncodeGroup(g)) == g
  {
    forall g: seq<Byte> | 1 <= |g| <= 3
      ensures |EncodeGroup(g)| == 4 && DecodeLast(EncodeGroup(g)) == g
      ensures |g| == 3 ==> DecodeInner(EncodeGroup(g)) == g
    {
      if |g| == 1 {
        SingleOfOneByte(g[0]);
      } else if |g| == 2 {
        PairOfTwoBytes(g[0], g[1]);
      } else {
        TripleOfQuantum(g[0], g[1], g[2]);
      }
    }
  }

  lemma EncodedLength(b: seq<Byte>)
    ensures |Encoded(b)| == 4 * ((|b| + 2) / 3)
  {
    GroupsAreUndone();
    ByThreesLength(b, EncodeGroup);
  }

  /** Decoding undoes encoding on every byte sequence. */
  lemma DecodedEncoded(b: seq<Byte>)
    ensures |Encoded(b)| % 4 == 0 && Decoded(Encoded(b)) == b
  {
    GroupsAreUndone();
    ByFoursOfByThrees(b, EncodeGroup, DecodeInner, DecodeLast);
  }

  // ---------------------------------------------------------------------------
  // Canonical strings

  /** Four letters of the standard alphabet. */
  predicate WholeGroup(g: string) {
    |g| == 4 && InAlphabet(g[0]) && InAlphabet(g[1]) && InAlphabet(g[2]) && InAlphabet(g[3])
  }

  /** A last group: whole, or padded with all unused bits zero. */
  predicate FinalGroup(g: string) {
    || WholeGroup(g)
    || (|g| == 4 && InAlphabet(g[0]) && InAlphabet(g[1]) && InAlphabet(g[2]) && Lookup(g[2]) % 4 == 0 && g[3] == '=')
    || (|g| == 4 && InAlphabet(g[0]) && InAlphabet(g[1]) && Lookup(g[1]) % 16 == 0 && g[2] == '=' && g[3] == '=')
  }

  predicate EachGroup(s: string, whole: string -> bool, final: string -> bool) {
    if |s| <= 4 then |s| == 0 || final(s) else whole(s[..4]) && EachGroup(s[4..], whole, final)
  }

  predicate Canonical(s: string) {
    EachGroup(s, WholeGroup, FinalGroup)
  }

  lemma LastGroup(s: string, f: seq<Byte> -> string, inner: string -> seq<Byte>, last: string -> seq<Byte>,
                  whole: string -> bool, final: string -> bool)
    requires |s| == 4 && 1 <= |last(s)| <= 3 && (f(last(s)) == s <==> final(s))
    ensures ByThrees(ByFours(s, inner, last), f) == s <==> EachGroup(s, whole, final)
  {
    OneGroup(last(s), f);
  }

  lemma FirstGroup(s: string, f: seq<Byte> -> string, inner: string -> seq<Byte>, last: string -> seq<Byte>,
                   whole: string -> bool, final: string -> bool)
    requires |s| > 4 && |s| % 4 == 0
    requires |inner(s[..4])| == 3 && |f(inner(s[..4]))| == 4 && (f(inner(s[..4])) == s[..4] <==> whole(s[..4]))
    requires ByThrees(ByFours(s[4..], inner, last), f) == s[4..] <==> EachGroup(s[4..], whole, final)
    ensures ByThrees(ByFours(s, inner, last), f) == s <==> EachGroup(s, whole, final)
  {
    SplitFirst(s, f, inner(s[..4]), ByFours(s[4..], inner, last));
  }

  lemma OneGroup(g: seq<Byte>, f: seq<Byte> -> string)
    requires 1 <= |g| <= 3
    ensures ByThrees(g, f) == f(g)
  {
    if |g| == 3 { assert g[..3] == g && g[3..] == []; }
  }

  lemma SplitFirst(s: string, f: seq<Byte> -> string, t: seq<Byte>, rest: seq<Byte>)
    requires |s| > 4 && |t| == 3 && |f(t)| == 4
    ensures ByThrees(t + rest, f) == s <==> f(t) == s[..4] && ByThrees(rest, f) == s[4..]
  {
    assert (t + rest)[..3] == t && (t + rest)[3..] == rest;
    SameParts(f(t), ByThrees(rest, f), s[..4], s[4..]);
    assert s == s[..4] + s[4..];
  }

  /** Which groups survive decoding and encoding. */
  lemma Survives(g: string)
    requires |g| == 4
    ensures |DecodeInner(g)| == 3 && (EncodeGroup(DecodeInner(g)) == g <==> WholeGroup(g))
    ensures 1 <= |DecodeLast(g)| <= 3 && (EncodeGroup(DecodeLast(g)) == g <==> FinalGroup(g))
    ensures |EncodeGroup(DecodeInner(g))| == 4
  {
    assert g == [g[0], g[1], g[2], g[3]];
    QuantumOfTriple(g[0], g[1], g[2], g[3]);
    if g[2] == '=' {
      OneByteOfSingle(g[0], g[1]);
    } else if g[3] == '=' {
      TwoBytesOfPair(g[0], g[1], g[2]);
    }
  }

  /** Encoding undoes decoding exactly on canonical strings. */
  lemma {:induction false} EncodedDecoded(s: string)
    requires |s| % 4 == 0
    ensures Encoded(Decoded(s)) == s <==> Canonical(s)
  {
    if |s| == 4 {
      Survives(s);
      LastGroup(s, EncodeGroup, DecodeInner, DecodeLast, WholeGroup, FinalGroup);
    } else if |s| > 4 {
      EncodedDecoded(s[4..]);
      Survives(s[..4]);
      FirstGroup(s, EncodeGroup, DecodeInner, DecodeLast, WholeGroup, FinalGroup);
    }
  }

  lemma QuadsAreTriples()
    ensures ThreeBytes(DecodeInner)
  {
    forall g: string | |g| == 4 ensures |DecodeInner(g)| == 3 {}
  }

  // ---------------------------------------------------------------------------
  // The decoder

  /** How many of the last two characters the decoder takes for padding. */
  function Placeholders(s: string): nat {
    if |s| >= 2 && s[|s| - 2] == '=' then 2 else if |s| >= 1 && s[|s| - 1] == '=' then 1 else 0
  }

  lemma {:induction false} ByFoursAppend(a: string, g: string, inner: string -> seq<Byte>, last: string -> seq<Byte>)
    requires |a| % 4 == 0 && |g| == 4
    ensures ByFours(a + g, inner, last) == ByFours(a, inner, inner) + last(g)
  {
    if |a| == 0 {
      assert a + g == g;
    } else {
      ByFoursAppend(a[4..], g, inner, last);
      assert (a + g)[..4] == a[..4] && (a + g)[4..] == a[4..] + g;
      if |a| == 4 { assert a[4..] == [] && a[..4] == a; }
    }
  }

  /** The part of the string that is decoded without regard to padding. */
  function Plain(s: string): seq<Byte>
    requires |s| % 4 == 0
  {
    ByFours(s, DecodeInner, DecodeInner)
  }

  method ToByteArray(s: string) returns (r: Option<array<Byte>>)
    ensures r.None? <==> |s| % 4 != 0
    ensures r.Some? ==> fresh(r.value) && r.value[..] == Decoded(s)
  {
    var len := |s|;
    if len % 4 > 0 { return None; }
    var placeHolders := Placeholders(s);
    var arr := new Byte[3 * len / 4 - placeHolders](_ => 0);
    QuadsAreTriples();
    if placeHolders == 0 {
      DecodedPlain(s);
      assert s[..len] == s;
      var h := DecodeQuads(s, len, arr, DecodeInner);
      assert arr[..h] == arr[..];
    } else {
      DecodedPadded(s);
      DecodeAllPadded(s, placeHolders, arr, DecodeInner);
    }
    r := Some(arr);
  }

  method DecodeAllPadded(s: string, placeHolders: nat, arr: array<Byte>, inner: string -> seq<Byte>)
    requires |s| % 4 == 0 && placeHolders == Placeholders(s) > 0 && ThreeBytes(inner)
    requires arr.Length == 3 * |s| / 4 - placeHolders
    modifies arr
    ensures arr[..] == ByFours(s[..|s| - 4], inner, inner) + DecodeLast(s[|s| - 4..])
  {
    var l := |s| - 4;
    var h := DecodeQuads(s, l, arr, inner);
    DecodeTail(s, l, placeHolders, arr, h);
  }

  /** The last group when it is padded: one or two bytes. */
  method DecodeTail(s: string, l: nat, placeHolders: nat, arr: array<Byte>, h: nat)
    requires |s| == l + 4 && placeHolders == Placeholders(s) > 0 && arr.Length == h + 3 - placeHolders
    modifies arr
    ensures arr[..] == old(arr[..h]) + DecodeLast(s[l..])
  {
    var c0: int, c1: int, c2: int := Lookup(s[l]), Lookup(s[l + 1]), Lookup(s[l + 2]);
    if placeHolders == 2 {
      arr[h] := ByteAt(4 * c0 + c1 / 16, 1);
    } else {
      var n := 0x400 * c0 + 16 * c1 + c2 / 4;
      arr[h] := ByteAt(n, 0x100);
      arr[h + 1] := ByteAt(n, 1);
    }
    assert arr[..h] == old(arr[..h]) && arr[..] == arr[..h] + arr[h..];
    assert arr[h..] == if placeHolders == 2 then [arr[h]] else [arr[h], arr[h + 1]];
  }

  /** The loop over the groups before `l`, three bytes each. */
  method DecodeQuads(s: string, l: nat, arr: array<Byte>, inner: string -> seq<Byte>) returns (h: nat)
    requires l <= |s| && l % 4 == 0 && ThreeBytes(inner) && l / 4 * 3 <= arr.Length
    modifies arr
    ensures h == l / 4 * 3 && arr[..h] == ByFours(s[..l], inner, inner)
  {
    var i := 0;
    h := 0;
    while i < l
      invariant 0 <= i <= l && i % 4 == 0 && h == i / 4 * 3
      invariant arr[..h] == ByFours(s[..i], inner, inner)
    {
      assert s[..i + 4] == s[..i] + s[i..i + 4];
      ByFoursAppend(s[..i], s[i..i + 4], inner, inner);
      ghost var done := arr[..h];
      var t := inner(s[i..i + 4]);
      arr[h], arr[h + 1], arr[h + 2] := t[0], t[1], t[2];
      assert arr[..h + 3] == done + t;
      i, h := i + 4, h + 3;
    }
  }

  lemma SplitLast(s: string, inner: string -> seq<Byte>, last: string -> seq<Byte>)
    requires |s| % 4 == 0 && |s| > 0
    ensures ByFours(s, inner, last) == ByFours(s[..|s| - 4], inner, inner) + last(s[|s| - 4..])
  {
    assert s == s[..|s| - 4] + s[|s| - 4..];
    ByFoursAppend(s[..|s| - 4], s[|s| - 4..], inner, last);
  }

  lemma DecodedPadded(s: string)
    requires |s| % 4 == 0 && Placeholders(s) > 0
    ensures |s| >= 4 && Decoded(s) == Plain(s[..|s| - 4]) + DecodeLast(s[|s| - 4..])
  {
    SplitLast(s, DecodeInner, DecodeLast);
  }

  lemma DecodedPlain(s: string)
    requires |s| % 4 == 0 && Placeholders(s) == 0
    ensures Decoded(s) == Plain(s)
  {
    if |s| > 0 {
      var g := s[|s| - 4..];
      UnpaddedGroup(g);
      SplitLast(s, DecodeInner, DecodeLast);
      SplitLast(s, DecodeInner, DecodeInner);
    }
  }

  lemma UnpaddedGroup(g: string)
    requires |g| == 4 && g[2] != '=' && g[3] != '='
    ensures DecodeLast(g) == DecodeInner(g)
  {}

  // ---------------------------------------------------------------------------
  // The encoder

  /** The bytes [start, end) in whole triples. */
  method EncodeChunk(bytes: array<Byte>, start: nat, end: nat, triplet: seq<Byte> -> string) returns (output: string)
    requires start <= end <= bytes.Length && (end - start) % 3 == 0
    ensures output == ByThrees(bytes[start..end], triplet)
  {
    output := [];
    var i := start;
    assert bytes[start..start] == [];
    while i < end
      invariant start <= i <= end && (i - start) % 3 == 0
      invariant output == ByThrees(bytes[start..i], triplet)
    {
      ByThreesAppend(bytes[start..i], bytes[i..i + 3], triplet);
      assert bytes[start..i] + bytes[i..i + 3] == bytes[start..i + 3];
      OneGroup(bytes[i..i + 3], triplet);
      output := output + triplet(bytes[i..i + 3]);
      i := i + 3;
    }
  }

  const MAX_CHUNK: nat := 16383

  /** The loop over chunks; 16383 is a multiple of three, so no group is cut. */
  method EncodeChunks(bytes: array<Byte>, whole: nat, triplet: seq<Byte> -> string) returns (output: string)
    requires whole <= bytes.Length && whole % 3 == 0
    ensures output == ByThrees(bytes[..whole], triplet)
  {
    output := [];
    var i := 0;
    ghost var b := bytes[..whole];
    ghost var done := 0;
    while i < whole
      invariant i % 3 == 0 && done == if i < whole then i else whole
      invariant output == ByThrees(b[..done], triplet)
    {
      var end := if i + MAX_CHUNK > whole then whole else i + MAX_CHUNK;
      var part := EncodeChunk(bytes, i, end, triplet);
      assert bytes[i..end] == b[i..end];
      Extend(b, i, end, triplet);
      output := output + part;
      i, done := i + MAX_CHUNK, end;
    }
    assert b[..whole] == b;
  }

  lemma Extend(b: seq<Byte>, i: nat, end: nat, f: seq<Byte> -> string)
    requires i <= end <= |b| && i % 3 == 0
    ensures ByThrees(b[..i], f) + ByThrees(b[i..end], f) == ByThrees(b[..end], f)
  {
    ByThreesAppend(b[..i], b[i..end], f);
    assert b[..i] + b[i..end] == b[..end];
  }

  /** The last group of one or two bytes with its padding, if there is one. */
  method EncodeTail(bytes: array<Byte>, extra: nat) returns (output: string)
    requires extra < 3 && extra <= bytes.Length
    ensures output == EncodeGroup(bytes[bytes.Length - extra..])
  {
    var len := bytes.Length;
    output := "";
    if extra == 1 {
      var n: int := bytes[len - 1];
      output := output + [Letter(SextetAt(n, 4))] + [Letter(SextetAt(16 * n, 1))] + "==";
    } else if extra == 2 {
      var n := Bytes2(bytes[len - 2], bytes[len - 1]);
      output := output + [Letter(SextetAt(n, 0x400))] + [Letter(SextetAt(n, 16))] + [Letter(SextetAt(4 * n, 1))] + "=";
    }
  }

  method FromByteArray(bytes: array<Byte>) returns (output: string)
    ensures output == Encoded(bytes[..])
  {
    var extra := bytes.Length % 3;
    var whole := bytes.Length - extra;
    var tail := EncodeTail(bytes, extra);
    output := EncodeChunks(bytes, whole, EncodeGroup);
    output := output + tail;
    ByThreesAppend(bytes[..whole], bytes[whole..], EncodeGroup);
    assert bytes[..whole] + bytes[whole..] == bytes[..];
    if extra > 0 { OneGroup(bytes[whole..], EncodeGroup); }
  }

  // ---------------------------------------------------------------------------
  // What the letters and the bytes are, as numbers

  const UPPER := "ABCDEFGHIJKLMNOPQRSTUVWXYZ"
  const LOWER := "abcdefghijklmnopqrstuvwxyz"
  const NUMERALS := "0123456789"
  const ALPHABET := UPPER + LOWER + NUMERALS + "+/"

  lemma AlphabetIs(i: Sextet)
    ensures |ALPHABET| == 64 && Letter(i) == ALPHABET[i]
  {
    if i < 26 {
      UpperIs(i);
    } else if i < 52 {
      LowerIs(i - 26);
    } else if i < 62 {
      NumeralIs(i - 52);
    }
  }

  lemma UpperIs(i: int)
    requires 0 <= i < 26
    ensures |UPPER| == 26 && UPPER[i] == (i + 65) as char
  {}

  lemma LowerIs(i: int)
    requires 0 <= i < 26
    ensures |LOWER| == 26 && LOWER[i] == (i + 97) as char
  {}

  lemma NumeralIs(i: int)
    requires 0 <= i < 10
    ensures |NUMERALS| == 10 && NUMERALS[i] == (i + 48) as char
  {}

  /** The value of a character: its place in the alphabet, the last two places for the URL-safe
      letters, and zero for anything else. */
  ghost predicate HasValue(c: char, v: int) {
    if c == '-' then v == 62
    else if c == '_' then v == 63
    else if c in ALPHABET then 0 <= v < |ALPHABET| && ALPHABET[v] == c
    else v == 0
  }

  lemma LookupIs(c: char)
    ensures HasValue(c, Lookup(c))
  {
    LetterIs(Lookup(c), c);
    if InAlphabet(c) {
      AlphabetIs(Lookup(c));
    } else if c in ALPHABET {
      AlphabetIs(0);
      var i :| 0 <= i < |ALPHABET| && ALPHABET[i] == c;
      AlphabetIs(i);
      LookupLetter(i);
    }
  }

  /** The six-bit digits `v` hold the bits of the bytes, filled up with zeros at the end. */
  ghost predicate HoldBits(v: seq<int>, b: seq<int>) {
    && 1 <= |b| <= 3 && |v| == |b| + 1
    && (|b| == 1 ==> 64 * v[0] + v[1] == 16 * b[0])
    && (|b| == 2 ==> 4096 * v[0] + 64 * v[1] + v[2] == 4 * (256 * b[0] + b[1]))
    && (|b| == 3 ==> 262144 * v[0] + 4096 * v[1] + 64 * v[2] + v[3] == 65536 * b[0] + 256 * b[1] + b[2])
  }

  /** The letters of a group of bytes, with its padding. */
  lemma LettersOfGroup(g: seq<Byte>) returns (v: seq<Sextet>)
    requires 1 <= |g| <= 3
    ensures HoldBits(v, g)
    ensures Encoded(g) ==
      [Letter(v[0]), Letter(v[1]), if |g| >= 2 then Letter(v[2]) else '=', if |g| == 3 then Letter(v[3]) else '=']
  {
    OneGroup(g, EncodeGroup);
    if |g| == 1 {
      v := [SextetAt(g[0], 4), SextetAt(16 * g[0] as int, 1)];
      LowBits(g[0], 4, 16);
    } else if |g| == 2 {
      var n := Bytes2(g[0], g[1]);
      v := [SextetAt(n, 0x400), SextetAt(n, 16), SextetAt(4 * n, 1)];
      LowBits(n, 16, 4);
      TenSixFour(n);
    } else {
      var n := Bytes3(g[0], g[1], g[2]);
      v := [SextetAt(n, 0x4_0000), SextetAt(n, 0x1000), SextetAt(n, 64), SextetAt(n, 1)];
      SextetsOf(n);
    }
  }

  /** The bytes `b` are the first bits of the values. */
  ghost predicate AreFirstBits(b: seq<int>, v0: int, v1: int, v2: int, v3: int) {
    && (|b| == 1 ==> b[0] == (64 * v0 + v1) / 16)
    && (|b| == 2 ==> 256 * b[0] + b[1] == (4096 * v0 + 64 * v1 + v2) / 4)
    && (|b| == 3 ==> 65536 * b[0] + 256 * b[1] + b[2] == 262144 * v0 + 4096 * v1 + 64 * v2 + v3)
  }

  /** The bytes of a group of characters, fewer where the string ends with padding. */
  lemma BytesOfGroup(g: string, s: string) returns (b: seq<Byte>)
    requires |g| == 4 && |s| % 4 == 0
    ensures Decoded(g + s) == b + if s == [] then [] else Decoded(s)
    ensures |b| == if s != [] || (g[2] != '=' && g[3] != '=') then 3 else if g[2] != '=' then 2 else 1
    ensures AreFirstBits(b, Lookup(g[0]), Lookup(g[1]), Lookup(g[2]), Lookup(g[3]))
  {
    if s == [] {
      b := DecodeLast(g);
      assert g + s == g;
      LastBits(g);
    } else {
      b := DecodeInner(g);
      FirstFour(g, s, DecodeInner, DecodeLast);
      InnerBits(g);
    }
  }

  lemma InnerBits(g: string)
    requires |g| == 4
    ensures |DecodeInner(g)| == 3
    ensures AreFirstBits(DecodeInner(g), Lookup(g[0]), Lookup(g[1]), Lookup(g[2]), Lookup(g[3]))
  {
    OctetsOf(Sextets4(Lookup(g[0]), Lookup(g[1]), Lookup(g[2]), Lookup(g[3])));
  }

  lemma LastBits(g: string)
    requires |g| == 4
    ensures AreFirstBits(DecodeLast(g), Lookup(g[0]), Lookup(g[1]), Lookup(g[2]), Lookup(g[3]))
  {
    if g[2] == '=' {
      SingleBits(Lookup(g[0]), Lookup(g[1]));
    } else if g[3] == '=' {
      PairIsBits(g[0], g[1], g[2]);
    } else {
      InnerBits(g);
    }
  }

  lemma PairIsBits(c0: char, c1: char, c2: char)
    ensures var b: seq<int> := Pair(c0, c1, c2);
      256 * b[0] + b[1] == (4096 * Lookup(c0) as int + 64 * Lookup(c1) as int + Lookup(c2)) / 4
  {
    PairBits(Lookup(c0), Lookup(c1), Lookup(c2));
  }
}
