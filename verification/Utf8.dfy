/**
  The UTF-8 coder of the bundled Buffer. Strings are sequences of UTF-16 code units, as
  charCodeAt sees them. Shifts and masks on disjoint bit fields are written as division,
  remainder and addition.
 */
module Utf8 {
  import opened Sequences
  import opened Units
  import opened Wrappers

  type Scalar = c: int | 0 <= c < 0x11_0000 && !(0xD800 <= c < 0xE000)

  const REPLACEMENT: Scalar := 0xFFFD

  predicate IsSurrogate(u: Unit) { 0xD800 <= u < 0xE000 }
  predicate IsLead(u: Unit) { 0xD800 <= u < 0xDC00 }
  predicate IsTrail(u: Unit) { 0xDC00 <= u < 0xE000 }

  // ---------------------------------------------------------------------------
  // The two encoding forms

  function Utf16(c: Scalar): (r: seq<Unit>)
    ensures 1 <= |r| <= 2
  {
    if c < 0x1_0000 then [c]
    else [0xD800 + (c - 0x1_0000) / 0x400, 0xDC00 + (c - 0x1_0000) % 0x400]
  }

  function Utf16All(cs: seq<Scalar>): seq<Unit> {
    if cs == [] then [] else Utf16(cs[0]) + Utf16All(cs[1..])
  }

  predicate WellFormedUtf16(u: seq<Unit>) {
    if u == [] then true
    else if !IsSurrogate(u[0]) then WellFormedUtf16(u[1..])
    else IsLead(u[0]) && |u| > 1 && IsTrail(u[1]) && WellFormedUtf16(u[2..])
  }

  function Combined(lead: Unit, trail: Unit): Scalar
    requires IsLead(lead) && IsTrail(trail)
  {
    (lead - 0xD800) * 0x400 + (trail - 0xDC00) + 0x1_0000
  }

  /** Section 3 of RFC 3629. */
  function Utf8(c: Scalar): (r: seq<Byte>)
    ensures 1 <= |r| <= 4
  {
    if c < 0x80 then [c]
    else if c < 0x800 then [0xC0 + c / 0x40, 0x80 + c % 0x40]
    else if c < 0x1_0000 then [0xE0 + c / 0x1000, 0x80 + c / 0x40 % 0x40, 0x80 + c % 0x40]
    else [0xF0 + c / 0x4_0000, 0x80 + c / 0x1000 % 0x40, 0x80 + c / 0x40 % 0x40, 0x80 + c % 0x40]
  }

  function Utf8All(cs: seq<Scalar>): seq<Byte> {
    if cs == [] then [] else Utf8(cs[0]) + Utf8All(cs[1..])
  }

  predicate Tail(b: Byte) { 0x80 <= b <= 0xBF }

  /** The length of the UTF8-char production of section 4 of RFC 3629 that `b` starts with,
      or 0 when it starts with none. */
  function CharLength(b: seq<Byte>): (n: nat)
    ensures n <= |b|
  {
    if |b| >= 1 && b[0] <= 0x7F then 1
    else if |b| >= 2 && 0xC2 <= b[0] <= 0xDF && Tail(b[1]) then 2
    else if |b| >= 3 && Second3(b[0], b[1]) && Tail(b[2]) then 3
    else if |b| >= 4 && Second4(b[0], b[1]) && Tail(b[2]) && Tail(b[3]) then 4
    else 0
  }

  predicate WellFormedUtf8(b: seq<Byte>) {
    b == [] || (CharLength(b) > 0 && WellFormedUtf8(b[CharLength(b)..]))
  }

  /** The scalar value of the character that `b` starts with. */
  function CharValue(b: seq<Byte>): Scalar
    requires CharLength(b) > 0
  {
    match CharLength(b)
    case 1 => b[0]
    case 2 => Value2(b[0], b[1])
    case 3 => Table3(b[0], b[1], b[2]); Value3(b[0], b[1], b[2])
    case _ => Table4(b[0], b[1], b[2], b[3]); Value4(b[0], b[1], b[2], b[3])
  }

  function Value2(b0: int, b1: int): int { (b0 - 0xC0) * 0x40 + (b1 - 0x80) }
  function Value3(b0: int, b1: int, b2: int): int { (b0 - 0xE0) * 0x1000 + (b1 - 0x80) * 0x40 + (b2 - 0x80) }
  function Value4(b0: int, b1: int, b2: int, b3: int): int {
    (b0 - 0xF0) * 0x4_0000 + (b1 - 0x80) * 0x1000 + (b2 - 0x80) * 0x40 + (b3 - 0x80)
  }

  predicate Second3(b0: Byte, b1: Byte) {
    || (b0 == 0xE0 && 0xA0 <= b1 <= 0xBF)
    || (0xE1 <= b0 <= 0xEC && Tail(b1))
    || (b0 == 0xED && 0x80 <= b1 <= 0x9F)
    || (0xEE <= b0 <= 0xEF && Tail(b1))
  }

  predicate Second4(b0: Byte, b1: Byte) {
    || (b0 == 0xF0 && 0x90 <= b1 <= 0xBF)
    || (0xF1 <= b0 <= 0xF3 && Tail(b1))
    || (b0 == 0xF4 && 0x80 <= b1 <= 0x8F)
  }

  /** The table's ranges for the second byte say what the decoder tests on the value. */
  lemma Table3(b0: Byte, b1: Byte, b2: Byte)
    requires 0xE0 <= b0 <= 0xEF && Tail(b1) && Tail(b2)
    ensures var v := Value3(b0, b1, b2);
      && 0 <= v < 0x1_0000
      && (Second3(b0, b1) <==> v > 2047 && (v < 55296 || v > 57343))
  {}

  lemma Table4(b0: Byte, b1: Byte, b2: Byte, b3: Byte)
    requires 0xF0 <= b0 && Tail(b1) && Tail(b2) && Tail(b3)
    ensures var v := Value4(b0, b1, b2, b3);
      Second4(b0, b1) <==> v > 65535 && v < 1114112
  {}

  // ---------------------------------------------------------------------------
  // One character is coded without loss

  lemma CharOfScalar(c: Scalar, rest: seq<Byte>)
    ensures CharLength(Utf8(c) + rest) == |Utf8(c)|
    ensures CharValue(Utf8(c) + rest) == c
  {
    var b := Utf8(c) + rest;
    if c < 0x80 {
    } else if c < 0x800 {
      assert b[0] == Utf8(c)[0] && b[1] == Utf8(c)[1];
    } else if c < 0x1_0000 {
      assert b[0] == Utf8(c)[0] && b[1] == Utf8(c)[1] && b[2] == Utf8(c)[2];
      Digits3(c);
      Table3(b[0], b[1], b[2]);
    } else {
      assert b[0] == Utf8(c)[0] && b[1] == Utf8(c)[1] && b[2] == Utf8(c)[2] && b[3] == Utf8(c)[3];
      Digits4(c);
      Table4(b[0], b[1], b[2], b[3]);
    }
  }

  lemma Digits3(c: int)
    ensures c == c / 0x1000 * 0x1000 + c / 0x40 % 0x40 * 0x40 + c % 0x40
  {}

  lemma Digits4(c: int)
    ensures c == c / 0x4_0000 * 0x4_0000 + c / 0x1000 % 0x40 * 0x1000 + c / 0x40 % 0x40 * 0x40 + c % 0x40
  {
    assert c / 0x1000 == c / 0x4_0000 * 0x40 + c / 0x1000 % 0x40;
    assert c / 0x40 == c / 0x1000 * 0x40 + c / 0x40 % 0x40;
  }

  lemma ScalarOfChar(b: seq<Byte>)
    requires CharLength(b) > 0
    ensures Utf8(CharValue(b)) == b[..CharLength(b)]
  {
    match CharLength(b)
    case 1 =>
    case 2 => Digit(CharValue(b), b[0] - 0xC0, b[1]);
    case 3 => ThreeBytes(b[0], b[1], b[2]);
    case _ => FourBytes(b[0], b[1], b[2], b[3]);
  }

  lemma ThreeBytes(b0: Byte, b1: Byte, b2: Byte)
    requires Second3(b0, b1) && Tail(b2)
    ensures var v := Value3(b0, b1, b2);
      0x800 <= v < 0x1_0000 && !(0xD800 <= v < 0xE000) && Utf8(v) == [b0, b1, b2]
  {
    Table3(b0, b1, b2);
    Digit(Value3(b0, b1, b2), Value2(b0 - 0x20, b1), b2);
    Digit(Value2(b0 - 0x20, b1), b0 - 0xE0, b1);
  }

  lemma FourBytes(b0: Byte, b1: Byte, b2: Byte, b3: Byte)
    requires Second4(b0, b1) && Tail(b2) && Tail(b3)
    ensures var v := Value4(b0, b1, b2, b3);
      0x1_0000 <= v < 0x11_0000 && Utf8(v) == [b0, b1, b2, b3]
  {
    Table4(b0, b1, b2, b3);
    Digit(Value4(b0, b1, b2, b3), Value3(b0 - 0x10, b1, b2), b3);
    Digit(Value3(b0 - 0x10, b1, b2), Value2(b0 - 0x30, b1), b2);
    Digit(Value2(b0 - 0x30, b1), b0 - 0xF0, b1);
  }

  lemma Digit(c: int, high: int, b: Byte)
    requires Tail(b) && c == high * 0x40 + (b - 0x80)
    ensures c / 0x40 == high && 0x80 + c % 0x40 == b
    ensures c / 0x1000 == high / 0x40 && c / 0x4_0000 == high / 0x1000
  {}

  lemma PairOfScalar(c: Scalar)
    requires c >= 0x1_0000
    ensures IsLead(Utf16(c)[0]) && IsTrail(Utf16(c)[1])
    ensures Combined(Utf16(c)[0], Utf16(c)[1]) == c
  {}

  lemma ScalarOfPair(lead: Unit, trail: Unit)
    requires IsLead(lead) && IsTrail(trail)
    ensures Utf16(Combined(lead, trail)) == [lead, trail]
  {
    var c := Combined(lead, trail) - 0x1_0000;
    assert c / 0x400 == lead - 0xD800 && c % 0x400 == trail - 0xDC00;
  }

  // ---------------------------------------------------------------------------
  // Decoding

  /** The characters of `b`; a byte that starts none counts as one replacement character. */
  function ScalarsIn(b: seq<Byte>): seq<Scalar> {
    if b == [] then []
    else if CharLength(b) > 0 then [CharValue(b)] + ScalarsIn(b[CharLength(b)..])
    else [REPLACEMENT] + ScalarsIn(b[1..])
  }

  function Decode(b: seq<Byte>): seq<Unit> {
    Utf16All(ScalarsIn(b))
  }

  lemma {:induction false} ScalarsInUtf8(cs: seq<Scalar>)
    ensures ScalarsIn(Utf8All(cs)) == cs
    ensures WellFormedUtf8(Utf8All(cs))
  {
    if cs != [] {
      var rest := Utf8All(cs[1..]);
      CharOfScalar(cs[0], rest);
      ScalarsInUtf8(cs[1..]);
      assert Utf8All(cs)[|Utf8(cs[0])|..] == rest;
    }
  }

  lemma {:induction false} Utf8OfScalarsIn(b: seq<Byte>)
    requires WellFormedUtf8(b)
    ensures Utf8All(ScalarsIn(b)) == b
  {
    if b != [] {
      var n := CharLength(b);
      ScalarOfChar(b);
      Utf8OfScalarsIn(b[n..]);
      assert ScalarsIn(b)[1..] == ScalarsIn(b[n..]);
    }
  }

  function ContinuationBits(b: Byte): nat { b % 0x40 }

  /** Masking a byte of known class takes its mark off. */
  lemma Masks(first: Byte, bits: int, mark: int, second: Byte, third: Byte, fourth: Byte)
    requires (bits == 0x20 && mark == 0xC0) || (bits == 0x10 && mark in {0xE0, 0xF0})
    requires mark <= first < mark + bits && Tail(second) && Tail(third) && Tail(fourth)
    ensures first % bits == first - mark
    ensures ContinuationBits(second) == second - 0x80 && ContinuationBits(third) == third - 0x80
    ensures ContinuationBits(fourth) == fourth - 0x80
  {}

  /** The three-byte case: the bits are put together, then their value is tested. */
  method DecodeThree(b: seq<Byte>) returns (r: Option<Scalar>)
    requires |b| >= 3 && 0xE0 <= b[0] <= 0xEF
    ensures if CharLength(b) == 3 then r == Some(CharValue(b)) else r.None? && CharLength(b) == 0
  {
    var first, second, third := b[0], b[1], b[2];
    if Tail(second) && Tail(third) {
      var temp := first % 0x10 * 0x1000 + ContinuationBits(second) * 0x40 + ContinuationBits(third);
      Masks(first, 0x10, 0xE0, second, third, third);
      Table3(first, second, third);
      if temp > 2047 && (temp < 55296 || temp > 57343) { return Some(temp); }
    }
    return None;
  }

  method DecodeFour(b: seq<Byte>) returns (r: Option<Scalar>)
    requires |b| >= 4 && 0xF0 <= b[0]
    ensures if CharLength(b) == 4 then r == Some(CharValue(b)) else r.None? && CharLength(b) == 0
  {
    var first, second, third, fourth := b[0], b[1], b[2], b[3];
    if Tail(second) && Tail(third) && Tail(fourth) {
      var temp := first % 0x10 * 0x4_0000 + ContinuationBits(second) * 0x1000
                  + ContinuationBits(third) * 0x40 + ContinuationBits(fourth);
      Masks(first, 0x10, 0xF0, second, third, fourth);
      Table4(first, second, third, fourth);
      if temp > 65535 && temp < 1114112 { return Some(temp); }
    }
    return None;
  }

  /** What one round of the decoding loop makes of the bytes at its position. */
  method DecodeOne(b: seq<Byte>) returns (codePoint: Scalar, consumed: nat)
    requires b != []
    ensures 1 <= consumed <= |b| && ScalarsIn(b) == [codePoint] + ScalarsIn(b[consumed..])
  {
    var first := b[0];
    var length := if first > 239 then 4 else if first > 223 then 3 else if first > 191 then 2 else 1;
    if length <= |b| {
      if length == 1 {
        if first < 128 { return first, 1; }
      } else if length == 2 {
        var second := b[1];
        if Tail(second) {
          var temp := first % 0x20 * 0x40 + ContinuationBits(second);
          Masks(first, 0x20, 0xC0, second, second, second);
          if temp > 127 { return temp, 2; }
        }
      } else if length == 3 {
        var r := DecodeThree(b);
        if r.Some? { return r.value, 3; }
      } else {
        var r := DecodeFour(b);
        if r.Some? { return r.value, 4; }
      }
    }
    return REPLACEMENT, 1;
  }

  const MAX_ARGUMENTS: nat := 4096

  /** Builds the string from its code units, at most 4096 at a time. */
  method DecodeCodePointsArray(codePoints: seq<Unit>) returns (r: seq<Unit>)
    ensures r == codePoints
  {
    var len := |codePoints|;
    if len <= MAX_ARGUMENTS { return codePoints; }
    r := [];
    var i := 0;
    while i < len
      invariant r == codePoints[..if i < len then i else len]
      decreases len - i
    {
      var next := i + MAX_ARGUMENTS;
      r := r + codePoints[i..if next < len then next else len];
      i := next;
    }
  }

  method PushUnits(done: seq<Unit>, codePoint: Scalar) returns (res: seq<Unit>)
    ensures res == done + Utf16(codePoint)
  {
    res := done;
    var code: int := codePoint;
    if code > 0xFFFF {
      code := code - 0x1_0000;
      res := res + [code / 0x400 % 0x400 + 0xD800];
      code := 0xDC00 + code % 0x400;
    }
    res := res + [code];
  }

  /** Decodes the window [start, end) of the buffer. */
  method Utf8Slice(buf: array<Byte>, start: nat, end: nat) returns (r: seq<Unit>)
    ensures var stop := if end < buf.Length then end else buf.Length;
      r == if start <= stop then Decode(buf[start..stop]) else []
  {
    var stop := if end < buf.Length then end else buf.Length;
    var res := [];
    if start < stop { res := DecodeWindow(buf[start..stop]); }
    r := DecodeCodePointsArray(res);
  }

  /** One round of the decoding loop. */
  method DecodeStep(b: seq<Byte>, i: nat, done: seq<Unit>) returns (res: seq<Unit>, next: nat)
    requires i < |b|
    ensures i < next <= |b| && res + Decode(b[next..]) == done + Decode(b[i..])
  {
    var codePoint, consumed := DecodeOne(b[i..]);
    res := PushUnits(done, codePoint);
    next := i + consumed;
    assert b[i..][consumed..] == b[next..];
    DecodeCons(b[i..], codePoint, b[next..], done);
  }

  lemma DecodeCons(b: seq<Byte>, c: Scalar, rest: seq<Byte>, done: seq<Unit>)
    requires ScalarsIn(b) == [c] + ScalarsIn(rest)
    ensures done + Utf16(c) + Decode(rest) == done + Decode(b)
  {
    Utf16Cons(c, ScalarsIn(rest));
    Associate(done, Utf16(c), Decode(rest));
  }

  lemma Utf16Cons(c: Scalar, cs: seq<Scalar>)
    ensures Utf16All([c] + cs) == Utf16(c) + Utf16All(cs)
  {
    assert ([c] + cs)[1..] == cs;
  }

  /** The decoding loop over the bytes of a window. */
  method DecodeWindow(b: seq<Byte>) returns (res: seq<Unit>)
    ensures res == Decode(b)
  {
    res := [];
    var i := 0;
    while i < |b|
      invariant i <= |b| && res + Decode(b[i..]) == Decode(b)
    {
      res, i := DecodeStep(b, i, res);
    }
  }

  // ---------------------------------------------------------------------------
  // Encoding

  /** The characters the encoder sees: a surrogate without partner becomes a replacement
      character, except that a last lead right behind a lone lead is dropped. */
  function Repaired(u: seq<Unit>): seq<Scalar> {
    if u == [] then []
    else if !IsSurrogate(u[0]) then [u[0]] + Repaired(u[1..])
    else if IsLead(u[0]) && |u| > 1 && IsTrail(u[1]) then [Combined(u[0], u[1])] + Repaired(u[2..])
    else if IsLead(u[0]) && |u| == 2 && IsLead(u[1]) then [REPLACEMENT]
    else [REPLACEMENT] + Repaired(u[1..])
  }

  function Encode(u: seq<Unit>): seq<Byte> {
    Utf8All(Repaired(u))
  }

  /** How many bytes may still be written; no limit when the caller gave none, or zero. */
  datatype Room = Unlimited | Left(bytes: int) {
    predicate Exhausted() { Left? && bytes < 0 }

    function Less(n: nat): Room {
      if Unlimited? then Unlimited else Left(bytes - n)
    }
  }

  /** Whole characters, as many as fit. */
  function Fit(cs: seq<Scalar>, room: Room): seq<Byte> {
    if cs == [] || room.Less(|Utf8(cs[0])|).Exhausted() then []
    else Utf8(cs[0]) + Fit(cs[1..], room.Less(|Utf8(cs[0])|))
  }

  lemma {:induction false} FitUnlimited(cs: seq<Scalar>)
    ensures Fit(cs, Unlimited) == Utf8All(cs)
  {
    if cs != [] { FitUnlimited(cs[1..]); }
  }

  /** A limited encoding is the encoding of the longest prefix that fits the limit. */
  lemma {:induction false} FitIsLongestPrefix(cs: seq<Scalar>, limit: nat) returns (k: nat)
    ensures k <= |cs| && Fit(cs, Left(limit)) == Utf8All(cs[..k]) && |Utf8All(cs[..k])| <= limit
    ensures k < |cs| ==> |Utf8All(cs[..k + 1])| > limit
  {
    if cs == [] {
      k := 0;
    } else if |Utf8(cs[0])| > limit {
      k := 0;
      assert cs[..1][1..] == [] && cs[..1][0] == cs[0];
    } else {
      var rest := FitIsLongestPrefix(cs[1..], limit - |Utf8(cs[0])|);
      k := rest + 1;
      assert cs[..k][1..] == cs[1..][..rest];
      if k < |cs| { assert cs[..k + 1][1..] == cs[1..][..rest + 1]; }
    }
  }

  /** What is still to be encoded when the loop stands at `o` with `pending` unpaired. */
  ghost function Ahead(u: seq<Unit>, o: nat, pending: bool): seq<Scalar>
    requires o <= |u| && (pending ==> o > 0)
  {
    if !pending then Repaired(u[o..])
    else if o == |u| then []
    else Repaired(u[o - 1..])
  }

  lemma AheadFresh(u: seq<Unit>, o: nat)
    requires o < |u| && (IsLead(u[o]) ==> o + 1 == |u|)
    ensures Ahead(u, o, false) == [if IsSurrogate(u[o]) then REPLACEMENT else u[o]] + Ahead(u, o + 1, false)
  {
    assert u[o..][1..] == u[o + 1..];
  }

  lemma AheadPaired(u: seq<Unit>, o: nat)
    requires 0 < o < |u| && IsLead(u[o - 1]) && IsTrail(u[o])
    ensures Ahead(u, o, true) == [Combined(u[o - 1], u[o])] + Ahead(u, o + 1, false)
  {
    var v := u[o - 1..];
    assert v[0] == u[o - 1] && v[1] == u[o] && v[2..] == u[o + 1..];
  }

  lemma AheadBroken(u: seq<Unit>, o: nat)
    requires 0 < o < |u| && IsLead(u[o - 1]) && IsLead(u[o])
    ensures Ahead(u, o, true) == [REPLACEMENT] + Ahead(u, o + 1, true)
  {
    var v := u[o - 1..];
    assert v[0] == u[o - 1] && v[1] == u[o] && v[1..] == u[o..];
  }

  lemma AheadAlone(u: seq<Unit>, o: nat)
    requires 0 < o < |u| && IsLead(u[o - 1]) && !IsSurrogate(u[o])
    ensures Ahead(u, o, true) == [REPLACEMENT] + Ahead(u, o, false)
  {
    var v := u[o - 1..];
    assert v[0] == u[o - 1] && v[1] == u[o] && v[1..] == u[o..];
  }

  /** `done` bytes are out, `cs` characters are ahead: the outcome is settled to be `r`. */
  ghost predicate Settles(done: seq<Byte>, room: Room, cs: seq<Scalar>, r: seq<Byte>) {
    done + (if room.Exhausted() then [] else Fit(cs, room)) == r
  }

  lemma SettleOne(done: seq<Byte>, room: Room, c: Scalar, next: seq<Scalar>, r: seq<Byte>)
    requires Settles(done, room, [c] + next, r)
    ensures var room' := room.Less(|Utf8(c)|);
      Settles(if room'.Exhausted() then done else done + Utf8(c), room', next, r)
  {
    FitCons(c, next, room);
    Associate(done, Utf8(c), Fit(next, room.Less(|Utf8(c)|)));
    StaysExhausted(room, |Utf8(c)|);
  }

  lemma FitCons(c: Scalar, next: seq<Scalar>, room: Room)
    ensures var room' := room.Less(|Utf8(c)|);
      Fit([c] + next, room) == if room'.Exhausted() then [] else Utf8(c) + Fit(next, room')
  {
    assert ([c] + next)[1..] == next;
  }

  lemma StaysExhausted(room: Room, n: nat)
    ensures room.Exhausted() ==> room.Less(n).Exhausted()
  {}

  /** Pushes the three bytes of the replacement character if they fit. */
  method PushReplacement(done: seq<Byte>, left: Room, ghost next: seq<Scalar>, ghost r: seq<Byte>)
    returns (bytes: seq<Byte>, room: Room)
    requires Settles(done, left, [REPLACEMENT] + next, r)
    ensures Settles(bytes, room, next, r)
  {
    SettleOne(done, left, REPLACEMENT, next, r);
    room := left.Less(3);
    bytes := if room.Exhausted() then done else done + [0xEF, 0xBF, 0xBD];
  }

  /** Pushes the bytes of one character if they fit. */
  method PushCode(done: seq<Byte>, left: Room, code: Scalar, ghost next: seq<Scalar>, ghost r: seq<Byte>)
    returns (bytes: seq<Byte>, room: Room)
    requires Settles(done, left, [code] + next, r)
    ensures Settles(bytes, room, next, r)
    ensures room.Exhausted() ==> bytes == r
  {
    SettleOne(done, left, code, next, r);
    bytes := done;
    if code < 0x80 {
      room := left.Less(1);
      if room.Exhausted() { return; }
      bytes := bytes + [code];
    } else if code < 0x800 {
      room := left.Less(2);
      if room.Exhausted() { return; }
      bytes := bytes + [code / 0x40 + 0xC0, code % 0x40 + 0x80];
    } else if code < 0x1_0000 {
      room := left.Less(3);
      if room.Exhausted() { return; }
      bytes := bytes + [code / 0x1000 + 0xE0, code / 0x40 % 0x40 + 0x80, code % 0x40 + 0x80];
    } else {
      room := left.Less(4);
      if room.Exhausted() { return; }
      bytes := bytes + [code / 0x4_0000 + 0xF0, code / 0x1000 % 0x40 + 0x80,
                        code / 0x40 % 0x40 + 0x80, code % 0x40 + 0x80];
    }
  }

  /** The encoder between two units: what is out, what still fits, and the lead it holds. */
  datatype Encoder = Encoder(bytes: seq<Byte>, room: Room, lead: Unit, pending: bool)

  ghost predicate Encoding(u: seq<Unit>, i: nat, e: Encoder, result: seq<Byte>) {
    && i <= |u|
    && (e.pending ==> i > 0 && e.lead == u[i - 1] && IsLead(e.lead))
    && Settles(e.bytes, e.room, Ahead(u, i, e.pending), result)
  }

  /** One round of the encoding loop; `full` is its break. */
  method EncodeUnit(u: seq<Unit>, i: nat, e: Encoder, ghost result: seq<Byte>) returns (next: Encoder, full: bool)
    requires i < |u| && Encoding(u, i, e, result)
    ensures if full then next.bytes == result else Encoding(u, i + 1, next, result)
  {
    var Encoder(bytes, room, lead, pending) := e;
    var code: int := u[i];
    if IsSurrogate(u[i]) {
      if !pending {
        if IsTrail(u[i]) || i + 1 == |u| {
          AheadFresh(u, i);
          bytes, room := PushReplacement(bytes, room, Ahead(u, i + 1, false), result);
          return Encoder(bytes, room, lead, false), false;
        }
        return Encoder(bytes, room, u[i], true), false;
      }
      if IsLead(u[i]) {
        AheadBroken(u, i);
        bytes, room := PushReplacement(bytes, room, Ahead(u, i + 1, true), result);
        return Encoder(bytes, room, u[i], true), false;
      }
      AheadPaired(u, i);
      code := Combined(lead, u[i]);
    } else {
      if pending {
        AheadAlone(u, i);
        bytes, room := PushReplacement(bytes, room, Ahead(u, i, false), result);
      }
      AheadFresh(u, i);
    }
    bytes, room := PushCode(bytes, room, code, Ahead(u, i + 1, false), result);
    return Encoder(bytes, room, lead, false), room.Exhausted();
  }

  /** The bytes of `u`, cut to whole characters within `units` bytes unless that is zero. */
  method Utf8ToBytes(u: seq<Unit>, units: nat) returns (bytes: seq<Byte>)
    ensures bytes == Fit(Repaired(u), if units == 0 then Unlimited else Left(units))
  {
    var e := Encoder([], if units == 0 then Unlimited else Left(units), 0, false);
    ghost var result := Fit(Repaired(u), e.room);
    assert u[0..] == u;
    var i, full := 0, false;
    while i < |u|
      invariant Encoding(u, i, e, result)
    {
      e, full := EncodeUnit(u, i, e, result);
      if full { return e.bytes; }
      i := i + 1;
    }
    return e.bytes;
  }

  // ---------------------------------------------------------------------------
  // Round trips

  lemma {:induction false} RepairedOfUtf16(cs: seq<Scalar>)
    ensures WellFormedUtf16(Utf16All(cs)) && Repaired(Utf16All(cs)) == cs
  {
    if cs != [] {
      var c, rest := cs[0], Utf16All(cs[1..]);
      var u := Utf16(c) + rest;
      RepairedOfUtf16(cs[1..]);
      if c < 0x1_0000 {
        assert u[1..] == rest;
      } else {
        PairOfScalar(c);
        assert u[0] == Utf16(c)[0] && u[1] == Utf16(c)[1] && u[2..] == rest;
      }
    }
  }

  lemma {:induction false} Utf16OfRepaired(u: seq<Unit>)
    requires WellFormedUtf16(u)
    ensures Utf16All(Repaired(u)) == u
  {
    if u != [] {
      if !IsSurrogate(u[0]) {
        Utf16OfRepaired(u[1..]);
      } else {
        Utf16OfRepaired(u[2..]);
        ScalarOfPair(u[0], u[1]);
        assert u == [u[0], u[1]] + u[2..];
      }
    }
  }

  /** The encoder's bytes are well-formed UTF-8 whatever the input and the limit. */
  lemma {:induction false} EncoderIsWellFormed(u: seq<Unit>, units: nat)
    ensures WellFormedUtf8(Fit(Repaired(u), if units == 0 then Unlimited else Left(units)))
  {
    if units == 0 {
      FitUnlimited(Repaired(u));
      ScalarsInUtf8(Repaired(u));
    } else {
      var k := FitIsLongestPrefix(Repaired(u), units);
      ScalarsInUtf8(Repaired(u)[..k]);
    }
  }

  /** Every lone surrogate replaced, none dropped. */
  function Replaced(u: seq<Unit>): seq<Scalar> {
    if u == [] then []
    else if !IsSurrogate(u[0]) then [u[0]] + Replaced(u[1..])
    else if IsLead(u[0]) && |u| > 1 && IsTrail(u[1]) then [Combined(u[0], u[1])] + Replaced(u[2..])
    else [REPLACEMENT] + Replaced(u[1..])
  }

  predicate EndsInTwoLeads(u: seq<Unit>) {
    |u| >= 2 && IsLead(u[|u| - 2]) && IsLead(u[|u| - 1])
  }

  /** The encoder replaces every lone surrogate unless the string ends in two leads; then it
      loses the last one. */
  lemma {:induction false} ReplacesUnlessTwoLeadsEnd(u: seq<Unit>)
    ensures Replaced(u) == Repaired(u) + (if EndsInTwoLeads(u) then [REPLACEMENT] else [])
  {
    if u != [] {
      var pair := IsLead(u[0]) && |u| > 1 && IsTrail(u[1]);
      if pair {
        ReplacesUnlessTwoLeadsEnd(u[2..]);
        ConsAppend(Combined(u[0], u[1]), Replaced(u[2..]), Repaired(u[2..]), EndsInTwoLeads(u));
      } else if IsLead(u[0]) && |u| == 2 && IsLead(u[1]) {
        assert Replaced(u[1..]) == [REPLACEMENT] + Replaced(u[1..][1..]);
        assert Repaired(u) == [REPLACEMENT];
      } else {
        ReplacesUnlessTwoLeadsEnd(u[1..]);
        ConsAppend(if IsSurrogate(u[0]) then REPLACEMENT else u[0], Replaced(u[1..]), Repaired(u[1..]),
                   EndsInTwoLeads(u));
      }
    }
  }

  lemma ConsAppend(c: Scalar, p: seq<Scalar>, r: seq<Scalar>, more: bool)
    requires p == r + (if more then [REPLACEMENT] else [])
    ensures [c] + p == [c] + r + (if more then [REPLACEMENT] else [])
  {}

  /** Decoding undoes encoding exactly on strings without lone surrogates. */
  lemma {:induction false} DecodeEncode(u: seq<Unit>)
    ensures Decode(Encode(u)) == Utf16All(Repaired(u))
    ensures Decode(Encode(u)) == u <==> WellFormedUtf16(u)
  {
    ScalarsInUtf8(Repaired(u));
    RepairedOfUtf16(Repaired(u));
    if WellFormedUtf16(u) { Utf16OfRepaired(u); }
  }

  /** Encoding undoes decoding exactly on well-formed UTF-8. */
  lemma {:induction false} EncodeDecode(b: seq<Byte>)
    ensures Encode(Decode(b)) == b <==> WellFormedUtf8(b)
  {
    RepairedOfUtf16(ScalarsIn(b));
    ScalarsInUtf8(ScalarsIn(b));
    if WellFormedUtf8(b) { Utf8OfScalarsIn(b); }
  }

  // ---------------------------------------------------------------------------
  // The same, unit by unit and byte by byte

  /** A unit stands for itself: it is no surrogate, or its partner is beside it. */
  predicate StaysAt(u: seq<Unit>, i: nat)
    requires i < |u|
  {
    || u[i] < 0xD800 || u[i] >= 0xE000
    || (u[i] < 0xDC00 && i + 1 < |u| && 0xDC00 <= u[i + 1] < 0xE000)
    || (u[i] >= 0xDC00 && i > 0 && 0xD800 <= u[i - 1] < 0xDC00)
  }

  /** Repairing puts 0xFFFD in the place of each surrogate without partner and keeps all other units. */
  lemma {:induction false} ReplacedAt(u: seq<Unit>, i: nat)
    requires i < |u|
    ensures |Utf16All(Replaced(u))| == |u|
    ensures Utf16All(Replaced(u))[i] == if StaysAt(u, i) then u[i] else 0xFFFD
  {
    var n := if IsLead(u[0]) && |u| > 1 && IsTrail(u[1]) then 2 else 1;
    if n == 2 { ScalarOfPair(u[0], u[1]); }
    Utf16Cons(Replaced(u)[0], Replaced(u)[1..]);
    if n < |u| {
      ReplacedAt(u[n..], if i < n then 0 else i - n);
      assert i >= n ==> StaysAt(u, i) == StaysAt(u[n..], i - n);
    } else {
      assert u[n..] == [];
    }
  }

  /** A string comes back from its bytes exactly when no surrogate in it is without partner. */
  lemma {:induction false} LosslessIff(u: seq<Unit>)
    ensures Decode(Encode(u)) == u <==> forall i | 0 <= i < |u| :: StaysAt(u, i)
  {
    DecodeEncode(u);
    WellFormedIs(u);
  }

  lemma {:induction false} WellFormedIs(u: seq<Unit>)
    ensures WellFormedUtf16(u) <==> forall i | 0 <= i < |u| :: StaysAt(u, i)
  {
    if u != [] {
      var n := if IsSurrogate(u[0]) then 2 else 1;
      if n <= |u| && (n == 2 ==> IsLead(u[0]) && IsTrail(u[1])) {
        WellFormedIs(u[n..]);
        forall j | 0 <= j < |u[n..]| ensures StaysAt(u[n..], j) == StaysAt(u, n + j) {}
        if WellFormedUtf16(u[n..]) {
          forall i | 0 <= i < |u| ensures StaysAt(u, i) {
            if i >= n { assert StaysAt(u[n..], i - n); }
          }
        }
      } else {
        assert !StaysAt(u, 0);
      }
    }
  }

  /** The bits of a scalar value in its units. */
  lemma Utf16Bits(c: Scalar)
    ensures var u: seq<int> := Utf16(c);
      if c < 0x1_0000 then u == [c]
      else
        && |u| == 2 && 0xD800 <= u[0] < 0xDC00 && 0xDC00 <= u[1] < 0xE000
        && 0x400 * (u[0] - 0xD800) + (u[1] - 0xDC00) == c - 0x1_0000
  {}

  /** The bits of a scalar value in its bytes: section 3 of RFC 3629. */
  lemma Utf8Bits(c: Scalar)
    ensures var b: seq<int> := Utf8(c);
      && |b| == (if c < 0x80 then 1 else if c < 0x800 then 2 else if c < 0x1_0000 then 3 else 4)
      && (forall i | 1 <= i < |b| :: 0x80 <= b[i] < 0xC0)
      && c == match |b|
              case 1 => b[0]
              case 2 => 0x40 * (b[0] - 0xC0) + (b[1] - 0x80)
              case 3 => 0x1000 * (b[0] - 0xE0) + 0x40 * (b[1] - 0x80) + (b[2] - 0x80)
              case _ => 0x4_0000 * (b[0] - 0xF0) + 0x1000 * (b[1] - 0x80) + 0x40 * (b[2] - 0x80) + (b[3] - 0x80)
  {
    Digits3(c);
    Digits4(c);
  }

  /** An encoded character is decoded whatever follows it. */
  lemma DecodeChar(c: Scalar, rest: seq<Byte>)
    ensures Decode(Utf8(c) + rest) == Utf16(c) + Decode(rest)
  {
    CharOfScalar(c, rest);
    assert (Utf8(c) + rest)[|Utf8(c)|..] == rest;
    Utf16Cons(c, ScalarsIn(rest));
  }

  /** Where no character starts, one byte is given up. */
  lemma DecodeMalformed(b: seq<Byte>)
    requires b != [] && forall c: Scalar :: !(Utf8(c) <= b)
    ensures Decode(b) == [0xFFFD] + Decode(b[1..])
  {
    if CharLength(b) > 0 { ScalarOfChar(b); }
    Utf16Cons(REPLACEMENT, ScalarsIn(b[1..]));
  }
}
