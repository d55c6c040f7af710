/**
  The signed integer accessors of the bundled Buffer: two's complement written byte by
  byte through a truncating division and a sticky borrow, in both byte orders.
  The values written are any numbers, NaN and the infinities included; a finite one stands for
  the real number a double is, and its divisions by powers of 256 are exact.

  A buffer is a typed array: reading outside it gives undefined, writing outside it does
  nothing.
 */
module BufferInts {
  import opened Units
  import opened Wrappers

  datatype Result<+T> =
    | Success(value: T)
    | ValueOutOfBounds | IndexOutOfRange | OffsetNotUint | BeyondLength
    | NotANumber

  function Pow256(k: nat): (p: nat)
    ensures p > 0
  {
    if k == 0 then 1 else 256 * Pow256(k - 1)
  }

  /** The `>> 0` conversion: truncation has already happened, this wraps to 32 bits. */
  function ToInt32(x: int): int {
    var m := x % 0x1_0000_0000;
    if m >= 0x8000_0000 then m - 0x1_0000_0000 else m
  }

  /** Integer part of the quotient, rounded towards zero. */
  function TruncatedQuotient(v: int, d: nat): int
    requires d > 0
  {
    if v >= 0 then v / d else -((-v) / d)
  }

  /** `x & 255`. */
  function LowByte(x: int): Byte {
    ToInt32(x) % 256
  }

  // ---------------------------------------------------------------------------
  // Two's complement

  function ByteOf(v: int, k: nat): Byte {
    (v / Pow256(k)) % 256
  }

  function Bytes(v: int, from: nat, n: nat): (r: seq<Byte>)
    ensures |r| == n
    decreases n
  {
    if n == 0 then [] else [ByteOf(v, from)] + Bytes(v, from + 1, n - 1)
  }

  /** The n bytes of v, least significant first. */
  function TwosComplement(v: int, n: nat): (r: seq<Byte>)
    ensures |r| == n
  {
    Bytes(v, 0, n)
  }

  lemma {:induction false} BytesAt(v: int, from: nat, n: nat, k: nat)
    requires k < n
    ensures Bytes(v, from, n)[k] == ByteOf(v, from + k)
    decreases n
  {
    if k > 0 { BytesAt(v, from + 1, n - 1, k - 1); }
  }

  /** The k-th byte is floor(v / 256^k) mod 256. */
  lemma {:induction false} TwosComplementAt(v: int, n: nat, k: nat)
    requires k < n
    ensures TwosComplement(v, n)[k] == (v / Pow256(k)) % 256
  {
    BytesAt(v, 0, n, k);
  }

  function Unsigned(b: seq<Byte>): nat {
    if b == [] then 0 else b[0] + 256 * Unsigned(b[1..])
  }

  function Signed(b: seq<Byte>): int
    requires b != []
  {
    var half := 128 * Pow256(|b| - 1);
    if Unsigned(b) < half then Unsigned(b) else Unsigned(b) - Pow256(|b|)
  }

  predicate InRange(v: int, n: nat)
    requires n >= 1
  {
    -(128 * Pow256(n - 1)) <= v < 128 * Pow256(n - 1)
  }

  function Reverse(s: seq<Byte>): (r: seq<Byte>)
    ensures |r| == |s|
  {
    if s == [] then [] else Reverse(s[1..]) + [s[0]]
  }

  lemma {:induction false} ReverseAt(s: seq<Byte>, i: nat)
    requires i < |s|
    ensures Reverse(s)[i] == s[|s| - 1 - i]
  {
    if i < |s| - 1 { ReverseAt(s[1..], i); }
  }

  // ---------------------------------------------------------------------------
  // Arithmetic

  lemma MulAtLeast(a: int, d: int)
    requires a >= 1 && d > 0
    ensures a * d >= d
  {
    assert (a - 1) * d >= 0;
  }

  lemma DivisionIs(x: int, d: int, q: int, r: int)
    requires d > 0 && x == q * d + r && 0 <= r < d
    ensures x / d == q && x % d == r
  {
    var q', r' := x / d, x % d;
    assert x == d * q' + r';
    assert (q - q') * d == r' - r;
    if q > q' { MulAtLeast(q - q', d); }
    if q < q' { MulAtLeast(q' - q, d); }
  }

  /** floor(v / 256^(k+1)) is floor(floor(v / 256^k) / 256). */
  lemma QuotientStep(v: int, k: nat)
    ensures v / Pow256(k + 1) == (v / Pow256(k)) / 256
    ensures v % Pow256(k + 1) == v % Pow256(k) + Pow256(k) * ByteOf(v, k)
  {
    var p := Pow256(k);
    var q, r := v / p, v % p;
    var q', b := q / 256, q % 256;
    var big := Pow256(k + 1);
    assert v == p * q + r;
    assert p * q == p * (q' * 256 + b) == q' * (256 * p) + p * b;
    assert v == q' * big + (r + p * b);
    RemainderFits(p, b, r);
    DivisionIs(v, big, q', r + p * b);
  }

  lemma RemainderFits(p: int, b: int, r: int)
    requires 0 <= r < p && 0 <= b < 256
    ensures 0 <= r + p * b < 256 * p
  {
    assert p * b >= 0 && p * (255 - b) >= 0;
    assert p * (255 - b) == p * 255 - p * b;
  }

  lemma ByteZero(v: int)
    ensures v / Pow256(0) == v && v % Pow256(0) == 0
  {
    DivisionIs(v, 1, v, 0);
  }

  /** Truncation differs from the floor by one exactly when something is left over. */
  lemma TruncationBorrow(v: int, d: nat)
    requires d > 0
    ensures TruncatedQuotient(v, d) - (if v < 0 && v % d != 0 then 1 else 0) == v / d
  {
    if v < 0 {
      var q, m := v / d, v % d;
      assert v == q * d + m;
      if m == 0 {
        assert -v == (-q) * d + 0;
        DivisionIs(-v, d, -q, 0);
      } else {
        assert -v == (-q - 1) * d + (d - m);
        DivisionIs(-v, d, -q - 1, d - m);
      }
    }
  }

  lemma LowByteIs(x: int)
    ensures LowByte(x) == x % 256
    ensures ToInt32(x) % 256 == x % 256
  {
    var q, m := x / 0x1_0000_0000, x % 0x1_0000_0000;
    assert x == 256 * (0x100_0000 * q) + m;
    SameLowByte(x, m, 0x100_0000 * q);
    SameLowByte(m, m - 0x1_0000_0000, 0x100_0000);
  }

  lemma SameLowByte(x: int, y: int, q: int)
    requires x == 256 * q + y
    ensures x % 256 == y % 256
  {}

  /** The sticky borrow in front of byte k: set once a byte below it is non-zero. */
  function Borrow(v: int, k: nat): int {
    if k > 0 && v < 0 && (Borrow(v, k - 1) == 1 || ByteOf(v, k - 1) != 0) then 1 else 0
  }

  lemma {:induction false} BorrowIsRemainder(v: int, k: nat)
    ensures Borrow(v, k) == if v < 0 && v % Pow256(k) != 0 then 1 else 0
  {
    if k == 0 {
      ByteZero(v);
    } else {
      BorrowIsRemainder(v, k - 1);
      QuotientStep(v, k - 1);
      SumIsZero(v % Pow256(k - 1), Pow256(k - 1), ByteOf(v, k - 1));
    }
  }

  lemma SumIsZero(r: nat, p: nat, b: nat)
    requires p > 0
    ensures r + p * b == 0 <==> r == 0 && b == 0
  {
    if b > 0 { MulAtLeast(b, p); }
  }

  /** The byte the writers store at distance k. */
  function Stored(v: int, mul: nat, sub: int): Byte
    requires mul > 0
  {
    LowByte(ToInt32(TruncatedQuotient(v, mul)) - sub)
  }

  lemma WrittenByte(v: int, k: nat)
    ensures Stored(v, Pow256(k), Borrow(v, k)) == ByteOf(v, k)
  {
    BorrowIsRemainder(v, k);
    TruncationBorrow(v, Pow256(k));
    LowByteOfDifference(TruncatedQuotient(v, Pow256(k)), Borrow(v, k));
  }

  lemma LowByteOfDifference(t: int, d: int)
    ensures LowByte(ToInt32(t) - d) == (t - d) % 256
  {
    var u := ToInt32(t);
    LowByteIs(u - d);
    LowByteIs(t);
    SameLowByte(u - d, t - d, u / 256 - t / 256);
  }

  lemma {:induction false} UnsignedOfTwosComplement(v: int, n: nat)
    ensures Unsigned(TwosComplement(v, n)) == v % Pow256(n)
  {
    UnsignedFrom(v, 0, n);
    ByteZero(v);
  }

  lemma {:induction false} UnsignedFrom(v: int, from: nat, n: nat)
    ensures Unsigned(Bytes(v, from, n)) == (v / Pow256(from)) % Pow256(n)
    decreases n
  {
    var w := v / Pow256(from);
    if n == 0 {
      DivisionIs(w, 1, w, 0);
    } else {
      UnsignedFrom(v, from + 1, n - 1);
      QuotientStep(v, from);
      RemainderSplit(w, Pow256(n - 1));
    }
  }

  lemma RemainderSplit(w: int, p: int)
    requires p > 0
    ensures w % (256 * p) == w % 256 + 256 * ((w / 256) % p)
  {
    var q := w / 256;
    var q', r := q / p, q % p;
    assert q == p * q' + r;
    assert 256 * (p * q') == q' * (256 * p);
    DivisionIs(w, 256 * p, q', 256 * r + w % 256);
  }

  lemma {:induction false} UnsignedBound(b: seq<Byte>)
    ensures Unsigned(b) < Pow256(|b|)
  {
    if b != [] { UnsignedBound(b[1..]); }
  }

  /** What the writers store reads back as the value, for every value that fits. */
  lemma {:induction false} SignedOfTwosComplement(v: int, n: nat)
    requires n >= 1 && InRange(v, n)
    ensures Signed(TwosComplement(v, n)) == v
  {
    UnsignedOfTwosComplement(v, n);
    var p := Pow256(n);
    if v >= 0 { DivisionIs(v, p, 0, v); } else { DivisionIs(v, p, -1, v + p); }
  }

  /** Conversely every byte pattern is the two's complement of the value it reads as. */
  lemma {:induction false} TwosComplementOfSigned(b: seq<Byte>)
    requires b != []
    ensures InRange(Signed(b), |b|) && TwosComplement(Signed(b), |b|) == b
  {
    UnsignedBound(b);
    var u, p := Unsigned(b), Pow256(|b|);
    var v := Signed(b);
    var c := TwosComplement(v, |b|);
    UnsignedOfTwosComplement(v, |b|);
    if v == u { DivisionIs(v, p, 0, u); } else { DivisionIs(v, p, -1, u); }
    UnsignedInjective(c, b);
  }

  lemma {:induction false} UnsignedInjective(a: seq<Byte>, b: seq<Byte>)
    requires |a| == |b| && Unsigned(a) == Unsigned(b)
    ensures a == b
  {
    if a != [] {
      assert a[0] == Unsigned(a) % 256 && b[0] == Unsigned(b) % 256;
      UnsignedInjective(a[1..], b[1..]);
      assert a == [a[0]] + a[1..] && b == [b[0]] + b[1..];
    }
  }

  // ---------------------------------------------------------------------------
  // Numbers

  datatype Number = Finite(value: real) | PositiveInfinity | NegativeInfinity | NaN

  function Truncate(x: real): int {
    if x >= 0.0 then x.Floor else -((-x).Floor)
  }

  /** What the bit operators make of a number, before they wrap it to 32 bits. */
  function Integer(x: Number): int {
    if x.Finite? then Truncate(x.value) else 0
  }

  /** `x < 0`. */
  predicate Negative(x: Number) {
    x.NegativeInfinity? || (x.Finite? && x.value < 0.0)
  }

  /** `x / mul >> 0`, before it is wrapped to 32 bits. */
  function Quotient(x: Number, mul: nat): int
    requires mul > 0
  {
    if x.Finite? then Truncate(x.value / mul as real) else 0
  }

  lemma FloorOfQuotient(x: real, d: nat)
    requires x >= 0.0 && d > 0
    ensures (x / d as real).Floor == x.Floor / d
  {
    var q, r := x.Floor / d, x.Floor % d;
    assert x.Floor == q * d + r;
    assert (q * d) as real == q as real * d as real;
    assert (q * d + d) as real == (q as real + 1.0) * d as real;
    assert (q * d) as real <= x < (q * d + d) as real;
    FloorIs(x / d as real, q, x, d as real);
  }

  lemma FloorIs(y: real, q: int, x: real, d: real)
    requires d > 0.0 && y * d == x && q as real * d <= x < (q as real + 1.0) * d
    ensures y.Floor == q
  {
    Cancel(q as real, y, d);
    Cancel(y, q as real + 1.0, d);
    FloorBetween(y, q);
  }

  lemma FloorBetween(y: real, q: int)
    requires q as real <= y < q as real + 1.0
    ensures y.Floor == q
  {}

  lemma Cancel(a: real, b: real, d: real)
    requires d > 0.0
    ensures a * d <= b * d ==> a <= b
    ensures a * d < b * d ==> a < b
  {
    assert (b - a) * d == b * d - a * d;
    if a > b { assert (a - b) * d > 0.0; }
    if a == b { assert a * d == b * d; }
  }

  /** Dividing before or after the fraction is cut off gives the same integer. */
  lemma QuotientIs(x: Number, mul: nat)
    requires mul > 0
    ensures Quotient(x, mul) == TruncatedQuotient(Integer(x), mul)
  {
    if x.Finite? {
      if x.value >= 0.0 {
        FloorOfQuotient(x.value, mul);
        SignOfQuotient(x.value, mul);
      } else {
        FloorOfQuotient(-x.value, mul);
        SignOfQuotient(-x.value, mul);
        assert (-x.value) / mul as real == -(x.value / mul as real);
      }
    }
  }

  lemma SignOfQuotient(x: real, mul: nat)
    requires x >= 0.0 && mul > 0
    ensures x / mul as real >= 0.0
  {}

  // ---------------------------------------------------------------------------
  // Bytes that fall outside the buffer

  /** The value whose bytes the writers store. A lost first byte reads as undefined, which is not
      zero, so the borrow of a negative number is set too early. */
  function Written(v: int, negative: bool, firstInside: bool): int {
    if negative && !firstInside then v - 1 else v
  }

  /** The borrow in front of byte k as the writers compute it. */
  function SeenBorrow(v: int, negative: bool, firstInside: bool, k: nat): int {
    if firstInside || !negative then Borrow(v, k) else if k > 0 then 1 else 0
  }

  /** Behind a lost byte the early borrow shows exactly where no lower byte would have set it. */
  lemma {:induction false} EarlyBorrowShows(v: int, k: nat)
    ensures ByteOf(Written(v, true, false), k) == ByteOf(v, k) <==> v % Pow256(k) != 0
  {
    QuotientOfPredecessor(v, Pow256(k));
  }

  /** All bytes from the m-th on are right exactly when some lost byte is not zero. */
  lemma {:induction false} LostBytesShow(v: int, m: nat, n: nat)
    requires m < n
    ensures (forall k | m <= k < n :: ByteOf(Written(v, true, false), k) == ByteOf(v, k)) <==> v % Pow256(m) != 0
  {
    forall k | m <= k < n
      ensures ByteOf(Written(v, true, false), k) == ByteOf(v, k) <==> v % Pow256(k) != 0
      ensures v % Pow256(m) != 0 ==> v % Pow256(k) != 0
    {
      EarlyBorrowShows(v, k);
      RemainderStays(v, m, k);
    }
  }

  lemma {:induction false} RemainderStays(v: int, m: nat, k: nat)
    requires m <= k
    ensures v % Pow256(m) != 0 ==> v % Pow256(k) != 0
  {
    if m < k {
      RemainderStays(v, m, k - 1);
      QuotientStep(v, k - 1);
      SumIsZero(v % Pow256(k - 1), Pow256(k - 1), ByteOf(v, k - 1));
    }
  }

  lemma QuotientOfPredecessor(v: int, p: int)
    requires p > 0
    ensures (v - 1) / p == if v % p == 0 then v / p - 1 else v / p
  {
    var q, m := v / p, v % p;
    assert v == q * p + m;
    if m == 0 {
      assert v - 1 == (q - 1) * p + (p - 1);
      DivisionIs(v - 1, p, q - 1, p - 1);
    } else {
      assert v - 1 == q * p + (m - 1);
      DivisionIs(v - 1, p, q, m - 1);
    }
  }

  lemma StoredBehindLost(v: int, k: nat)
    requires v <= 0
    ensures Stored(v, Pow256(k), 1) == ByteOf(v - 1, k)
  {
    var p := Pow256(k);
    TruncationBorrow(v, p);
    if v == 0 { DivisionIs(0, p, 0, 0); }
    LowByteOfDifference(TruncatedQuotient(v, p), 1);
    QuotientOfPredecessor(v, p);
  }

  lemma FirstByte(v: int)
    ensures LowByte(v) == ByteOf(v, 0)
  {
    LowByteIs(v);
    ByteZero(v);
  }

  /** The byte stored behind byte k - 1, from the number itself. */
  function StoredNumber(x: Number, mul: nat, sub: int): Byte
    requires mul > 0
  {
    LowByte(ToInt32(Quotient(x, mul)) - sub)
  }

  /** One round of the writers: the borrow follows from what is read back of the byte before, and
      with it the byte to store is right. */
  lemma NextByte(x: Number, firstInside: bool, k: nat, before: Option<Byte>)
    requires k > 0
    requires if firstInside then before == Some(ByteOf(Integer(x), k - 1)) else k == 1 ==> before.None?
    ensures var v := Integer(x); var s := SeenBorrow(v, Negative(x), firstInside, k - 1);
      SeenBorrow(v, Negative(x), firstInside, k) == if Negative(x) && s == 0 && before != Some(0) then 1 else s
    ensures var v := Integer(x);
      StoredNumber(x, Pow256(k), SeenBorrow(v, Negative(x), firstInside, k))
      == ByteOf(Written(v, Negative(x), firstInside), k)
  {
    var v := Integer(x);
    QuotientIs(x, Pow256(k));
    if firstInside || !Negative(x) {
      WrittenByte(v, k);
      if v == 0 { DivisionIs(0, Pow256(k - 1), 0, 0); }
    } else {
      StoredBehindLost(v, k);
    }
  }

  // ---------------------------------------------------------------------------
  // The writers

  /** What `this[i]` gives. */
  function Read(buf: array<Byte>, i: int): Option<Byte>
    reads buf
  {
    if 0 <= i < buf.Length then Some(buf[i]) else None
  }

  /** `this[i] = b`. */
  method Put(buf: array<Byte>, i: int, b: Byte)
    modifies buf
    ensures buf[..] == old(if 0 <= i < buf.Length then buf[..][i := b] else buf[..])
  {
    if 0 <= i < buf.Length { buf[i] := b; }
  }

  /** The largest value that passes: 2^(8n-1) - 1, which from seven bytes on rounds up to 2^(8n-1). */
  function MaxValue(n: nat): int
    requires n >= 1
  {
    128 * Pow256(n - 1) - if n <= 6 then 1 else 0
  }

  /** Whether the number lies within the bounds of the length. NaN compares false with both; from
      129 bytes on the bounds are infinite; for length zero they are both -0.5. */
  predicate Passes(x: Number, n: int) {
    match x
    case NaN => true
    case Finite(r) =>
      if n >= 1 then -(128 * Pow256(n - 1)) as real <= r <= MaxValue(n) as real else n == 0 && r == -0.5
    case _ => n >= 129
  }

  /** The check both writers run first unless told not to: the value, then the end of the window.
      A negative offset passes. */
  function CheckInt(length: nat, x: Number, at: int, byteLength: int): Result<int> {
    if !Passes(x, byteLength) then ValueOutOfBounds
    else if at + byteLength > length then IndexOutOfRange
    else Success(at + byteLength)
  }

  /** At least one byte is written, whatever the length. */
  function Count(byteLength: int): nat {
    if byteLength < 1 then 1 else byteLength
  }

  /** What the writers lay over the buffer, from its first byte inside the window or not. */
  function Laid(x: Number, byteLength: int, firstInside: bool, bigEndian: bool): seq<Byte> {
    Ordered(Written(Integer(x), Negative(x), firstInside), Count(byteLength), bigEndian)
  }

  /** `buf` with `bytes` laid over it from `at` on, as far as they lie inside. */
  function Overlaid(buf: seq<Byte>, at: int, bytes: seq<Byte>): (r: seq<Byte>)
    ensures |r| == |buf|
  {
    seq(|buf|, j requires 0 <= j < |buf| => if 0 <= j - at < |bytes| then bytes[j - at] else buf[j])
  }

  /** Each byte whose place lies inside the buffer is there, and every other place is as before. */
  lemma OverlaidAt(buf: seq<Byte>, at: int, bytes: seq<Byte>)
    ensures forall k | 0 <= k < |bytes| && 0 <= at + k < |buf| :: Overlaid(buf, at, bytes)[at + k] == bytes[k]
    ensures forall j | 0 <= j < |buf| && !(at <= j < at + |bytes|) :: Overlaid(buf, at, bytes)[j] == buf[j]
  {}

  /** Laying over a window inside the buffer: the window is as given, and all else as before. */
  lemma OverlaidWindow(buf: seq<Byte>, at: nat, bytes: seq<Byte>)
    requires at + |bytes| <= |buf|
    ensures Overlaid(buf, at, bytes)[at..at + |bytes|] == bytes
    ensures forall j | 0 <= j < |buf| && !(at <= j < at + |bytes|) :: Overlaid(buf, at, bytes)[j] == buf[j]
  {
    OverlaidAt(buf, at, bytes);
  }

  /** The bytes in the order the writer stores them. */
  function Ordered(v: int, n: nat, bigEndian: bool): (r: seq<Byte>)
    ensures |r| == n
  {
    if bigEndian then Reverse(TwosComplement(v, n)) else TwosComplement(v, n)
  }

  lemma OrderedAt(v: int, n: nat, bigEndian: bool, i: nat)
    requires i < n
    ensures Ordered(v, n, bigEndian)[i] == ByteOf(v, if bigEndian then n - 1 - i else i)
  {
    var k := if bigEndian then n - 1 - i else i;
    TwosComplementAt(v, n, k);
    if bigEndian { ReverseAt(TwosComplement(v, n), i); }
  }

  lemma OverlaidIs(now: seq<Byte>, was: seq<Byte>, at: int, v: int, n: nat, bigEndian: bool)
    requires |now| == |was|
    requires forall j | 0 <= j < |was| ::
      now[j] == if 0 <= j - at < n then ByteOf(v, if bigEndian then n - 1 - (j - at) else j - at) else was[j]
    ensures now == Overlaid(was, at, Ordered(v, n, bigEndian))
  {
    forall j | 0 <= j < |was| ensures now[j] == Overlaid(was, at, Ordered(v, n, bigEndian))[j] {
      if 0 <= j - at < n { OrderedAt(v, n, bigEndian, j - at); }
    }
  }

  /** The unchecked part: first byte, then the loop with multiplier and borrow. */
  method FillLE(buf: array<Byte>, x: Number, at: int, byteLength: int)
    modifies buf
    ensures buf[..] == Overlaid(old(buf[..]), at, Laid(x, byteLength, 0 <= at < buf.Length, false))
  {
    ghost var v, inside := Integer(x), 0 <= at < buf.Length;
    ghost var w := Written(v, Negative(x), inside);
    var i: int, mul: nat, sub := 0, 1, 0;
    FirstByte(v);
    Put(buf, at, LowByte(Integer(x)));
    i := i + 1;
    while i < byteLength
      invariant 1 <= i <= Count(byteLength)
      invariant mul == Pow256(i - 1)
      invariant at + i - 1 < buf.Length ==> sub == SeenBorrow(v, Negative(x), inside, i - 1)
      invariant forall j | 0 <= j < buf.Length ::
        buf[j] == if 0 <= j - at < i then ByteOf(w, j - at) else old(buf[j])
    {
      mul := mul * 256;
      if at + i < buf.Length { NextByte(x, inside, i, Read(buf, at + i - 1)); }
      if Negative(x) && sub == 0 && Read(buf, at + i - 1) != Some(0) { sub := 1; }
      Put(buf, at + i, StoredNumber(x, mul, sub));
      i := i + 1;
    }
    OverlaidIs(buf[..], old(buf[..]), at, w, Count(byteLength), false);
  }

  method WriteIntLE(buf: array<Byte>, x: Number, offset: int, byteLength: int, noAssert: bool)
    returns (r: Result<int>)
    modifies buf
    ensures r == if noAssert then Success(ToInt32(offset) + byteLength)
                 else CheckInt(buf.Length, x, ToInt32(offset), byteLength)
    ensures var at := ToInt32(offset);
      buf[..] == if r.Success? then Overlaid(old(buf[..]), at, Laid(x, byteLength, 0 <= at < buf.Length, false))
                 else old(buf[..])
  {
    var at := ToInt32(offset);
    r := Success(at + byteLength);
    if !noAssert {
      r := CheckInt(buf.Length, x, at, byteLength);
      if !r.Success? { return; }
    }
    FillLE(buf, x, at, byteLength);
  }

  /** The unchecked part: first byte, then the loop with multiplier and borrow. The bytes end where
      the window does. */
  method FillBE(buf: array<Byte>, x: Number, at: int, byteLength: int)
    modifies buf
    ensures var end := at + byteLength;
      buf[..] == Overlaid(old(buf[..]), end - Count(byteLength), Laid(x, byteLength, 0 <= end - 1 < buf.Length, true))
  {
    ghost var v, inside := Integer(x), 0 <= at + byteLength - 1 < buf.Length;
    ghost var w, end := Written(v, Negative(x), inside), at + byteLength;
    var i, mul: nat, sub := byteLength - 1, 1, 0;
    FirstByte(v);
    Put(buf, at + i, LowByte(Integer(x)));
    i := i - 1;
    while i >= 0
      invariant byteLength - 1 - Count(byteLength) <= i <= byteLength - 2
      invariant mul == Pow256(byteLength - 2 - i)
      invariant at + i + 1 >= 0 ==> sub == SeenBorrow(v, Negative(x), inside, byteLength - 2 - i)
      invariant forall j | 0 <= j < buf.Length ::
        buf[j] == if at + i < j < end then ByteOf(w, end - 1 - j) else old(buf[j])
    {
      mul := mul * 256;
      if at + i >= 0 { NextByte(x, inside, byteLength - 1 - i, Read(buf, at + i + 1)); }
      if Negative(x) && sub == 0 && Read(buf, at + i + 1) != Some(0) { sub := 1; }
      Put(buf, at + i, StoredNumber(x, mul, sub));
      i := i - 1;
    }
    OverlaidIs(buf[..], old(buf[..]), end - Count(byteLength), w, Count(byteLength), true);
  }

  method WriteIntBE(buf: array<Byte>, x: Number, offset: int, byteLength: int, noAssert: bool)
    returns (r: Result<int>)
    modifies buf
    ensures r == if noAssert then Success(ToInt32(offset) + byteLength)
                 else CheckInt(buf.Length, x, ToInt32(offset), byteLength)
    ensures var end := ToInt32(offset) + byteLength;
      buf[..] == if r.Success? then Overlaid(old(buf[..]), end - Count(byteLength),
                                             Laid(x, byteLength, 0 <= end - 1 < buf.Length, true))
                 else old(buf[..])
  {
    var at := ToInt32(offset);
    r := Success(at + byteLength);
    if !noAssert {
      r := CheckInt(buf.Length, x, at, byteLength);
      if !r.Success? { return; }
    }
    FillBE(buf, x, at, byteLength);
  }

  // ---------------------------------------------------------------------------
  // The readers

  /** The checks both readers run first unless told not to; a window that reaches outside the
      buffer then reads as no number. */
  function CheckRead(length: nat, at: int, byteLength: nat, noAssert: bool): Result<nat> {
    if !noAssert && at < 0 then OffsetNotUint
    else if !noAssert && at + byteLength > length then BeyondLength
    else if at < 0 || at + byteLength > length then NotANumber
    else Success(at)
  }

  /** `sum + this[i] * mul`, undefined taking part as NaN. */
  function Plus(sum: Option<int>, b: Option<Byte>, mul: int): Option<int> {
    if sum.Some? && b.Some? then Some(sum.value + b.value * mul) else None
  }

  /** Whether the window lies inside the buffer. */
  predicate Inside(length: nat, at: int, n: nat) {
    0 <= at && at + n <= length
  }

  /** The loop of the little-endian reader: the unsigned value of the window, if it has one. */
  method SumLE(buf: array<Byte>, at: int, byteLength: nat) returns (val: Option<int>, mul: nat)
    requires 1 <= byteLength
    ensures val == if Inside(buf.Length, at, byteLength) then Some(Unsigned(buf[at..at + byteLength])) else None
    ensures mul == Pow256(byteLength - 1)
  {
    var i := 1;
    val, mul := Plus(Some(0), Read(buf, at), 1), 1;
    ghost var inside := Inside(buf.Length, at, byteLength);
    ghost var window := if inside then buf[at..at + byteLength] else [];
    assert inside ==> window[..1] == [window[0]];
    while i < byteLength
      invariant 1 <= i <= byteLength
      invariant mul == Pow256(i - 1)
      invariant inside ==> val == Some(Unsigned(window[..i]))
      invariant at < 0 || at + i > buf.Length ==> val.None?
    {
      mul := mul * 256;
      if inside { OneByteMore(window, i); }
      val := Plus(val, Read(buf, at + i), mul);
      i := i + 1;
    }
    assert inside ==> window[..i] == window;
  }

  lemma OneByteMore(window: seq<Byte>, i: nat)
    requires i < |window|
    ensures Unsigned(window[..i + 1]) == Unsigned(window[..i]) + window[i] * Pow256(i)
  {
    UnsignedAppend(window[..i], window[i]);
    assert window[..i] + [window[i]] == window[..i + 1];
  }

  /** The bytes of the window from its end; any other bytes when it is not inside. */
  ghost function WindowFromEnd(buf: seq<Byte>, at: int, n: nat): (r: seq<Byte>)
    ensures |r| == n
    ensures Inside(|buf|, at, n) ==>
      r == Reverse(buf[at..at + n]) && forall k | 0 <= k < n :: r[k] == buf[at + n - 1 - k]
  {
    if Inside(|buf|, at, n) then
      var w := buf[at..at + n];
      assert forall k | 0 <= k < n :: Reverse(w)[k] == w[n - 1 - k] by {
        forall k | 0 <= k < n ensures Reverse(w)[k] == w[n - 1 - k] { ReverseAt(w, k); }
      }
      Reverse(w)
    else seq(n, _ => 0)
  }

  /** The loop of the big-endian reader, `bytes` being the window from its end. */
  method SumBE(buf: array<Byte>, at: int, byteLength: nat, ghost bytes: seq<Byte>)
    returns (val: Option<int>, mul: nat)
    requires 1 <= byteLength == |bytes|
    requires Inside(buf.Length, at, byteLength) ==>
      forall k | 0 <= k < byteLength :: bytes[k] == buf[at + byteLength - 1 - k]
    ensures val == if Inside(buf.Length, at, byteLength) then Some(Unsigned(bytes)) else None
    ensures mul == Pow256(byteLength - 1)
  {
    var i := byteLength - 1;
    val, mul := Plus(Some(0), Read(buf, at + i), 1), 1;
    ghost var inside := Inside(buf.Length, at, byteLength);
    OneByteMore(bytes, 0);
    while i > 0
      invariant 0 <= i < byteLength
      invariant mul == Pow256(byteLength - 1 - i)
      invariant inside ==> val == Some(Unsigned(bytes[..byteLength - i]))
      invariant at + i < 0 || at + byteLength > buf.Length ==> val.None?
    {
      mul := mul * 256;
      i := i - 1;
      OneByteMore(bytes, byteLength - i - 1);
      val := Plus(val, Read(buf, at + i), mul);
    }
    assert bytes[..byteLength] == bytes;
  }

  /** The last step of both readers: values from the sign bit on are negative. */
  function ApplySign(val: Option<int>, mul: nat, byteLength: nat): Result<int> {
    match val
    case None => NotANumber
    case Some(v) => Success(if v >= mul * 128 then v - Pow256(byteLength) else v)
  }

  method ReadIntLE(buf: array<Byte>, offset: int, byteLength: nat, noAssert: bool) returns (r: Result<int>)
    requires 1 <= byteLength <= 6
    ensures match CheckRead(buf.Length, ToInt32(offset), byteLength, noAssert)
      case Success(at) => r == Success(Signed(buf[at..at + byteLength]))
      case OffsetNotUint => r == OffsetNotUint
      case BeyondLength => r == BeyondLength
      case _ => r == NotANumber
  {
    var at := ToInt32(offset);
    if !noAssert {
      if at < 0 { return OffsetNotUint; }
      if at + byteLength > buf.Length { return BeyondLength; }
    }
    var val, mul := SumLE(buf, at, byteLength);
    r := ApplySign(val, mul, byteLength);
  }

  method ReadIntBE(buf: array<Byte>, offset: int, byteLength: nat, noAssert: bool) returns (r: Result<int>)
    requires 1 <= byteLength <= 6
    ensures match CheckRead(buf.Length, ToInt32(offset), byteLength, noAssert)
      case Success(at) => r == Success(Signed(Reverse(buf[at..at + byteLength])))
      case OffsetNotUint => r == OffsetNotUint
      case BeyondLength => r == BeyondLength
      case _ => r == NotANumber
  {
    var at := ToInt32(offset);
    if !noAssert {
      if at < 0 { return OffsetNotUint; }
      if at + byteLength > buf.Length { return BeyondLength; }
    }
    ghost var bytes := WindowFromEnd(buf[..], at, byteLength);
    var val, mul := SumBE(buf, at, byteLength, bytes);
    r := ApplySign(val, mul, byteLength);
  }

  lemma {:induction false} UnsignedAppend(b: seq<Byte>, x: Byte)
    ensures Unsigned(b + [x]) == Unsigned(b) + x * Pow256(|b|)
  {
    if b == [] {
      assert [] + [x] == [x] && [x][1..] == [];
    } else {
      assert (b + [x])[1..] == b[1..] + [x];
      UnsignedAppend(b[1..], x);
      assert 256 * (x * Pow256(|b| - 1)) == x * (256 * Pow256(|b| - 1));
    }
  }

  lemma {:induction false} ReverseTwice(s: seq<Byte>)
    ensures Reverse(Reverse(s)) == s
  {
    forall i | 0 <= i < |s| ensures Reverse(Reverse(s))[i] == s[i] {
      ReverseAt(Reverse(s), i);
      ReverseAt(s, |s| - 1 - i);
    }
  }

  // ---------------------------------------------------------------------------
  // Conversions and checks, as numbers

  /** The conversion to 32 bits keeps the value modulo 2^32 and lands in the signed range. */
  lemma ToInt32Is(x: int, y: int)
    ensures ToInt32(x) == y <==> -2147483648 <= y < 2147483648 && (x - y) % 4294967296 == 0
  {}

  /** The integer of a finite number is its nearest towards zero; any other number gives zero. */
  lemma IntegerIs(x: Number, n: int)
    ensures x.Finite? && x.value >= 0.0 ==> (Integer(x) == n <==> n as real <= x.value < (n + 1) as real)
    ensures x.Finite? && x.value <= 0.0 ==> (Integer(x) == n <==> (n - 1) as real < x.value <= n as real)
    ensures !x.Finite? ==> Integer(x) == 0
  {}

  /** The bounds of each length, for a finite number. */
  lemma BoundsAre(r: real)
    ensures Passes(Finite(r), 1) <==> -128.0 <= r <= 127.0
    ensures Passes(Finite(r), 2) <==> -32768.0 <= r <= 32767.0
    ensures Passes(Finite(r), 3) <==> -8388608.0 <= r <= 8388607.0
    ensures Passes(Finite(r), 4) <==> -2147483648.0 <= r <= 2147483647.0
    ensures Passes(Finite(r), 5) <==> -549755813888.0 <= r <= 549755813887.0
    ensures Passes(Finite(r), 6) <==> -140737488355328.0 <= r <= 140737488355327.0
    ensures Passes(Finite(r), 7) <==> -36028797018963968.0 <= r <= 36028797018963968.0
  {}

  /** Byte k of a window at `at` has its place before the end. */
  predicate BeforeEnd(length: nat, at: int, k: nat) { at + k < length }

  predicate HasPlace(length: nat, at: int, k: nat) { 0 <= at + k < length }

  /** A write is refused for its value first, and then exactly when some byte has its place beyond
      the end; a place before the start is not refused. */
  lemma CheckIntIs(length: nat, x: Number, at: int, byteLength: int)
    requires byteLength >= 1
    ensures CheckInt(length, x, at, byteLength) ==
      if !Passes(x, byteLength) then ValueOutOfBounds
      else if exists k: nat :: k < byteLength && !BeforeEnd(length, at, k) then IndexOutOfRange
      else Success(at + byteLength)
  {
    assert BeforeEnd(length, at, byteLength - 1) <==> at + byteLength <= length;
  }

  /** A read has a value exactly when every byte has its place inside; which error it has otherwise. */
  lemma CheckReadIs(length: nat, at: int, byteLength: nat, noAssert: bool)
    requires byteLength >= 1
    ensures CheckRead(length, at, byteLength, noAssert) ==
      if forall k: nat :: k < byteLength ==> HasPlace(length, at, k) then Success(at)
      else if noAssert then NotANumber
      else if at < 0 then OffsetNotUint else BeyondLength
  {
    assert HasPlace(length, at, 0) && HasPlace(length, at, byteLength - 1) <==> 0 <= at && at + byteLength <= length;
  }

  /** What is laid over the buffer: at least one byte, of the integer or, behind a lost first byte
      of a negative number, of the integer below. */
  lemma LaidAt(x: Number, byteLength: int, firstInside: bool, bigEndian: bool, k: nat)
    requires k < byteLength || k == 0
    ensures var b := Laid(x, byteLength, firstInside, bigEndian);
      var early := !firstInside && (x == NegativeInfinity || (x.Finite? && x.value < 0.0));
      && |b| == (if byteLength >= 1 then byteLength else 1)
      && b[if bigEndian then |b| - 1 - k else k] == ((if early then Integer(x) - 1 else Integer(x)) / Pow256(k)) % 256
  {
    var n := Count(byteLength);
    OrderedAt(Written(Integer(x), Negative(x), firstInside), n, bigEndian, if bigEndian then n - 1 - k else k);
  }

  // ---------------------------------------------------------------------------
  // Round trips through the methods themselves

  /** The longest buffer the original allows. */
  const MAX_LENGTH: nat := 0x7FFF_FFFF

  /** What is laid over a window reads as the value, and all other bytes are as before. */
  lemma ReadsBack(was: seq<Byte>, now: seq<Byte>, at: nat, value: int, n: nat, bigEndian: bool)
    requires n >= 1 && InRange(value, n) && at + n <= |was|
    requires now == Overlaid(was, at, Ordered(value, n, bigEndian))
    ensures Signed(if bigEndian then Reverse(now[at..at + n]) else now[at..at + n]) == value
    ensures forall j | 0 <= j < |was| && !(at <= j < at + n) :: now[j] == was[j]
  {
    OverlaidWindow(was, at, Ordered(value, n, bigEndian));
    SignedOfTwosComplement(value, n);
    ReverseTwice(TwosComplement(value, n));
  }

  lemma InsideIsExact(length: nat, offset: nat, n: nat)
    requires n >= 1 && offset + n <= length <= MAX_LENGTH
    ensures ToInt32(offset) == offset
  {}

  lemma WholeNumber(v: int, n: nat)
    requires 1 <= n <= 6
    ensures Integer(Finite(v as real)) == v && (Passes(Finite(v as real), n) <==> InRange(v, n))
  {}

  /** Either writer, on a window inside the buffer. */
  method WriteInside(buf: array<Byte>, value: int, offset: nat, byteLength: nat, bigEndian: bool, noAssert: bool)
    requires 1 <= byteLength <= 6 && InRange(value, byteLength)
    requires offset + byteLength <= buf.Length <= MAX_LENGTH
    modifies buf
    ensures buf[..] == Overlaid(old(buf[..]), offset, Ordered(value, byteLength, bigEndian))
  {
    InsideIsExact(buf.Length, offset, byteLength);
    WholeNumber(value, byteLength);
    var w;
    if bigEndian {
      w := WriteIntBE(buf, Finite(value as real), offset, byteLength, noAssert);
    } else {
      w := WriteIntLE(buf, Finite(value as real), offset, byteLength, noAssert);
    }
  }

  /** Either reader, on a window inside the buffer. */
  method ReadInside(buf: array<Byte>, offset: nat, byteLength: nat, bigEndian: bool, noAssert: bool)
    returns (r: Result<int>)
    requires 1 <= byteLength <= 6 && offset + byteLength <= buf.Length <= MAX_LENGTH
    ensures var window := buf[..][offset..offset + byteLength];
      r == Success(Signed(if bigEndian then Reverse(window) else window))
  {
    InsideIsExact(buf.Length, offset, byteLength);
    assert buf[..][offset..offset + byteLength] == buf[offset..offset + byteLength];
    if bigEndian {
      r := ReadIntBE(buf, offset, byteLength, noAssert);
    } else {
      r := ReadIntLE(buf, offset, byteLength, noAssert);
    }
  }

  /** Any value that fits is read back, in both byte orders, checked or not. */
  method WriteThenRead(buf: array<Byte>, value: int, offset: nat, byteLength: nat, bigEndian: bool, noAssert: bool)
    returns (r: Result<int>)
    requires 1 <= byteLength <= 6 && InRange(value, byteLength)
    requires offset + byteLength <= buf.Length <= MAX_LENGTH
    modifies buf
    ensures r == Success(value)
    ensures forall j | 0 <= j < buf.Length && !(offset <= j < offset + byteLength) :: buf[..][j] == old(buf[..])[j]
  {
    ghost var was := buf[..];
    WriteInside(buf, value, offset, byteLength, bigEndian, noAssert);
    ReadsBack(was, buf[..], offset, value, byteLength, bigEndian);
    r := ReadInside(buf, offset, byteLength, bigEndian, noAssert);
  }

  /** At offset -1 the checked writer drops the low byte of -256, and stores the high one wrong. */
  method LostByte() returns (b: Byte, right: Byte)
    ensures right == TwosComplement(-256, 2)[1] == 255
    ensures b == 254
  {
    var buf := new Byte[1](_ => 0);
    TwosComplementAt(-256, 2, 1);
    right := ByteOf(-256, 1);
    assert Pow256(1) == 256 * Pow256(0) == 256;
    var w := WriteIntLE(buf, Finite(-256.0), -1, 2, false);
    OrderedAt(-257, 2, false, 1);
    assert buf[..][0] == Ordered(-257, 2, false)[1];
    b := buf[0];
  }
}
