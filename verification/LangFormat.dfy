/**
  The format command of the translation tool: two regular-expression replacements that put a
  space between Chinese and Latin text. Texts are sequences of UTF-16 code units.
 */
module LangFormat {
  import opened Sequences
  import opened Units

  const SPACE: Unit := 0x20

  /** The one exception: CPU followed by the word for "use". */
  const CPU_USE: Text := [0x43, 0x50, 0x55, 0x4F7F, 0x7528]

  predicate Chinese(u: Unit) { 0x4E00 <= u <= 0x9FA5 }
  predicate Latin(u: Unit) { 0x41 <= u <= 0x5A || 0x61 <= u <= 0x7A }

  // ---------------------------------------------------------------------------
  // One replacement

  /** The two character classes of a pattern, in the order the pattern has them. */
  datatype Pattern = ChineseLatin | LatinChinese {
    predicate First(u: Unit) { if ChineseLatin? then Chinese(u) else Latin(u) }
    predicate Second(u: Unit) { if ChineseLatin? then Latin(u) else Chinese(u) }
  }

  /** The pattern matches s[i..k] with its groups meeting at j. */
  ghost predicate MatchesAt(p: Pattern, s: Text, i: nat, j: nat, k: nat) {
    && i < j < k <= |s|
    && (forall x | i <= x < j :: p.First(s[x]))
    && (forall x | j <= x < k :: p.Second(s[x]))
  }

  function RunFirst(p: Pattern, s: Text, i: nat): (j: nat)
    requires i <= |s|
    ensures i <= j <= |s| && (forall x | i <= x < j :: p.First(s[x])) && (j < |s| ==> !p.First(s[j]))
    decreases |s| - i
  {
    if i < |s| && p.First(s[i]) then RunFirst(p, s, i + 1) else i
  }

  function RunSecond(p: Pattern, s: Text, i: nat): (j: nat)
    requires i <= |s|
    ensures i <= j <= |s| && (forall x | i <= x < j :: p.Second(s[x])) && (j < |s| ==> !p.Second(s[j]))
    decreases |s| - i
  {
    if i < |s| && p.Second(s[i]) then RunSecond(p, s, i + 1) else i
  }

  /** Whatever a matcher tries, the groups can only meet at the end of the first run, and the
      longest match ends with the second run. */
  lemma RunsAreTheMatch(p: Pattern, s: Text, i: nat)
    requires i <= |s|
    ensures var j := RunFirst(p, s, i); var k := RunSecond(p, s, j);
      && (forall j': nat, k': nat :: MatchesAt(p, s, i, j', k') ==> j' == j && k' <= k)
      && (MatchesAt(p, s, i, j, k) <==> exists j': nat, k': nat :: MatchesAt(p, s, i, j', k'))
  {
    var j := RunFirst(p, s, i);
    var k := RunSecond(p, s, j);
    forall j': nat, k': nat | MatchesAt(p, s, i, j', k') ensures j' == j && k' <= k && MatchesAt(p, s, i, j, k) {
      assert p.Second(s[j']);
    }
  }

  function Replacement(s: Text, i: nat, j: nat, k: nat): Text
    requires i <= j <= k <= |s|
  {
    if s[i..k] == CPU_USE then s[i..k] else s[i..j] + [SPACE] + s[j..k]
  }

  /** The global replacement from position i on. */
  function ReplaceFrom(p: Pattern, s: Text, i: nat): Text
    requires i <= |s|
    decreases |s| - i
  {
    if i == |s| then []
    else
      var j := RunFirst(p, s, i);
      var k := RunSecond(p, s, j);
      if i < j < k then Replacement(s, i, j, k) + ReplaceFrom(p, s, k)
      else [s[i]] + ReplaceFrom(p, s, i + 1)
  }

  function Format(s: Text): Text {
    ReplaceFrom(LatinChinese, ReplaceFrom(ChineseLatin, s, 0), 0)
  }

  // ---------------------------------------------------------------------------
  // The same, position by position

  /** The classes meet between i - 1 and i. */
  predicate MeetAt(p: Pattern, s: Text, i: nat) {
    0 < i < |s| && p.First(s[i - 1]) && p.Second(s[i])
  }

  predicate IsCpuUse(s: Text, i: nat) {
    && i + 5 <= |s|
    && s[i] == 0x43 && s[i + 1] == 0x50 && s[i + 2] == 0x55 && s[i + 3] == 0x4F7F && s[i + 4] == 0x7528
  }

  /** The whole Latin run before i and the whole Chinese run from i on are the exception. */
  predicate Exempt(s: Text, i: nat) {
    && 3 <= i && IsCpuUse(s, i - 3)
    && (i == 3 || !Latin(s[i - 4])) && (i + 2 == |s| || !Chinese(s[i + 2]))
  }

  predicate Cut(p: Pattern, s: Text, i: nat) {
    MeetAt(p, s, i) && !(p.LatinChinese? && Exempt(s, i))
  }

  type Marks = seq<bool>

  /** `s[..n]` with a space before each marked unit. */
  function Spaced(s: Text, marks: Marks, n: nat): Text
    requires n <= |s| == |marks|
  {
    if n == 0 then []
    else Spaced(s, marks, n - 1) + (if marks[n - 1] then [SPACE] else []) + [s[n - 1]]
  }

  function CutMarks(p: Pattern, s: Text): Marks {
    seq(|s|, i requires 0 <= i < |s| => Cut(p, s, i))
  }

  function AllMarks(s: Text): Marks {
    seq(|s|, i requires 0 <= i < |s| => Cut(ChineseLatin, s, i) || Cut(LatinChinese, s, i))
  }

  /** The scanner never stands inside a first run that is followed by the second class. */
  ghost predicate Clean(p: Pattern, s: Text, i: nat)
    requires i <= |s|
  {
    i == 0 || !p.First(s[i - 1]) || (var j := RunFirst(p, s, i); j == |s| || !p.Second(s[j]))
  }

  lemma {:induction false} SpacedUnmarked(s: Text, marks: Marks, i: nat, k: nat)
    requires i <= k <= |s| == |marks|
    requires forall x | i <= x < k :: !marks[x]
    ensures Spaced(s, marks, k) == Spaced(s, marks, i) + s[i..k]
    decreases k
  {
    if i < k {
      SpacedUnmarked(s, marks, i, k - 1);
      assert s[i..k] == s[i..k - 1] + [s[k - 1]];
    } else {
      assert s[i..k] == [];
    }
  }

  lemma SpacedOneMark(s: Text, marks: Marks, i: nat, j: nat, k: nat)
    requires i < j < k <= |s| == |marks|
    requires forall x | i <= x < k && x != j :: !marks[x]
    ensures Spaced(s, marks, k) == Spaced(s, marks, i) +
      if marks[j] then s[i..j] + [SPACE] + s[j..k] else s[i..k]
  {
    var gap := if marks[j] then [SPACE] else [];
    SpacedUnmarked(s, marks, i, j);
    SpacedUnmarked(s, marks, j + 1, k);
    SpacedUnit(s, marks, j);
    HeadOf(s, i, j, k);
    Regroup(Spaced(s, marks, i), s[i..j], gap, s[j], s[j + 1..k]);
  }

  lemma SpacedUnit(s: Text, marks: Marks, j: nat)
    requires j < |s| == |marks|
    ensures Spaced(s, marks, j + 1) == Spaced(s, marks, j) + (if marks[j] then [SPACE] else []) + [s[j]]
  {}

  lemma HeadOf(s: Text, i: nat, j: nat, k: nat)
    requires i <= j < k <= |s|
    ensures s[j..k] == [s[j]] + s[j + 1..k] && s[i..k] == s[i..j] + s[j..k]
  {}

  lemma Regroup(a: Text, b: Text, gap: Text, c: Unit, d: Text)
    ensures a + b + gap + [c] + d == a + (b + gap + ([c] + d))
    ensures gap == [] ==> b + gap + ([c] + d) == b + ([c] + d)
  {}

  lemma IsException(s: Text, i: nat, k: nat)
    requires i <= k <= |s|
    ensures s[i..k] == CPU_USE <==> k == i + 5 && IsCpuUse(s, i)
  {
    var m := s[i..k];
    if k == i + 5 { assert m == [s[i], s[i + 1], s[i + 2], s[i + 3], s[i + 4]]; }
    if m == CPU_USE {
      assert |m| == 5 && m[0] == 0x43 && m[1] == 0x50 && m[2] == 0x55 && m[3] == 0x4F7F && m[4] == 0x7528;
    }
  }

  /** The marks inside one match: none but at the meeting, and there unless it is the exception. */
  lemma MarksOfMatch(p: Pattern, s: Text, i: nat, j: nat, k: nat)
    requires i < j < k <= |s| && j == RunFirst(p, s, i) && k == RunSecond(p, s, j) && Clean(p, s, i)
    ensures forall x | i <= x < k && x != j :: !Cut(p, s, x)
    ensures Cut(p, s, j) <==> s[i..k] != CPU_USE
  {
    assert p.Second(s[j]);
    assert i == 0 || !p.First(s[i - 1]);
    IsException(s, i, k);
    if k == i + 5 && IsCpuUse(s, i) {
      CpuUseRuns(p, s, i, j);
    }
    if p.LatinChinese? && Exempt(s, j) {
      assert Latin(s[j - 3]) && Latin(s[j - 2]) && Latin(s[j - 1]) && Chinese(s[j + 1]);
    }
  }

  /** In the exception the runs meet behind its third unit. */
  lemma CpuUseRuns(p: Pattern, s: Text, i: nat, j: nat)
    requires i < j < i + 5 && IsCpuUse(s, i) && j == RunFirst(p, s, i)
    ensures p.LatinChinese? && j == i + 3
  {
    assert p.First(s[i]);
  }

  /** A replacement is the insertion of its marked spaces. */
  lemma {:induction false} ReplaceIsSpaced(p: Pattern, s: Text, i: nat)
    requires i <= |s| && Clean(p, s, i)
    ensures Spaced(s, CutMarks(p, s), i) + ReplaceFrom(p, s, i) == Spaced(s, CutMarks(p, s), |s|)
    decreases |s| - i
  {
    if i < |s| {
      var j := RunFirst(p, s, i);
      var k := RunSecond(p, s, j);
      if i < j < k {
        CleanAfterMatch(p, s, j, k);
        ReplaceIsSpaced(p, s, k);
        MatchStep(p, s, i, j, k);
      } else {
        NoMatchHere(p, s, i);
        ReplaceIsSpaced(p, s, i + 1);
        UnitStep(p, s, i, ReplaceFrom(p, s, i + 1));
      }
    }
  }

  lemma UnitStep(p: Pattern, s: Text, i: nat, rest: Text)
    requires i < |s| && !Cut(p, s, i)
    ensures Spaced(s, CutMarks(p, s), i) + ([s[i]] + rest) == Spaced(s, CutMarks(p, s), i + 1) + rest
  {
    Associate(Spaced(s, CutMarks(p, s), i), [s[i]], rest);
  }

  lemma CleanAfterMatch(p: Pattern, s: Text, j: nat, k: nat)
    requires j < k <= |s| && k == RunSecond(p, s, j)
    ensures Clean(p, s, k)
  {
    assert p.Second(s[k - 1]);
  }

  lemma MatchStep(p: Pattern, s: Text, i: nat, j: nat, k: nat)
    requires i < j < k <= |s| && j == RunFirst(p, s, i) && k == RunSecond(p, s, j) && Clean(p, s, i)
    ensures Spaced(s, CutMarks(p, s), i) + ReplaceFrom(p, s, i) == Spaced(s, CutMarks(p, s), k) + ReplaceFrom(p, s, k)
  {
    ReplaceMatch(p, s, i, j, k);
    MatchIsSpaced(p, s, i, j, k);
    Associate(Spaced(s, CutMarks(p, s), i), Replacement(s, i, j, k), ReplaceFrom(p, s, k));
  }

  lemma ReplaceMatch(p: Pattern, s: Text, i: nat, j: nat, k: nat)
    requires i < j < k <= |s| && j == RunFirst(p, s, i) && k == RunSecond(p, s, j)
    ensures ReplaceFrom(p, s, i) == Replacement(s, i, j, k) + ReplaceFrom(p, s, k)
  {}

  lemma MatchIsSpaced(p: Pattern, s: Text, i: nat, j: nat, k: nat)
    requires i < j < k <= |s| && j == RunFirst(p, s, i) && k == RunSecond(p, s, j) && Clean(p, s, i)
    ensures Spaced(s, CutMarks(p, s), i) + Replacement(s, i, j, k) == Spaced(s, CutMarks(p, s), k)
  {
    MarksOfMatch(p, s, i, j, k);
    SpacedOneMark(s, CutMarks(p, s), i, j, k);
  }

  lemma NoMatchHere(p: Pattern, s: Text, i: nat)
    requires i < |s| && Clean(p, s, i)
    requires var j := RunFirst(p, s, i); var k := RunSecond(p, s, j); !(i < j < k)
    ensures !Cut(p, s, i) && Clean(p, s, i + 1)
  {}

  // ---------------------------------------------------------------------------
  // Texts after insertion

  /** Spaces are only ever marked where the two scripts meet. */
  ghost predicate MarksMeetings(s: Text, marks: Marks) {
    |marks| == |s| && forall i | 0 <= i < |s| && marks[i] :: MeetAt(ChineseLatin, s, i) || MeetAt(LatinChinese, s, i)
  }

  /** How many of the first n marks are set. */
  function Shift(marks: Marks, n: nat): nat
    requires n <= |marks|
  {
    if n == 0 then 0 else Shift(marks, n - 1) + if marks[n - 1] then 1 else 0
  }

  /** Where the unit n lands. */
  function Place(marks: Marks, n: nat): nat
    requires n < |marks|
  {
    n + Shift(marks, n + 1)
  }

  /** `t` is `s` with a space in front of each marked unit, said position by position. */
  ghost predicate Inserted(t: Text, s: Text, marks: Marks)
    requires |marks| == |s|
  {
    && |t| == |s| + Shift(marks, |s|)
    && forall n | 0 <= n < |s| ::
         && Place(marks, n) < |t| && t[Place(marks, n)] == s[n]
         && (marks[n] ==> Place(marks, n) > 0 && t[Place(marks, n) - 1] == SPACE)
  }

  lemma {:induction false} SpacedAt(s: Text, marks: Marks, n: nat, k: nat)
    requires k < n <= |s| == |marks|
    ensures var t := Spaced(s, marks, n); var p := Place(marks, k);
      && |t| == n + Shift(marks, n) && p < |t| && t[p] == s[k] && (marks[k] ==> p > 0 && t[p - 1] == SPACE)
    decreases n
  {
    SpacedLength(s, marks, n);
    SpacedLength(s, marks, n - 1);
    if k < n - 1 { SpacedAt(s, marks, n - 1, k); }
  }

  lemma {:induction false} SpacedLength(s: Text, marks: Marks, n: nat)
    requires n <= |s| == |marks|
    ensures |Spaced(s, marks, n)| == n + Shift(marks, n)
  {
    if n > 0 { SpacedLength(s, marks, n - 1); }
  }

  lemma SpacedIsInserted(s: Text, marks: Marks)
    requires |marks| == |s|
    ensures Inserted(Spaced(s, marks, |s|), s, marks)
  {
    SpacedLength(s, marks, |s|);
    forall k | 0 <= k < |s|
      ensures var t := Spaced(s, marks, |s|); var p := Place(marks, k);
        p < |t| && t[p] == s[k] && (marks[k] ==> p > 0 && t[p - 1] == SPACE)
    {
      SpacedAt(s, marks, |s|, k);
    }
  }

  /** The exception is recognised at the same places before and after spaces went in at
      meetings elsewhere. */
  lemma ExemptStays(t: Text, s: Text, marks: Marks, n: nat)
    requires MarksMeetings(s, marks) && Inserted(t, s, marks)
    requires MeetAt(LatinChinese, s, n) && !marks[n]
    ensures Exempt(t, Place(marks, n)) <==> Exempt(s, n)
  {
    if Exempt(s, n) { ExemptAfter(t, s, marks, n); }
    if Exempt(t, Place(marks, n)) { ExemptBefore(t, s, marks, n); }
  }

  lemma FirstPlace(s: Text, marks: Marks)
    requires MarksMeetings(s, marks) && s != []
    ensures Place(marks, 0) == 0
  {
    assert !marks[0] && Shift(marks, 0) == 0;
  }

  /** Neighbours land side by side, or with one space between them. */
  lemma Next(t: Text, s: Text, marks: Marks, n: nat)
    requires |marks| == |s| && Inserted(t, s, marks) && n + 1 < |s|
    ensures var p := Place(marks, n); var q := Place(marks, n + 1);
      && q == (if marks[n + 1] then p + 2 else p + 1) && q < |t| && t[p] == s[n] && t[q] == s[n + 1]
      && (marks[n + 1] ==> t[p + 1] == SPACE)
  {}

  lemma ExemptAfter(t: Text, s: Text, marks: Marks, n: nat)
    requires MarksMeetings(s, marks) && Inserted(t, s, marks)
    requires MeetAt(LatinChinese, s, n) && !marks[n] && Exempt(s, n)
    ensures Exempt(t, Place(marks, n))
  {
    if n > 3 { Next(t, s, marks, n - 4); }
    Next(t, s, marks, n - 3);
    Next(t, s, marks, n - 2);
    Next(t, s, marks, n - 1);
    Next(t, s, marks, n);
    if n + 2 < |s| { Next(t, s, marks, n + 1); } else { assert Place(marks, n + 1) == |t| - 1; }
    FirstPlace(s, marks);
  }

  lemma ExemptBefore(t: Text, s: Text, marks: Marks, n: nat)
    requires MarksMeetings(s, marks) && Inserted(t, s, marks)
    requires MeetAt(LatinChinese, s, n) && !marks[n] && Exempt(t, Place(marks, n))
    ensures Exempt(s, n)
  {
    ExemptBeforeLeft(t, s, marks, n);
    assert n + 1 < |s|;
    Next(t, s, marks, n);
    if n + 2 < |s| { Next(t, s, marks, n + 1); }
  }

  lemma ExemptBeforeLeft(t: Text, s: Text, marks: Marks, n: nat)
    requires MarksMeetings(s, marks) && Inserted(t, s, marks)
    requires MeetAt(LatinChinese, s, n) && !marks[n] && Exempt(t, Place(marks, n))
    ensures n >= 3 && s[n - 3] == 0x43 && s[n - 2] == 0x50 && s[n - 1] == 0x55
    ensures n == 3 || !Latin(s[n - 4])
  {
    FirstPlace(s, marks);
    Next(t, s, marks, n - 1);
    assert n > 1;
    Next(t, s, marks, n - 2);
    assert n > 2;
    Next(t, s, marks, n - 3);
    if n > 3 { Next(t, s, marks, n - 4); }
  }

  /** A meeting that was left unmarked shows in the spaced text, and no new one does. */
  lemma MeetingStays(p: Pattern, t: Text, s: Text, m: Marks, n: nat)
    requires n < |s| && MarksMeetings(s, m) && Inserted(t, s, m) && !m[n]
    ensures MeetAt(p, t, Place(m, n)) <==> MeetAt(p, s, n)
    ensures Cut(p, t, Place(m, n)) <==> Cut(p, s, n)
  {
    if n > 0 { Next(t, s, m, n - 1); } else { FirstPlace(s, m); }
    if p.LatinChinese? && MeetAt(p, s, n) { ExemptStays(t, s, m, n); }
  }

  // ---------------------------------------------------------------------------
  // Spacing a spaced text

  /** Spacing a spaced text at meetings: the outcome is that of spacing the original at
      `both`, when the second marks agree with it at the units not marked first. */
  lemma {:induction false} SpacedAgain(t: Text, s: Text, m: Marks, mt: Marks, both: Marks, n: nat)
    requires n <= |s| == |both| && MarksMeetings(s, m) && Inserted(t, s, m) && MarksMeetings(t, mt)
    requires forall k | 0 <= k < |s| :: if m[k] then both[k] else mt[Place(m, k)] == both[k]
    ensures n + Shift(m, n) <= |t| && Spaced(t, mt, n + Shift(m, n)) == Spaced(s, both, n)
  {
    if n > 0 {
      SpacedAgain(t, s, m, mt, both, n - 1);
      var p := n - 1 + Shift(m, n - 1);
      if m[n - 1] {
        assert Place(m, n - 1) == p + 1;
        TwoMore(t, mt, p);
      } else {
        assert Place(m, n - 1) == p;
      }
    }
  }

  /** A space and the unit behind it never get another space. */
  lemma TwoMore(t: Text, mt: Marks, p: nat)
    requires p + 2 <= |t| && MarksMeetings(t, mt) && t[p] == SPACE
    ensures Spaced(t, mt, p + 2) == Spaced(t, mt, p) + [SPACE] + [t[p + 1]]
  {
    assert !mt[p] && !mt[p + 1];
    assert Spaced(t, mt, p + 1) == Spaced(t, mt, p) + [SPACE];
  }

  lemma SecondMarks(t: Text, s: Text)
    requires Inserted(t, s, CutMarks(ChineseLatin, s))
    ensures MarksMeetings(s, CutMarks(ChineseLatin, s)) && MarksMeetings(t, CutMarks(LatinChinese, t))
    ensures forall k | 0 <= k < |s| && CutMarks(ChineseLatin, s)[k] :: AllMarks(s)[k]
    ensures forall k | 0 <= k < |s| && !CutMarks(ChineseLatin, s)[k] ::
      CutMarks(LatinChinese, t)[Place(CutMarks(ChineseLatin, s), k)] == AllMarks(s)[k]
  {
    var m := CutMarks(ChineseLatin, s);
    forall k | 0 <= k < |s| && !m[k] ensures Cut(LatinChinese, t, Place(m, k)) == Cut(LatinChinese, s, k) {
      MeetingStays(LatinChinese, t, s, m, k);
    }
  }

  lemma SecondPass(t: Text, s: Text)
    requires Inserted(t, s, CutMarks(ChineseLatin, s))
    ensures Spaced(t, CutMarks(LatinChinese, t), |t|) == Spaced(s, AllMarks(s), |s|)
  {
    SecondMarks(t, s);
    SpacedMore(t, s, CutMarks(ChineseLatin, s), CutMarks(LatinChinese, t), AllMarks(s));
  }

  lemma SpacedMore(t: Text, s: Text, m: Marks, mt: Marks, both: Marks)
    requires |both| == |s| && MarksMeetings(s, m) && Inserted(t, s, m) && MarksMeetings(t, mt)
    requires forall k | 0 <= k < |s| && m[k] :: both[k]
    requires forall k | 0 <= k < |s| && !m[k] :: mt[Place(m, k)] == both[k]
    ensures Spaced(t, mt, |t|) == Spaced(s, both, |s|)
  {
    SpacedAgain(t, s, m, mt, both, |s|);
  }

  /** Formatting puts a space exactly before the units where Chinese meets Latin or Latin
      meets Chinese outside the exception, and does nothing else. */
  lemma {:induction false} FormatIsSpaced(s: Text)
    ensures Format(s) == Spaced(s, AllMarks(s), |s|)
  {
    var t := ReplaceFrom(ChineseLatin, s, 0);
    PassIsSpaced(ChineseLatin, s);
    PassIsSpaced(LatinChinese, t);
    SpacedIsInserted(s, CutMarks(ChineseLatin, s));
    SecondPass(t, s);
  }

  lemma PassIsSpaced(p: Pattern, s: Text)
    ensures ReplaceFrom(p, s, 0) == Spaced(s, CutMarks(p, s), |s|)
  {
    ReplaceIsSpaced(p, s, 0);
    assert Spaced(s, CutMarks(p, s), 0) == [];
  }

  lemma {:induction false} SameLengthNoMarks(m: Marks, n: nat)
    requires n <= |m| && Shift(m, n) == 0
    ensures forall k | 0 <= k < n :: !m[k]
  {
    if n > 0 { SameLengthNoMarks(m, n - 1); }
  }

  lemma MarksAgain(t: Text, s: Text)
    requires Inserted(t, s, AllMarks(s))
    ensures MarksMeetings(s, AllMarks(s)) && MarksMeetings(t, AllMarks(t))
    ensures forall k | 0 <= k < |s| && !AllMarks(s)[k] :: !AllMarks(t)[Place(AllMarks(s), k)]
  {
    var m := AllMarks(s);
    forall k | 0 <= k < |s| && !m[k]
      ensures !Cut(ChineseLatin, t, Place(m, k)) && !Cut(LatinChinese, t, Place(m, k))
    {
      MeetingStays(ChineseLatin, t, s, m, k);
      MeetingStays(LatinChinese, t, s, m, k);
    }
  }

  lemma SpacedIsStable(t: Text, s: Text)
    requires Inserted(t, s, AllMarks(s))
    ensures Spaced(t, AllMarks(t), |t|) == Spaced(s, AllMarks(s), |s|)
  {
    MarksAgain(t, s);
    SpacedStill(t, s, AllMarks(s), AllMarks(t));
  }

  lemma SpacedStill(t: Text, s: Text, m: Marks, mt: Marks)
    requires MarksMeetings(s, m) && Inserted(t, s, m) && MarksMeetings(t, mt)
    requires forall k | 0 <= k < |s| && !m[k] :: !mt[Place(m, k)]
    ensures Spaced(t, mt, |t|) == Spaced(s, m, |s|)
  {
    SpacedAgain(t, s, m, mt, m, |s|);
  }

  /** Formatting a formatted text changes nothing. */
  lemma {:induction false} FormatTwice(s: Text)
    ensures Format(Format(s)) == Format(s)
  {
    FormatIsSpaced(s);
    FormatIsSpaced(Format(s));
    SpacedIsInserted(s, AllMarks(s));
    SpacedIsStable(Format(s), s);
  }

  /** The only place where the scripts still touch in a formatted text is the exception. */
  lemma {:induction false} OnlyTheExceptionIsLeft(s: Text, i: nat)
    ensures !MeetAt(ChineseLatin, Format(s), i)
    ensures MeetAt(LatinChinese, Format(s), i) ==> Exempt(Format(s), i)
  {
    var t := Format(s);
    FormatTwice(s);
    FormatIsSpaced(t);
    SpacedLength(t, AllMarks(t), |t|);
    SameLengthNoMarks(AllMarks(t), |t|);
    if i < |t| { assert !AllMarks(t)[i]; }
  }

  /** Two units get a space between them exactly when one is an ideograph and the other a letter. */
  lemma FormatOfTwo(a: Unit, b: Unit)
    ensures var left := 0x4E00 <= a <= 0x9FA5 && (0x41 <= b <= 0x5A || 0x61 <= b <= 0x7A);
      var right := (0x41 <= a <= 0x5A || 0x61 <= a <= 0x7A) && 0x4E00 <= b <= 0x9FA5;
      Format([a, b]) == if left || right then [a, 0x20, b] else [a, b]
  {
    var m := AllMarks([a, b]);
    FormatIsSpaced([a, b]);
    assert !m[0];
    SpacedUnit([a, b], m, 0);
    SpacedUnit([a, b], m, 1);
  }

  /** The one exception stays as it is. */
  lemma FormatOfException()
    ensures Format([0x43, 0x50, 0x55, 0x4F7F, 0x7528]) == [0x43, 0x50, 0x55, 0x4F7F, 0x7528]
  {
    FormatIsSpaced(CPU_USE);
    ExceptionHasNoMarks(CPU_USE);
    SpacedUnmarked(CPU_USE, AllMarks(CPU_USE), 0, 5);
  }

  lemma ExceptionHasNoMarks(s: Text)
    requires |s| == 5 && IsCpuUse(s, 0)
    ensures forall i | 0 <= i < 5 :: !AllMarks(s)[i]
  {}
}
