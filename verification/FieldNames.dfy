/**
  Which field names may be pasted into a GROUP BY or ORDER BY. The code matches one regular
  expression of two anchored branches; it is modelled as an expression with the usual
  meaning.
 */
module FieldNames {
  import opened Sequences
  import opened Wrappers

  datatype Regex =
    | Letter
    | LetterOrDigit
    | Underscore
    | Then(first: Regex, second: Regex)
    | Either(left: Regex, right: Regex)
    | Optional(inner: Regex)
    | Star(inner: Regex)

  predicate IsLetter(c: char) { 'a' <= c <= 'z' || 'A' <= c <= 'Z' }
  predicate IsDigit(c: char) { '0' <= c <= '9' }

  /** The whole of `s` is matched. */
  ghost predicate Matches(r: Regex, s: string)
    decreases r, |s|
  {
    match r
    case Letter => |s| == 1 && IsLetter(s[0])
    case LetterOrDigit => |s| == 1 && (IsLetter(s[0]) || IsDigit(s[0]))
    case Underscore => s == "_"
    case Then(a, b) => exists i | 0 <= i <= |s| :: Matches(a, s[..i]) && Matches(b, s[i..])
    case Either(a, b) => Matches(a, s) || Matches(b, s)
    case Optional(a) => s == [] || Matches(a, s)
    case Star(a) => s == [] || exists i | 0 < i <= |s| :: Matches(a, s[..i]) && Matches(Star(a), s[i..])
  }

  /** (^_([a-zA-Z0-9]_?)*$)|(^[a-zA-Z](_?[a-zA-Z0-9])*_?$) */
  const AFTER: Regex := Then(LetterOrDigit, Optional(Underscore))
  const BEFORE: Regex := Then(Optional(Underscore), LetterOrDigit)
  const BRANCH1: Regex := Then(Underscore, Star(AFTER))
  const BRANCH2: Regex := Then(Letter, Then(Star(BEFORE), Optional(Underscore)))
  const FIELD: Regex := Either(BRANCH1, BRANCH2)

  // ---------------------------------------------------------------------------
  // The same as a simple predicate

  predicate IsWord(c: char) { IsLetter(c) || IsDigit(c) || c == '_' }

  /** Word characters without two underscores in a row. */
  predicate Plain(s: string) {
    && (forall i | 0 <= i < |s| :: IsWord(s[i]))
    && (forall i | 0 <= i < |s| - 1 :: s[i] != '_' || s[i + 1] != '_')
  }

  predicate FieldName(s: string) {
    s != [] && Plain(s) && !IsDigit(s[0])
  }

  lemma PlainParts(s: string, i: nat)
    requires i <= |s|
    ensures Plain(s) <==> Plain(s[..i]) && Plain(s[i..]) && !(0 < i < |s| && s[i - 1] == '_' && s[i] == '_')
  {
    var a, b := s[..i], s[i..];
    if Plain(s) {
      forall k | 0 <= k < |b| ensures IsWord(b[k]) { assert b[k] == s[i + k]; }
      forall k | 0 <= k < |b| - 1 ensures b[k] != '_' || b[k + 1] != '_' { assert b[k] == s[i + k]; }
      forall k | 0 <= k < |a| - 1 ensures a[k] != '_' || a[k + 1] != '_' { assert a[k] == s[k]; }
      if 0 < i < |s| { var k := i - 1; assert s[k] != '_' || s[k + 1] != '_'; }
    }
    if Plain(a) && Plain(b) && !(0 < i < |s| && s[i - 1] == '_' && s[i] == '_') {
      forall k | 0 <= k < |s| ensures IsWord(s[k]) {
        if k < i { assert a[k] == s[k]; } else { assert b[k - i] == s[k]; }
      }
      forall k | 0 <= k < |s| - 1 ensures s[k] != '_' || s[k + 1] != '_' {
        if k + 1 < i { assert a[k] == s[k] && a[k + 1] == s[k + 1]; }
        if k >= i { assert b[k - i] == s[k] && b[k - i + 1] == s[k + 1]; }
      }
    }
  }

  lemma OptionalIs(s: string)
    ensures Matches(Optional(Underscore), s) <==> s == "" || s == "_"
  {
    assert Matches(Underscore, s) <==> s == "_";
  }

  lemma MatchesAfter(s: string)
    ensures Matches(AFTER, s) <==>
      && 1 <= |s| <= 2 && (IsLetter(s[0]) || IsDigit(s[0])) && (|s| == 2 ==> s[1] == '_')
  {
    if Matches(AFTER, s) {
      var i :| 0 <= i <= |s| && Matches(LetterOrDigit, s[..i]) && Matches(Optional(Underscore), s[i..]);
      OptionalIs(s[i..]);
      assert s == s[..i] + s[i..];
    }
    if 1 <= |s| <= 2 && (IsLetter(s[0]) || IsDigit(s[0])) && (|s| == 2 ==> s[1] == '_') {
      OptionalIs(s[1..]);
      assert s[1..] == "" || s[1..] == "_";
      assert Matches(LetterOrDigit, s[..1]) && Matches(Optional(Underscore), s[1..]);
    }
  }

  lemma MatchesBefore(s: string)
    ensures Matches(BEFORE, s) <==>
      && 1 <= |s| <= 2 && (IsLetter(s[|s| - 1]) || IsDigit(s[|s| - 1])) && (|s| == 2 ==> s[0] == '_')
  {
    if Matches(BEFORE, s) {
      var i :| 0 <= i <= |s| && Matches(Optional(Underscore), s[..i]) && Matches(LetterOrDigit, s[i..]);
      OptionalIs(s[..i]);
      assert s == s[..i] + s[i..];
    } else if 1 <= |s| <= 2 {
      BeforeAt(s, |s| - 1);
    }
  }

  lemma BeforeAt(s: string, i: nat)
    requires i + 1 == |s| <= 2 && !Matches(BEFORE, s)
    ensures !(IsLetter(s[i]) || IsDigit(s[i])) || (i == 1 && s[0] != '_')
  {
    assert !(Matches(Optional(Underscore), s[..i]) && Matches(LetterOrDigit, s[i..]));
    OptionalIs(s[..i]);
    assert s[i..] == [s[i]];
    if i == 0 { assert s[..i] == ""; } else { assert s[..i] == [s[0]]; }
  }

  /** ([a-zA-Z0-9]_?)* : plain and not starting with an underscore. */
  lemma {:induction false} StarAfter(s: string)
    ensures Matches(Star(AFTER), s) <==> Plain(s) && (s == [] || s[0] != '_')
    decreases |s|
  {
    if s != [] {
      if Matches(Star(AFTER), s) {
        var i :| 0 < i <= |s| && Matches(AFTER, s[..i]) && Matches(Star(AFTER), s[i..]);
        MatchesAfter(s[..i]);
        StarAfter(s[i..]);
        PlainParts(s, i);
      }
      if Plain(s) && s[0] != '_' {
        var i := if |s| >= 2 && s[1] == '_' then 2 else 1;
        MatchesAfter(s[..i]);
        PlainParts(s, i);
        StarAfter(s[i..]);
        if i < |s| { assert s[i..][0] == s[i] && (i == 2 ==> s[1] != '_' || s[1 + 1] != '_'); }
      }
    }
  }

  /** (_?[a-zA-Z0-9])* : plain and not ending with an underscore. */
  lemma {:induction false} StarBefore(s: string)
    ensures Matches(Star(BEFORE), s) <==> Plain(s) && (s == [] || s[|s| - 1] != '_')
    decreases |s|
  {
    if s != [] {
      if Matches(Star(BEFORE), s) {
        var i :| 0 < i <= |s| && Matches(BEFORE, s[..i]) && Matches(Star(BEFORE), s[i..]);
        MatchesBefore(s[..i]);
        StarBefore(s[i..]);
        PlainParts(s, i);
      }
      if Plain(s) && s[|s| - 1] != '_' {
        var i := if s[0] == '_' then 2 else 1;
        assert i == 2 ==> |s| >= 2 && (s[0] != '_' || s[0 + 1] != '_');
        MatchesBefore(s[..i]);
        PlainParts(s, i);
        StarBefore(s[i..]);
      }
    }
  }

  lemma Branch1Is(s: string)
    ensures Matches(BRANCH1, s) <==> Plain(s) && s != [] && s[0] == '_'
  {
    if s != [] { StarAfter(s[1..]); PlainParts(s, 1); }
    if Matches(BRANCH1, s) {
      var i :| 0 <= i <= |s| && Matches(Underscore, s[..i]) && Matches(Star(AFTER), s[i..]);
    }
    if Plain(s) && s != [] && s[0] == '_' {
      assert |s| > 1 ==> s[0] != '_' || s[0 + 1] != '_';
      assert Matches(Underscore, s[..1]) && Matches(Star(AFTER), s[1..]);
    }
  }

  lemma Branch2Is(s: string)
    ensures Matches(BRANCH2, s) <==> Plain(s) && s != [] && IsLetter(s[0])
  {
    if s != [] {
      PlainParts(s, 1);
      TailOfBranch2(s[1..]);
    }
    if Matches(BRANCH2, s) {
      var i :| 0 <= i <= |s| && Matches(Letter, s[..i])
            && Matches(Then(Star(BEFORE), Optional(Underscore)), s[i..]);
      assert i == 1;
    }
    if Plain(s) && s != [] && IsLetter(s[0]) {
      assert Matches(Letter, s[..1]);
    }
  }

  lemma TailOfBranch2(s: string)
    ensures Matches(Then(Star(BEFORE), Optional(Underscore)), s) <==> Plain(s)
  {
    if Matches(Then(Star(BEFORE), Optional(Underscore)), s) {
      var i :| 0 <= i <= |s| && Matches(Star(BEFORE), s[..i]) && Matches(Optional(Underscore), s[i..]);
      OptionalIs(s[i..]);
      StarBefore(s[..i]);
      PlainParts(s, i);
    }
    if Plain(s) {
      var i := if s != [] && s[|s| - 1] == '_' then |s| - 1 else |s|;
      PlainParts(s, i);
      StarBefore(s[..i]);
      OptionalIs(s[i..]);
      assert s[i..] == "" || s[i..] == "_";
      assert Matches(Star(BEFORE), s[..i]) && Matches(Optional(Underscore), s[i..]);
    }
  }

  /** The two branches together accept exactly the field names. */
  lemma {:induction false} FieldIsFieldName(s: string)
    ensures Matches(FIELD, s) <==> FieldName(s)
    ensures Matches(FIELD, s) <==>
      && s != [] && !('0' <= s[0] <= '9')
      && (forall i | 0 <= i < |s| :: 'a' <= s[i] <= 'z' || 'A' <= s[i] <= 'Z' || '0' <= s[i] <= '9' || s[i] == '_')
      && (forall i | 0 <= i < |s| - 1 :: s[i] != '_' || s[i + 1] != '_')
  {
    Branch1Is(s);
    Branch2Is(s);
  }

  // ---------------------------------------------------------------------------
  // The check and its two users

  function TrimLeft(s: string): string {
    if s != [] && s[0] == ' ' then TrimLeft(s[1..]) else s
  }

  function TrimRight(s: string): string {
    if s != [] && s[|s| - 1] == ' ' then TrimRight(s[..|s| - 1]) else s
  }

  function Trim(s: string): string {
    TrimRight(TrimLeft(s))
  }

  ghost predicate CheckField(field: string) {
    Matches(FIELD, Trim(field))
  }

  /** Only spaces at the two ends are trimmed, and all of them. */
  lemma TrimIs(s: string) returns (a: nat, b: nat)
    ensures a <= b <= |s| && Trim(s) == s[a..b]
    ensures forall i | 0 <= i < a || b <= i < |s| :: s[i] == ' '
    ensures Trim(s) != [] ==> Trim(s)[0] != ' ' && Trim(s)[|Trim(s)| - 1] != ' '
  {
    a := TrimLeftIs(s);
    var t := s[a..];
    var k := TrimRightIs(t);
    b := a + k;
    assert t[..k] == s[a..b];
    assert forall i | b <= i < |s| :: s[i] == t[i - a];
  }

  lemma {:induction false} TrimLeftIs(s: string) returns (a: nat)
    ensures a <= |s| && TrimLeft(s) == s[a..]
    ensures (forall i | 0 <= i < a :: s[i] == ' ') && (a < |s| ==> s[a] != ' ')
  {
    a := 0;
    if s != [] && s[0] == ' ' {
      var rest := TrimLeftIs(s[1..]);
      a := rest + 1;
      assert forall i | 0 < i < a :: s[i] == s[1..][i - 1];
    }
  }

  lemma {:induction false} TrimRightIs(s: string) returns (b: nat)
    ensures b <= |s| && TrimRight(s) == s[..b]
    ensures (forall i | b <= i < |s| :: s[i] == ' ') && (b > 0 ==> s[b - 1] != ' ')
  {
    b := |s|;
    if s != [] && s[|s| - 1] == ' ' {
      b := TrimRightIs(s[..|s| - 1]);
      assert s[..|s| - 1][..b] == s[..b];
    }
  }

  /** Nothing but word characters and spaces: no quote, comma, parenthesis or comment mark. */
  predicate Harmless(s: string) {
    forall i | 0 <= i < |s| :: IsWord(s[i]) || s[i] == ' '
  }

  /** A field passes exactly when it is a field name between spaces. */
  lemma CheckedIsNameBetweenSpaces(field: string)
    ensures CheckField(field) <==> exists a, b | 0 <= a <= b <= |field| ::
      && FieldName(field[a..b])
      && (forall i | 0 <= i < a || b <= i < |field| :: field[i] == ' ')
    ensures CheckField(field) ==> Harmless(field)
  {
    var a, b := TrimIs(field);
    FieldIsFieldName(Trim(field));
    if CheckField(field) {
      assert FieldName(field[a..b]);
      forall i | a <= i < b ensures IsWord(field[i]) { assert field[i] == field[a..b][i - a]; }
    }
    if a', b' :| 0 <= a' <= b' <= |field| && FieldName(field[a'..b'])
                 && (forall i | 0 <= i < a' || b' <= i < |field| :: field[i] == ' ')
    {
      var name := field[a'..b'];
      assert IsWord(name[0]) && name[0] == field[a'];
      assert IsWord(name[|name| - 1]) && name[|name| - 1] == field[b' - 1];
      assert a <= a' && b' <= b;
      if a < b { assert Trim(field)[0] == field[a] && Trim(field)[|Trim(field)| - 1] == field[b - 1]; }
      assert a' == a && b' == b;
    }
  }

  /** Running the check: one pass over the trimmed text. */
  method RunCheckField(field: string) returns (pass: bool)
    ensures pass <==> CheckField(field)
  {
    var s := Trim(field);
    FieldIsFieldName(s);
    pass := FieldName(s);
  }

  /** The fields that pass, in order. */
  ghost function Accepted(fields: seq<string>): seq<string> {
    if fields == [] then []
    else Accepted(fields[..|fields| - 1]) +
         if CheckField(fields[|fields| - 1]) then [fields[|fields| - 1]] else []
  }

  /** Exactly the fields that pass are kept, each where it was between the others. */
  lemma {:induction false} AcceptedInOrder(fields: seq<string>) returns (at: seq<nat>)
    ensures Picks(at, Accepted(fields), fields, CheckField)
  {
    at := [];
    if fields != [] {
      var n := |fields| - 1;
      var before := AcceptedInOrder(fields[..n]);
      PicksOneMore(before, Accepted(fields[..n]), fields, CheckField);
      at := before + if CheckField(fields[n]) then [n] else [];
    }
  }

  /** A harmless text behind the table alias. */
  predicate Aliased(column: string) {
    |column| >= 3 && column[..3] == "T0." && Harmless(column[3..])
  }

  ghost function Prefixed(fields: seq<string>): seq<string> {
    seq(|fields|, i requires 0 <= i < |fields| => "T0." + fields[i])
  }

  /** Exactly the accepted fields, in order and as given, each behind the table alias; nothing
      is asked of the builder when there are no fields. */
  method BuildGroupBy(fields: seq<string>) returns (groups: Option<seq<string>>)
    ensures groups == if fields == [] then None else Some(Prefixed(Accepted(fields)))
    ensures groups.Some? ==> |groups.value| == |Accepted(fields)|
    ensures groups.Some? ==> forall i | 0 <= i < |groups.value| :: groups.value[i] == "T0." + Accepted(fields)[i]
    ensures groups.Some? ==> KeptInOrder(Accepted(fields), fields, CheckField)
    ensures groups.Some? ==> forall g | g in groups.value :: Aliased(g)
  {
    if |fields| == 0 { return None; }
    var r := [];
    for i := 0 to |fields|
      invariant r == Prefixed(Accepted(fields[..i]))
      invariant forall g | g in r :: Aliased(g)
    {
      assert fields[..i + 1][..i] == fields[..i];
      var pass := RunCheckField(fields[i]);
      CheckedIsNameBetweenSpaces(fields[i]);
      if pass { r := r + ["T0." + fields[i]]; }
    }
    assert fields[..|fields|] == fields;
    ghost var at := AcceptedInOrder(fields);
    groups := Some(r);
  }

  datatype Order = Order(column: string, ascending: bool)

  /** How the request for an order is written. */
  function Request(o: Order): string
    requires Aliased(o.column)
  {
    (if o.ascending then "" else "-") + o.column[3..]
  }

  /** Whatever is pasted into the statement is harmless, and it is what was asked for: the order
      written as a request is the input. Only a rejected field asks for no order. */
  method BuildOrder(sort: string) returns (order: Option<Order>)
    ensures order.Some? ==> Aliased(order.value.column) && Request(order.value) == sort
    ensures order.Some? <==> CheckField(if sort != "" && sort[0] == '-' then sort[1..] else sort)
  {
    CheckedIsNameBetweenSpaces("");
    if sort == "" { return None; }
    var asc, field := true, sort;
    if sort[0] == '-' { asc, field := false, sort[1..]; }
    var pass := RunCheckField(field);
    if !pass { return None; }
    CheckedIsNameBetweenSpaces(field);
    assert ("T0." + field)[3..] == field;
    order := Some(Order("T0." + field, asc));
  }
}
