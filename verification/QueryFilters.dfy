/**
  The WHERE clause built from a map of filters, visited in whatever order the language
  iterates the map. A key names a column and, behind a double underscore, an operator.
 */
module QueryFilters {
  import FieldNames
  import opened Wrappers

  datatype Operator = Exact | Contains

  /** One condition `T0.column = ?` or `T0.column LIKE BINARY ?`. */
  datatype Condition = Condition(column: string, op: Operator)

  datatype Entry = Entry(key: string, value: string)

  // ---------------------------------------------------------------------------
  // Keys

  const SEPARATOR := "__"

  predicate SeparatorAt(s: string, i: nat) {
    i + 2 <= |s| && s[i..i + 2] == SEPARATOR
  }

  /** Where the first separator starts, or the length. */
  function FirstSeparator(s: string, from: nat): (i: nat)
    requires from <= |s|
    ensures from <= i <= |s| && (i < |s| ==> SeparatorAt(s, i))
    ensures forall k | from <= k < i :: !SeparatorAt(s, k)
    decreases |s| - from
  {
    if from == |s| || SeparatorAt(s, from) then from else FirstSeparator(s, from + 1)
  }

  function Split(s: string): (parts: seq<string>)
    ensures |parts| >= 1
    decreases |s|
  {
    var i := FirstSeparator(s, 0);
    if i == |s| then [s] else [s[..i]] + Split(s[i + 2..])
  }

  function Join(parts: seq<string>): string
    requires |parts| >= 1
  {
    if |parts| == 1 then parts[0] else parts[0] + SEPARATOR + Join(parts[1..])
  }

  /** The parts are the key cut at its separators. */
  lemma {:induction false} SplitJoin(s: string)
    ensures Join(Split(s)) == s
    decreases |s|
  {
    var i := FirstSeparator(s, 0);
    if i < |s| {
      SplitJoin(s[i + 2..]);
      JoinCons(s[..i], Split(s[i + 2..]));
      assert s == s[..i] + SEPARATOR + s[i + 2..];
    }
  }

  lemma JoinCons(first: string, rest: seq<string>)
    requires |rest| >= 1
    ensures Join([first] + rest) == first + SEPARATOR + Join(rest)
  {
    assert ([first] + rest)[1..] == rest;
  }

  /** The operator a key asks for, if the key is well formed. */
  function OperatorOf(key: string): Option<Operator> {
    var parts := Split(key);
    if |parts| > 2 then None
    else if |parts| == 1 then Some(Exact)
    else if parts[1] == "exact" then Some(Exact)
    else if parts[1] == "contains" then Some(Contains)
    else None
  }

  function ConditionOf(key: string, snake: string -> string): Condition
    requires OperatorOf(key).Some?
  {
    Condition(snake(Split(key)[0]), OperatorOf(key).value)
  }

  function ValueOf(e: Entry): string
    requires OperatorOf(e.key).Some?
  {
    if OperatorOf(e.key).value == Contains then "%" + e.value + "%" else e.value
  }

  // ---------------------------------------------------------------------------
  // Building the clause

  function AcceptedEntries(entries: seq<Entry>): (r: seq<Entry>)
    ensures forall e :: e in r <==> e in entries && OperatorOf(e.key).Some?
  {
    if entries == [] then []
    else AcceptedEntries(entries[..|entries| - 1]) +
         if OperatorOf(entries[|entries| - 1].key).Some? then [entries[|entries| - 1]] else []
  }

  /** The i-th placeholder and the i-th value come from the i-th accepted entry. */
  ghost predicate Paired(accepted: seq<Entry>, clause: seq<Condition>, values: seq<string>, snake: string -> string) {
    && |clause| == |values| == |accepted|
    && forall i | 0 <= i < |accepted| ::
         && OperatorOf(accepted[i].key).Some?
         && clause[i] == ConditionOf(accepted[i].key, snake)
         && values[i] == ValueOf(accepted[i])
  }

  lemma OneMorePaired(entries: seq<Entry>, i: nat, clause: seq<Condition>, values: seq<string>,
                      snake: string -> string)
    requires i < |entries| && Paired(AcceptedEntries(entries[..i]), clause, values, snake)
    ensures var e := entries[i];
      if OperatorOf(e.key).Some?
      then Paired(AcceptedEntries(entries[..i + 1]), clause + [ConditionOf(e.key, snake)], values + [ValueOf(e)], snake)
      else Paired(AcceptedEntries(entries[..i + 1]), clause, values, snake)
  {
    assert entries[..i + 1][..i] == entries[..i];
  }

  method BuildQuery(entries: seq<Entry>, snake: string -> string)
    returns (clause: Option<seq<Condition>>, values: seq<string>)
    ensures entries == [] ==> clause == None && values == []
    ensures entries != [] ==> clause.Some? && Paired(AcceptedEntries(entries), clause.value, values, snake)
  {
    values := [];
    if |entries| == 0 { return None, values; }
    var conditions := [];
    for i := 0 to |entries|
      invariant Paired(AcceptedEntries(entries[..i]), conditions, values, snake)
    {
      OneMorePaired(entries, i, conditions, values, snake);
      var Entry(key, value) := entries[i];
      var parts := Split(key);
      if |parts| > 2 || |parts| == 0 { continue; }
      var op := Exact;
      if |parts| != 1 {
        if parts[1] == "exact" {
        } else if parts[1] == "contains" {
          op := Contains;
          value := "%" + value + "%";
        } else {
          continue;
        }
      }
      values := values + [value];
      conditions := conditions + [Condition(snake(parts[0]), op)];
    }
    assert entries[..|entries|] == entries;
    clause := Some(conditions);
  }

  // ---------------------------------------------------------------------------
  // Its meaning

  /** How the database compares a column with a value. */
  type Test = (Operator, string, string) -> bool

  /** The conjunction, on a row given by the text of each column. */
  ghost predicate Satisfies(row: string -> string, clause: seq<Condition>, values: seq<string>, test: Test)
    requires |clause| == |values|
  {
    forall i | 0 <= i < |clause| :: test(clause[i].op, row(clause[i].column), values[i])
  }

  ghost predicate FilterHolds(row: string -> string, e: Entry, snake: string -> string, test: Test) {
    OperatorOf(e.key).Some? ==>
      test(ConditionOf(e.key, snake).op, row(ConditionOf(e.key, snake).column), ValueOf(e))
  }

  /** `entries` visits every filter of the map once. */
  ghost predicate Enumerates(entries: seq<Entry>, filters: map<string, string>) {
    && (forall e | e in entries :: e.key in filters && e.value == filters[e.key])
    && (forall k | k in filters :: Entry(k, filters[k]) in entries)
    && (forall i, j | 0 <= i < j < |entries| :: entries[i].key != entries[j].key)
  }

  /** The clause holds on a row exactly when every accepted filter of the map does; so the
      order in which the map is visited does not matter. */
  lemma {:induction false} ClauseMeansFilters(filters: map<string, string>, entries: seq<Entry>,
                                              clause: seq<Condition>, values: seq<string>,
                                              row: string -> string, snake: string -> string, test: Test)
    requires Enumerates(entries, filters) && Paired(AcceptedEntries(entries), clause, values, snake)
    ensures Satisfies(row, clause, values, test)
      <==> forall k | k in filters :: FilterHolds(row, Entry(k, filters[k]), snake, test)
  {
    var accepted := AcceptedEntries(entries);
    if Satisfies(row, clause, values, test) {
      forall k | k in filters ensures FilterHolds(row, Entry(k, filters[k]), snake, test) {
        var e := Entry(k, filters[k]);
        if OperatorOf(e.key).Some? {
          assert e in accepted;
          var i :| 0 <= i < |accepted| && accepted[i] == e;
          assert clause[i] == ConditionOf(e.key, snake);
        }
      }
    }
    if forall k | k in filters :: FilterHolds(row, Entry(k, filters[k]), snake, test) {
      forall i | 0 <= i < |clause| ensures test(clause[i].op, row(clause[i].column), values[i]) {
        var e := accepted[i];
        assert e in entries && e == Entry(e.key, filters[e.key]);
        assert FilterHolds(row, e, snake, test);
      }
    }
  }

  // ---------------------------------------------------------------------------
  // The columns that are pasted into the clause

  predicate NoSeparator(s: string) {
    forall i | 0 <= i < |s| :: !SeparatorAt(s, i)
  }

  lemma {:induction false} PartsAreFree(s: string, k: nat)
    requires k < |Split(s)|
    ensures NoSeparator(Split(s)[k])
    decreases |s|
  {
    var i := FirstSeparator(s, 0);
    if k > 0 {
      PartsAreFree(s[i + 2..], k - 1);
    } else {
      forall j | 0 <= j < i ensures !SeparatorAt(s[..i], j) {
        assert !SeparatorAt(s, j);
        if j + 2 <= i { assert s[..i][j..j + 2] == s[j..j + 2]; }
      }
    }
  }

  /** The part of a key before the operator is not checked as fields are: any text without a
      double underscore can be one, and only such texts are. */
  lemma ColumnPartIff(part: string)
    ensures (exists key :: OperatorOf(key).Some? && Split(key)[0] == part) <==> NoSeparator(part)
  {
    if key :| OperatorOf(key).Some? && Split(key)[0] == part { PartsAreFree(key, 0); }
    if NoSeparator(part) {
      assert FirstSeparator(part, 0) == |part|;
      assert OperatorOf(part) == Some(Exact) && Split(part)[0] == part;
    }
  }

  /** The change of case turns harmless texts into harmless ones. */
  ghost predicate KeepsHarmless(snake: string -> string) {
    forall s :: FieldNames.Harmless(s) ==> FieldNames.Harmless(snake(s))
  }

  /** And no others. */
  ghost predicate KeepsHarm(snake: string -> string) {
    forall s :: FieldNames.Harmless(snake(s)) ==> FieldNames.Harmless(s)
  }

  ghost predicate HarmlessKeys(entries: seq<Entry>) {
    forall e | e in entries && OperatorOf(e.key).Some? :: FieldNames.Harmless(Split(e.key)[0])
  }

  predicate HarmlessColumns(clause: seq<Condition>) {
    forall i | 0 <= i < |clause| :: FieldNames.Harmless(clause[i].column)
  }

  /** So the clause pastes nothing but word characters and spaces when that holds for every accepted
      key, and only then unless the change of case removes other characters. */
  lemma {:induction false} ClauseHarmlessIff(entries: seq<Entry>, clause: seq<Condition>, values: seq<string>,
                                             snake: string -> string)
    requires Paired(AcceptedEntries(entries), clause, values, snake)
    ensures KeepsHarmless(snake) && HarmlessKeys(entries) ==> HarmlessColumns(clause)
    ensures KeepsHarm(snake) && HarmlessColumns(clause) ==> HarmlessKeys(entries)
  {
    var accepted := AcceptedEntries(entries);
    if KeepsHarm(snake) && HarmlessColumns(clause) {
      forall e | e in entries && OperatorOf(e.key).Some? ensures FieldNames.Harmless(Split(e.key)[0]) {
        assert e in accepted;
        var i :| 0 <= i < |accepted| && accepted[i] == e;
        assert FieldNames.Harmless(clause[i].column);
      }
    }
    if KeepsHarmless(snake) && HarmlessKeys(entries) {
      forall i | 0 <= i < |clause| ensures FieldNames.Harmless(clause[i].column) {
        assert accepted[i] in entries;
      }
    }
  }

  // ---------------------------------------------------------------------------
  // What "contains" asks for

  /** SQL's LIKE: per cent for any text, underscore for any character, backslash to escape. */
  ghost predicate Like(p: string, s: string)
    decreases |p|
  {
    if p == [] then s == []
    else if p[0] == '%' then exists i | 0 <= i <= |s| :: Like(p[1..], s[i..])
    else if p[0] == '\\' && |p| > 1 then s != [] && s[0] == p[1] && Like(p[2..], s[1..])
    else s != [] && (p[0] == '_' || s[0] == p[0]) && Like(p[1..], s[1..])
  }

  predicate Literal(v: string) {
    '%' !in v && '_' !in v && '\\' !in v
  }

  ghost predicate Substring(v: string, s: string) {
    exists i | 0 <= i <= |s| :: v <= s[i..]
  }

  lemma {:induction false} LiteralPrefix(v: string, s: string)
    requires Literal(v)
    ensures Like(v + "%", s) <==> v <= s
  {
    if v == [] {
      assert v + "%" == "%" && "%"[1..] == [];
      assert s[|s|..] == [] && Like([], s[|s|..]);
    } else {
      var p := v + "%";
      assert p[0] == v[0] && p[1..] == v[1..] + "%" && v[0] in v;
      if s != [] {
        LiteralPrefix(v[1..], s[1..]);
        assert v == [v[0]] + v[1..] && s == [s[0]] + s[1..];
      }
    }
  }

  /** A text that the value's pattern accepts as a prefix, no longer than the value. */
  function Sample(v: string): (r: string)
    ensures |r| <= |v|
  {
    if v == [] then []
    else if v[0] == '%' then Sample(v[1..])
    else if v == "\\" then "%"
    else if v[0] == '\\' then [v[1]] + Sample(v[2..])
    else if v[0] == '_' then ['a'] + Sample(v[1..])
    else [v[0]] + Sample(v[1..])
  }

  lemma {:induction false} SampleIsAccepted(v: string)
    ensures Like(v + "%", Sample(v))
    decreases |v|
  {
    var p, s := v + "%", Sample(v);
    if v == [] {
      assert p == "%" && "%"[1..] == [];
      assert s[0..] == [] && Like([], s[0..]);
    } else if v[0] == '%' {
      SampleIsAccepted(v[1..]);
      assert p[1..] == v[1..] + "%" && s[0..] == s && Like(p[1..], s[0..]);
    } else if v == "\\" {
      assert p == "\\%" && p[2..] == [] && s[1..] == [];
    } else if v[0] == '\\' {
      SampleIsAccepted(v[2..]);
      assert p[2..] == v[2..] + "%" && p[1] == v[1] && s[1..] == Sample(v[2..]);
    } else {
      SampleIsAccepted(v[1..]);
      assert p[1..] == v[1..] + "%" && s[1..] == Sample(v[1..]);
    }
  }

  lemma {:induction false} SampleDiffers(v: string)
    requires !Literal(v)
    ensures Sample(v) != v
    decreases |v|
  {
    if v[0] != '%' && v[0] != '\\' && v[0] != '_' {
      assert v == [v[0]] + v[1..];
      SampleDiffers(v[1..]);
      assert Sample(v)[1..] == Sample(v[1..]);
    } else if v[0] == '_' {
      assert Sample(v)[0] == 'a';
    }
  }

  lemma LikeAnywhere(v: string, s: string)
    ensures Like("%" + v + "%", s) <==> exists i | 0 <= i <= |s| :: Like(v + "%", s[i..])
  {
    assert ("%" + v + "%")[1..] == v + "%";
  }

  ghost predicate MeansSubstring(v: string) {
    forall s :: Like("%" + v + "%", s) <==> Substring(v, s)
  }

  /** The pattern built for a value means "contains this text" exactly when the value holds
      none of the pattern's special characters. */
  lemma {:induction false} ContainsMeansSubstring(v: string)
    ensures MeansSubstring(v) <==> Literal(v)
  {
    if Literal(v) {
      forall s ensures Like("%" + v + "%", s) <==> Substring(v, s) {
        LikeAnywhere(v, s);
        forall i | 0 <= i <= |s| ensures Like(v + "%", s[i..]) <==> v <= s[i..] { LiteralPrefix(v, s[i..]); }
      }
    } else {
      var s := Sample(v);
      SampleIsAccepted(v);
      SampleDiffers(v);
      LikeAnywhere(v, s);
      assert s[0..] == s;
      assert Like("%" + v + "%", s);
      assert !Substring(v, s);
    }
  }

  // ---------------------------------------------------------------------------
  // What each key asks for, by its text

  /** A column name that does not run into the separator behind it. */
  predicate Free(column: string) {
    NoSeparator(column) && (column != [] ==> column[|column| - 1] != '_')
  }

  lemma SeparatorIs(s: string, i: nat)
    ensures SeparatorAt(s, i) <==> i + 2 <= |s| && s[i] == '_' && s[i + 1] == '_'
  {
    if i + 2 <= |s| { assert s[i..i + 2] == [s[i], s[i + 1]]; }
  }

  lemma FirstSeparatorBehind(column: string, rest: string)
    requires Free(column)
    ensures FirstSeparator(column + "__" + rest, 0) == |column|
  {
    var s, n := column + "__" + rest, |column|;
    SeparatorIs(s, n);
    forall k | 0 <= k < n ensures !SeparatorAt(s, k) {
      SeparatorIs(s, k);
      SeparatorIs(column, k);
      assert s[k] == column[k] && (k + 1 < n ==> s[k + 1] == column[k + 1]);
    }
  }

  /** A key of two parts is cut between them. */
  lemma SplitPair(column: string, op: string)
    requires Free(column)
    ensures Split(column + "__" + op) == [column] + Split(op)
  {
    FirstSeparatorBehind(column, op);
    var s := column + "__" + op;
    assert s[..|column|] == column && s[|column| + 2..] == op;
  }

  lemma SplitNone(s: string)
    requires NoSeparator(s)
    ensures Split(s) == [s]
  {}

  /** Equality for a plain column and for `exact`, pattern matching for `contains`, and no other
      operator nor any third part is accepted. */
  lemma OperatorsAre(column: string, op: string)
    requires Free(column)
    ensures OperatorOf(column) == Some(Exact)
    ensures OperatorOf(column + "__" + op) ==
      if op == "exact" then Some(Exact) else if op == "contains" then Some(Contains) else None
    ensures Split(column)[0] == column && Split(column + "__" + op)[0] == column
  {
    SplitNone(column);
    SplitPair(column, op);
    WordsAreFree();
    if NoSeparator(op) { SplitNone(op); } else { SplitMore(op); }
  }

  lemma WordsAreFree()
    ensures NoSeparator("exact") && NoSeparator("contains")
  {
    forall i | 0 <= i < |"exact"| ensures !SeparatorAt("exact", i) { SeparatorIs("exact", i); }
    forall i | 0 <= i < |"contains"| ensures !SeparatorAt("contains", i) { SeparatorIs("contains", i); }
  }

  lemma SplitMore(s: string)
    requires !NoSeparator(s)
    ensures |Split(s)| >= 2
  {}

  /** The comparisons of the database: equality, and LIKE with the value as pattern. */
  ghost predicate SqlTest(op: Operator, text: string, value: string) {
    match op
    case Exact => text == value
    case Contains => Like(value, text)
  }

  /** What one filter asks of a row, said by the text of its key. */
  lemma {:induction false} FilterMeans(column: string, v: string, row: string -> string, snake: string -> string)
    requires Free(column)
    ensures FilterHolds(row, Entry(column, v), snake, SqlTest) <==> row(snake(column)) == v
    ensures FilterHolds(row, Entry(column + "__exact", v), snake, SqlTest) <==> row(snake(column)) == v
    ensures Literal(v) ==>
      (FilterHolds(row, Entry(column + "__contains", v), snake, SqlTest) <==> Substring(v, row(snake(column))))
  {
    KeysAre(column);
    ExactHolds(column, column, v, row, snake);
    ExactHolds(column + "__exact", column, v, row, snake);
    if Literal(v) { ContainsHolds(column + "__contains", column, v, row, snake); }
  }

  lemma KeysAre(column: string)
    requires Free(column)
    ensures OperatorOf(column) == OperatorOf(column + "__exact") == Some(Exact)
    ensures OperatorOf(column + "__contains") == Some(Contains)
    ensures Split(column)[0] == Split(column + "__exact")[0] == Split(column + "__contains")[0] == column
  {
    KeyTexts(column);
    OperatorsAre(column, "exact");
    OperatorsAre(column, "contains");
  }

  lemma KeyTexts(column: string)
    ensures column + "__exact" == column + "__" + "exact"
    ensures column + "__contains" == column + "__" + "contains"
  {}

  lemma ExactHolds(key: string, column: string, v: string, row: string -> string, snake: string -> string)
    requires OperatorOf(key) == Some(Exact) && Split(key)[0] == column
    ensures FilterHolds(row, Entry(key, v), snake, SqlTest) <==> row(snake(column)) == v
  {}

  lemma ContainsHolds(key: string, column: string, v: string, row: string -> string, snake: string -> string)
    requires OperatorOf(key) == Some(Contains) && Split(key)[0] == column && Literal(v)
    ensures FilterHolds(row, Entry(key, v), snake, SqlTest) <==> Substring(v, row(snake(column)))
  {
    ContainsMeansSubstring(v);
    assert Like("%" + v + "%", row(snake(column))) <==> Substring(v, row(snake(column)));
  }

  /** A clause with the values of its placeholders. */
  datatype Clause = Clause(conditions: seq<Condition>, values: seq<string>) {
    ghost predicate Holds(row: string -> string) {
      |conditions| == |values| && Satisfies(row, conditions, values, SqlTest)
    }
  }

  method FilterOne(e: Entry, snake: string -> string) returns (c: Clause)
    ensures forall row: string -> string :: c.Holds(row) <==> FilterHolds(row, e, snake, SqlTest)
  {
    var conditions, values := BuildQuery([e], snake);
    c := Clause(conditions.value, values);
    forall row: string -> string ensures c.Holds(row) <==> FilterHolds(row, e, snake, SqlTest) {
      OneFilter(e, conditions.value, values, row, snake);
    }
  }

  lemma OneFilter(e: Entry, clause: seq<Condition>, values: seq<string>, row: string -> string,
                  snake: string -> string)
    requires Paired(AcceptedEntries([e]), clause, values, snake)
    ensures Satisfies(row, clause, values, SqlTest) <==> FilterHolds(row, e, snake, SqlTest)
  {
    ClauseMeansFilters(map[e.key := e.value], [e], clause, values, row, snake, SqlTest);
  }

  /** A clause built from one such filter holds on exactly the rows that its key asks for. */
  method FilterBy(column: string, v: string, snake: string -> string)
    returns (plain: Clause, exact: Clause, like: Clause)
    requires Free(column)
    ensures forall row: string -> string :: plain.Holds(row) <==> row(snake(column)) == v
    ensures forall row: string -> string :: exact.Holds(row) <==> row(snake(column)) == v
    ensures Literal(v) ==> forall row: string -> string :: like.Holds(row) <==> Substring(v, row(snake(column)))
  {
    plain := FilterOne(Entry(column, v), snake);
    exact := FilterOne(Entry(column + "__exact", v), snake);
    like := FilterOne(Entry(column + "__contains", v), snake);
    forall row: string -> string
      ensures plain.Holds(row) <==> row(snake(column)) == v
      ensures exact.Holds(row) <==> row(snake(column)) == v
      ensures Literal(v) ==> (like.Holds(row) <==> Substring(v, row(snake(column))))
    {
      FilterMeans(column, v, row, snake);
    }
  }
}
