/**
  The batch statement that sets the display order of many rows at once:
  UPDATE ... SET order_id = CASE WHEN id = .. THEN .. ... END WHERE id IN (..).
 */
module OrderUpdates {
  import opened Sequences
  import opened Wrappers

  datatype Item = Item(id: int, order: int)

  /** A row of the table; `rest` is every other column. A missing order is SQL's NULL. */
  datatype Row<T> = Row(id: int, order: Option<int>, rest: T)

  datatype Batch = Batch(whens: seq<Item>, ids: seq<int>)

  // ---------------------------------------------------------------------------
  // What the statements do

  /** The value of the CASE: the first branch that matches, NULL when none does. */
  function CaseValue(whens: seq<Item>, id: int): Option<int> {
    if whens == [] then None
    else if whens[0].id == id then Some(whens[0].order)
    else CaseValue(whens[1..], id)
  }

  function RunBatch<T>(b: Batch, rows: seq<Row<T>>): (r: seq<Row<T>>)
    ensures |r| == |rows|
  {
    seq(|rows|, i requires 0 <= i < |rows| =>
      if rows[i].id in b.ids then rows[i].(order := CaseValue(b.whens, rows[i].id)) else rows[i])
  }

  /** A plain update of one row. */
  function UpdateOne<T>(rows: seq<Row<T>>, x: Item): (r: seq<Row<T>>)
    ensures |r| == |rows|
  {
    seq(|rows|, i requires 0 <= i < |rows| =>
      if rows[i].id == x.id then rows[i].(order := Some(x.order)) else rows[i])
  }

  /** Plain updates one after the other, from the last item to the first. */
  function FromLastToFirst<T>(items: seq<Item>, rows: seq<Row<T>>): (r: seq<Row<T>>)
    ensures |r| == |rows|
  {
    if items == [] then rows else UpdateOne(FromLastToFirst(items[1..], rows), items[0])
  }

  // ---------------------------------------------------------------------------
  // Building the statement

  function Ids(items: seq<Item>): seq<int> {
    seq(|items|, i requires 0 <= i < |items| => items[i].id)
  }

  /** The fixed pieces of the text. */
  datatype Phrases = Phrases(update: string, when: string, order: string, ids: string)

  const SQL: Phrases :=
    Phrases("UPDATE `deployment` SET `order_id` = CASE ", " WHEN `id` = ", " THEN ", " END WHERE `id` IN (")

  function Digits(n: nat): (r: string)
    ensures r != []
  {
    var d := ('0' as int + n % 10) as char;
    if n < 10 then [d] else Digits(n / 10) + [d]
  }

  function Number(x: int): (r: string)
    ensures r != []
  {
    if x < 0 then "-" + Digits(-x) else Digits(x)
  }

  function When(x: Item, ph: Phrases): string {
    ph.when + Number(x.id) + ph.order + Number(x.order) + " "
  }

  function Whens(items: seq<Item>, ph: Phrases): string {
    if items == [] then "" else When(items[0], ph) + Whens(items[1..], ph)
  }

  function Numbers(ids: seq<int>): (r: seq<string>)
    ensures |r| == |ids|
  {
    seq(|ids|, i requires 0 <= i < |ids| => Number(ids[i]))
  }

  function Join(parts: seq<string>): string {
    if parts == [] then "" else if |parts| == 1 then parts[0] else parts[0] + "," + Join(parts[1..])
  }

  function Text(b: Batch, ph: Phrases): string {
    ph.update + Whens(b.whens, ph) + (ph.ids + Join(Numbers(b.ids)) + ")")
  }

  lemma {:induction false} WhensAppend(items: seq<Item>, x: Item, ph: Phrases)
    ensures Whens(items + [x], ph) == Whens(items, ph) + When(x, ph)
  {
    if items == [] {
      assert [] + [x] == [x] && [x][1..] == [];
    } else {
      assert (items + [x])[1..] == items[1..] + [x];
      WhensAppend(items[1..], x, ph);
      Associate(When(items[0], ph), Whens(items[1..], ph), When(x, ph));
    }
  }

  /** The text of the statement, grown item by item; none for an empty list. */
  method UpdateOrders(items: seq<Item>) returns (sql: Option<string>)
    ensures sql == if items == [] then None else Some(Text(Batch(items, Ids(items)), SQL))
    ensures sql.Some? ==> ReadUpdate(sql.value) == Some(Batch(items, Ids(items)))
  {
    if |items| < 1 { return None; }
    var text := BuildText(items, SQL);
    UpdateIsRead(Batch(items, Ids(items)));
    sql := Some(text);
  }

  lemma OneMoreItem(items: seq<Item>, i: nat, ph: Phrases)
    requires i < |items|
    ensures ph.update + Whens(items[..i + 1], ph) == ph.update + Whens(items[..i], ph) + When(items[i], ph)
    ensures Numbers(Ids(items[..i + 1])) == Numbers(Ids(items[..i])) + [Number(items[i].id)]
  {
    assert items[..i + 1] == items[..i] + [items[i]];
    WhensAppend(items[..i], items[i], ph);
    Associate(ph.update, Whens(items[..i], ph), When(items[i], ph));
  }

  method BuildText(items: seq<Item>, ph: Phrases) returns (sql: string)
    ensures sql == Text(Batch(items, Ids(items)), ph)
  {
    sql := ph.update;
    var ids: seq<string> := [];
    for i := 0 to |items|
      invariant sql == ph.update + Whens(items[..i], ph)
      invariant ids == Numbers(Ids(items[..i]))
    {
      OneMoreItem(items, i, ph);
      ids := ids + [Number(items[i].id)];
      sql := sql + When(items[i], ph);
    }
    assert items[..|items|] == items;
    sql := sql + (ph.ids + Join(ids) + ")");
  }

  // ---------------------------------------------------------------------------
  // Reading the statement

  predicate WordChar(c: char) {
    'a' <= c <= 'z' || 'A' <= c <= 'Z' || '0' <= c <= '9' || c == '_'
  }

  function Skip(s: string): (r: string)
    ensures |r| <= |s| && (r != [] ==> r[0] != ' ')
  {
    if s != [] && s[0] == ' ' then Skip(s[1..]) else s
  }

  /** Two characters that belong to one word or to one quoted name when they stand side by side. */
  predicate Glued(a: char, b: char) {
    (WordChar(a) && WordChar(b)) || a == b == '`'
  }

  /** What is behind the token `t`, if that is the next one. */
  function Expect(s: string, t: string): (rest: Option<string>)
    requires t != []
    ensures rest.Some? ==> |rest.value| < |s|
  {
    var r := Skip(s);
    if t <= r && (|t| < |r| ==> !Glued(t[|t| - 1], r[|t|])) then Some(r[|t|..]) else None
  }

  predicate AreTokens(ts: seq<string>) {
    forall i | 0 <= i < |ts| :: ts[i] != [] && ts[i][0] != ' '
  }

  /** The tokens that a statement must have before and between its numbers. */
  datatype Grammar = Grammar(start: seq<string>, branch: seq<string>, result: seq<string>, end: seq<string>) {
    predicate Valid() {
      AreTokens(start) && AreTokens(branch) && AreTokens(result) && AreTokens(end)
    }

    /** What is behind the branches does not start like one. */
    predicate Distinct()
      requires Valid()
    {
      branch != [] && end != [] && branch[0][0] != end[0][0]
    }
  }

  const UPDATE: Grammar :=
    Grammar(["UPDATE", "`deployment`", "SET", "`order_id`", "=", "CASE"],
            ["WHEN", "`id`", "="], ["THEN"], ["END", "WHERE", "`id`", "IN"])

  function ExpectAll(s: string, ts: seq<string>): (rest: Option<string>)
    requires AreTokens(ts)
    ensures rest.Some? ==> |rest.value| <= |s|
    decreases |ts|
  {
    if ts == [] then Some(s)
    else
      var rest := Expect(s, ts[0]);
      if rest == None then None else ExpectAll(rest.value, ts[1..])
  }

  /** How far the word at the start reaches. */
  function WordEnd(s: string): (n: nat)
    ensures n <= |s|
  {
    if s != [] && WordChar(s[0]) then 1 + WordEnd(s[1..]) else 0
  }

  predicate AreDigits(s: string) {
    forall i | 0 <= i < |s| :: '0' <= s[i] <= '9'
  }

  /** What the digits say. */
  function Value(s: string): int {
    if s == [] then 0 else 10 * Value(s[..|s| - 1]) + (s[|s| - 1] as int - '0' as int)
  }

  datatype Read<T> = Read(value: T, rest: string)

  function ReadDigits(s: string): (r: Option<Read<int>>)
    ensures r.Some? ==> |r.value.rest| < |s|
  {
    var n := WordEnd(s);
    if n == 0 || !AreDigits(s[..n]) then None else Some(Read(Value(s[..n]), s[n..]))
  }

  function ReadNumber(s: string): (r: Option<Read<int>>)
    ensures r.Some? ==> |r.value.rest| < |s|
  {
    var t := Skip(s);
    if t == [] || t[0] != '-' then ReadDigits(t)
    else
      var r := ReadDigits(t[1..]);
      if r == None then None else Some(r.value.(value := -r.value.value))
  }

  /** One branch: the id that is compared and the order. */
  function ReadBranch(s: string, g: Grammar): (r: Option<Read<Item>>)
    requires g.Valid()
    ensures r.Some? ==> |r.value.rest| < |s|
  {
    var behindWhen := ExpectAll(s, g.branch);
    var id := if behindWhen == None then None else ReadNumber(behindWhen.value);
    if id == None then None
    else
      var behindThen := ExpectAll(id.value.rest, g.result);
      var order := if behindThen == None then None else ReadNumber(behindThen.value);
      if order == None then None
      else Some(Read(Item(id.value.value, order.value.value), order.value.rest))
  }

  function ReadBranches(s: string, g: Grammar): Read<seq<Item>>
    requires g.Valid()
    decreases |s|
  {
    var first := ReadBranch(s, g);
    if first == None then Read([], s)
    else
      var others := ReadBranches(first.value.rest, g);
      Read([first.value.value] + others.value, others.rest)
  }

  /** Numbers between commas up to the parenthesis. */
  function ReadList(s: string): (r: Option<Read<seq<int>>>)
    decreases |s|
  {
    var first := ReadNumber(s);
    if first == None then None
    else
      var comma := Expect(first.value.rest, ",");
      var end := Expect(first.value.rest, ")");
      if comma != None then
        var others := ReadList(comma.value);
        if others == None then None
        else Some(Read([first.value.value] + others.value.value, others.value.rest))
      else if end != None then Some(Read([first.value.value], end.value))
      else None
  }

  /** The whole statement: the branches of the CASE and the ids of the WHERE. */
  function ReadStatement(s: string, g: Grammar): Option<Batch>
    requires g.Valid()
  {
    var start := ExpectAll(s, g.start);
    if start == None then None
    else
      var branches := ReadBranches(start.value, g);
      var end := ExpectAll(branches.rest, g.end);
      var open := if end == None then None else Expect(end.value, "(");
      var ids := if open == None then None else ReadList(open.value);
      if ids == None || Skip(ids.value.rest) != [] then None
      else Some(Batch(branches.value, ids.value.value))
  }

  function ReadUpdate(s: string): Option<Batch> {
    ReadStatement(s, UPDATE)
  }

  // ---------------------------------------------------------------------------
  // The text reads as the batch

  function Spaced(ts: seq<string>): string {
    if ts == [] then "" else ts[0] + (" " + Spaced(ts[1..]))
  }

  lemma SkipSpace(s: string)
    ensures Skip(" " + s) == Skip(s)
  {
    assert (" " + s)[1..] == s;
  }

  lemma Expected(s: string, t: string, rest: string)
    requires t != [] && t[0] != ' ' && Skip(s) == t + rest
    requires rest != [] ==> !Glued(t[|t| - 1], rest[0])
    ensures Expect(s, t) == Some(rest)
  {
    assert (t + rest)[|t|..] == rest;
  }

  lemma {:induction false} AllExpected(s: string, ts: seq<string>, rest: string)
    requires AreTokens(ts) && Skip(s) == Skip(Spaced(ts) + rest)
    ensures ExpectAll(s, ts).Some? && Skip(ExpectAll(s, ts).value) == Skip(rest)
    decreases |ts|
  {
    if ts == [] {
      assert "" + rest == rest;
    } else {
      var behind := Spaced(ts[1..]) + rest;
      assert Spaced(ts) + rest == ts[0] + (" " + behind);
      Expected(s, ts[0], " " + behind);
      SkipSpace(behind);
      AllExpected(" " + behind, ts[1..], rest);
    }
  }

  lemma {:induction false} DigitsAre(n: nat)
    ensures Value(Digits(n)) == n && AreDigits(Digits(n))
  {
    var d := ('0' as int + n % 10) as char;
    if n >= 10 {
      DigitsAre(n / 10);
      assert Digits(n)[..|Digits(n)| - 1] == Digits(n / 10);
    } else {
      assert Digits(n) == [d] && [d][..0] == [];
    }
  }

  lemma {:induction false} WordEnds(word: string, rest: string)
    requires forall i | 0 <= i < |word| :: WordChar(word[i])
    requires rest != [] ==> !WordChar(rest[0])
    ensures WordEnd(word + rest) == |word|
  {
    if word == [] {
      assert word + rest == rest;
    } else {
      assert (word + rest)[1..] == word[1..] + rest;
      WordEnds(word[1..], rest);
    }
  }

  lemma DigitsAreRead(n: int, rest: string)
    requires n >= 0 && (rest != [] ==> !WordChar(rest[0]))
    ensures ReadDigits(Digits(n) + rest) == Some(Read(n, rest))
  {
    var t := Digits(n) + rest;
    DigitsAre(n);
    WordEnds(Digits(n), rest);
    assert t[..|Digits(n)|] == Digits(n) && t[|Digits(n)|..] == rest;
  }

  /** A number is read by its digits, up to where they end. */
  lemma NumberIsRead(s: string, x: int, rest: string)
    requires Skip(s) == Skip(Number(x) + rest) && (rest != [] ==> !WordChar(rest[0]))
    ensures ReadNumber(s) == Some(Read(x, rest))
  {
    var digits := Digits(if x < 0 then -x else x) + rest;
    DigitsAreRead(if x < 0 then -x else x, rest);
    DigitsAre(if x < 0 then -x else x);
    if x < 0 {
      Associate("-", Digits(-x), rest);
      SignedIsRead(s, digits);
    } else {
      PlainIsRead(s, digits);
    }
  }

  lemma SignedIsRead(s: string, digits: string)
    requires Skip(s) == Skip("-" + digits) && ReadDigits(digits).Some?
    ensures var r := ReadDigits(digits).value;
      ReadNumber(s) == Some(Read(-r.value, r.rest))
  {
    assert ("-" + digits)[1..] == digits;
  }

  lemma PlainIsRead(s: string, digits: string)
    requires Skip(s) == Skip(digits) && digits != [] && digits[0] != ' ' && digits[0] != '-'
    ensures ReadNumber(s) == ReadDigits(digits)
  {}

  lemma NumberBehind(s: string, ts: seq<string>, x: int, rest: string)
    requires AreTokens(ts) && Skip(s) == Skip(Spaced(ts) + (Number(x) + rest))
    requires rest != [] ==> !WordChar(rest[0])
    ensures ExpectAll(s, ts).Some? && ReadNumber(ExpectAll(s, ts).value) == Some(Read(x, rest))
  {
    AllExpected(s, ts, Number(x) + rest);
    NumberIsRead(ExpectAll(s, ts).value, x, rest);
  }

  /** The fixed pieces are these tokens with spaces between them. */
  ghost predicate Spelled(ph: Phrases, g: Grammar) {
    && ph.update == Spaced(g.start)
    && ph.when == " " + Spaced(g.branch)
    && ph.order == " " + Spaced(g.result)
    && ph.ids == " " + (Spaced(g.end) + "(")
  }

  lemma SqlIsSpelled()
    ensures UPDATE.Valid() && UPDATE.Distinct() && Spelled(SQL, UPDATE)
  {
    StartIsSpelled();
    BranchIsSpelled();
    EndIsSpelled();
  }

  lemma StartIsSpelled()
    ensures SQL.update == Spaced(UPDATE.start)
  {
    StartParts();
    FirstHalf();
    SecondHalf();
    SpacedAppend(["UPDATE", "`deployment`", "SET"], ["`order_id`", "=", "CASE"]);
  }

  lemma StartParts()
    ensures SQL.update == "UPDATE `deployment` SET " + "`order_id` = CASE "
    ensures UPDATE.start == ["UPDATE", "`deployment`", "SET"] + ["`order_id`", "=", "CASE"]
  {}

  lemma FirstHalf()
    ensures Spaced(["UPDATE", "`deployment`", "SET"]) == "UPDATE `deployment` SET "
  {}

  lemma SecondHalf()
    ensures Spaced(["`order_id`", "=", "CASE"]) == "`order_id` = CASE "
  {}

  lemma {:induction false} SpacedAppend(a: seq<string>, b: seq<string>)
    ensures Spaced(a + b) == Spaced(a) + Spaced(b)
  {
    if a == [] {
      assert a + b == b;
    } else {
      assert (a + b)[1..] == a[1..] + b;
      SpacedAppend(a[1..], b);
    }
  }

  lemma BranchIsSpelled()
    ensures SQL.when == " " + Spaced(UPDATE.branch) && SQL.order == " " + Spaced(UPDATE.result)
  {}

  lemma EndIsSpelled()
    ensures SQL.ids == " " + (Spaced(UPDATE.end) + "(")
  {}

  lemma BranchIsRead(x: Item, s: string, rest: string, ph: Phrases, g: Grammar)
    requires g.Valid() && Spelled(ph, g) && Skip(s) == Skip(When(x, ph) + rest)
    ensures ReadBranch(s, g) == Some(Read(x, " " + rest))
  {
    var behindThen := Number(x.order) + (" " + rest);
    var behindId := " " + (Spaced(g.result) + behindThen);
    WhenParts(x, rest, ph, g);
    SkipSpace(Spaced(g.branch) + (Number(x.id) + behindId));
    NumberBehind(s, g.branch, x.id, behindId);
    SkipSpace(Spaced(g.result) + behindThen);
    NumberBehind(behindId, g.result, x.order, " " + rest);
  }

  lemma WhenParts(x: Item, a: string, ph: Phrases, g: Grammar)
    requires g.Valid() && Spelled(ph, g)
    ensures When(x, ph) + a ==
      " " + (Spaced(g.branch) + (Number(x.id) + (" " + (Spaced(g.result) + (Number(x.order) + (" " + a))))))
  {}

  lemma {:induction false} BranchesAreRead(xs: seq<Item>, s: string, rest: string, ph: Phrases, g: Grammar)
    requires g.Valid() && g.branch != [] && Spelled(ph, g) && Skip(s) == Skip(Whens(xs, ph) + rest)
    requires ReadBranch(rest, g) == None
    ensures ReadBranches(s, g).value == xs && Skip(ReadBranches(s, g).rest) == Skip(rest)
  {
    if xs == [] {
      NoBranch(s, rest, ph, g);
    } else {
      var others := Whens(xs[1..], ph) + rest;
      WhensParts(xs, rest, ph);
      OneMoreBranch(xs[0], s, others, ph, g);
      BranchesAreRead(xs[1..], " " + others, rest, ph, g);
      assert xs == [xs[0]] + xs[1..];
    }
  }

  lemma WhensParts(xs: seq<Item>, rest: string, ph: Phrases)
    requires xs != []
    ensures Whens(xs, ph) + rest == When(xs[0], ph) + (Whens(xs[1..], ph) + rest)
  {}

  lemma OneMoreBranch(x: Item, s: string, others: string, ph: Phrases, g: Grammar)
    requires g.Valid() && Spelled(ph, g) && Skip(s) == Skip(When(x, ph) + others)
    ensures var r := ReadBranches(" " + others, g);
      Skip(" " + others) == Skip(others) && ReadBranches(s, g) == Read([x] + r.value, r.rest)
  {
    BranchIsRead(x, s, others, ph, g);
    SkipSpace(others);
  }

  lemma NoBranch(s: string, rest: string, ph: Phrases, g: Grammar)
    requires g.Valid() && g.branch != [] && Skip(s) == Skip(Whens([], ph) + rest)
    requires ReadBranch(rest, g) == None
    ensures ReadBranches(s, g).value == [] && Skip(ReadBranches(s, g).rest) == Skip(rest)
  {
    assert "" + rest == rest;
    SameReading(s, rest, g);
  }

  /** What is read does not depend on the spaces in front. */
  lemma SameReading(s: string, t: string, g: Grammar)
    requires g.Valid() && g.branch != [] && Skip(s) == Skip(t)
    ensures ReadBranch(s, g) == ReadBranch(t, g)
  {}

  lemma {:induction false} ListIsRead(ids: seq<int>)
    requires ids != []
    ensures ReadList(Join(Numbers(ids)) + ")") == Some(Read(ids, ""))
  {
    ListParts(ids);
    if |ids| == 1 {
      LastId(ids[0]);
      assert ids == [ids[0]];
    } else {
      ListIsRead(ids[1..]);
      OneMoreId(ids[0], Join(Numbers(ids[1..])) + ")");
      assert ids == [ids[0]] + ids[1..];
    }
  }

  lemma LastId(id: int)
    ensures ReadList(Number(id) + ")") == Some(Read([id], ""))
  {
    NumberIsRead(Number(id) + ")", id, ")");
    Expected(")", ")", "");
    assert ")" + "" == ")";
    assert Expect(")", ",") == None;
  }

  lemma OneMoreId(id: int, rest: string)
    requires ReadList(rest).Some?
    ensures ReadList(Number(id) + ("," + rest)) ==
      Some(Read([id] + ReadList(rest).value.value, ReadList(rest).value.rest))
  {
    NumberIsRead(Number(id) + ("," + rest), id, "," + rest);
    Expected("," + rest, ",", rest);
  }

  lemma ListParts(ids: seq<int>)
    requires ids != []
    ensures Join(Numbers(ids)) + ")" ==
      Number(ids[0]) + if |ids| == 1 then ")" else "," + (Join(Numbers(ids[1..])) + ")")
  {
    assert Numbers(ids)[1..] == Numbers(ids[1..]);
    if |ids| > 1 {
      Associate(Number(ids[0]), ",", Join(Numbers(ids[1..])));
      Associate(Number(ids[0]), "," + Join(Numbers(ids[1..])), ")");
      Associate(",", Join(Numbers(ids[1..])), ")");
    }
  }

  lemma TextParts(b: Batch, ph: Phrases, g: Grammar)
    requires Spelled(ph, g)
    ensures Text(b, ph) == Spaced(g.start) + (Whens(b.whens, ph) + (" " + (Spaced(g.end) + List(b.ids))))
  {
    EndParts(Spaced(g.end), Join(Numbers(b.ids)));
    Associate(ph.update, Whens(b.whens, ph), ph.ids + Join(Numbers(b.ids)) + ")");
  }

  lemma EndParts(end: string, ids: string)
    ensures " " + (end + "(") + ids + ")" == " " + (end + ("(" + (ids + ")")))
  {}

  function List(ids: seq<int>): string {
    "(" + (Join(Numbers(ids)) + ")")
  }

  /** The keyword behind the branches is not taken for another one. */
  lemma EndIsNoBranch(rest: string, g: Grammar)
    requires g.Valid() && g.Distinct()
    ensures ReadBranch(" " + (Spaced(g.end) + rest), g) == None
  {
    SkipSpace(Spaced(g.end) + rest);
    assert (Spaced(g.end) + rest)[0] == g.end[0][0];
  }

  lemma EndIsRead(s: string, ids: seq<int>, g: Grammar)
    requires g.Valid() && ids != [] && Skip(s) == Skip(" " + (Spaced(g.end) + List(ids)))
    ensures ExpectAll(s, g.end).Some?
    ensures Expect(ExpectAll(s, g.end).value, "(") == Some(Join(Numbers(ids)) + ")")
  {
    SkipSpace(Spaced(g.end) + List(ids));
    AllExpected(s, g.end, List(ids));
    Expected(ExpectAll(s, g.end).value, "(", Join(Numbers(ids)) + ")");
  }

  /** The text of a batch reads as that batch. */
  lemma TextIsRead(b: Batch, ph: Phrases, g: Grammar)
    requires g.Valid() && g.Distinct() && Spelled(ph, g) && b.ids != []
    ensures ReadStatement(Text(b, ph), g) == Some(b)
  {
    var end := " " + (Spaced(g.end) + List(b.ids));
    TextParts(b, ph, g);
    AllExpected(Text(b, ph), g.start, Whens(b.whens, ph) + end);
    EndIsNoBranch(List(b.ids), g);
    BranchesAreRead(b.whens, ExpectAll(Text(b, ph), g.start).value, end, ph, g);
    EndIsRead(ReadBranches(ExpectAll(Text(b, ph), g.start).value, g).rest, b.ids, g);
    ListIsRead(b.ids);
  }

  lemma UpdateIsRead(b: Batch)
    requires b.ids != []
    ensures ReadUpdate(Text(b, SQL)) == Some(b)
  {
    SqlIsSpelled();
    TextIsRead(b, SQL, UPDATE);
  }

  /** No two batches have the same text. */
  lemma TextDeterminesBatch(a: Batch, b: Batch)
    requires a.ids != [] && b.ids != [] && Text(a, SQL) == Text(b, SQL)
    ensures a == b
  {
    UpdateIsRead(a);
    UpdateIsRead(b);
  }

  // ---------------------------------------------------------------------------
  // Its meaning

  lemma {:induction false} RowAfterUpdates<T>(items: seq<Item>, rows: seq<Row<T>>, i: nat)
    requires i < |rows|
    ensures var row := FromLastToFirst(items, rows)[i];
      && row.id == rows[i].id
      && row == if rows[i].id in Ids(items) then rows[i].(order := CaseValue(items, rows[i].id)) else rows[i]
  {
    if items != [] {
      RowAfterUpdates(items[1..], rows, i);
      assert Ids(items) == [items[0].id] + Ids(items[1..]);
    }
  }

  /** The batch equals the row-by-row updates from the last item to the first. */
  lemma {:induction false} BatchIsRowByRow<T>(items: seq<Item>, rows: seq<Row<T>>)
    ensures RunBatch(Batch(items, Ids(items)), rows) == FromLastToFirst(items, rows)
  {
    forall i | 0 <= i < |rows|
      ensures RunBatch(Batch(items, Ids(items)), rows)[i] == FromLastToFirst(items, rows)[i]
    {
      RowAfterUpdates(items, rows, i);
    }
  }

  /** The table after a statement that can be read. */
  function Execute<T>(sql: string, rows: seq<Row<T>>): Option<seq<Row<T>>> {
    var b := ReadUpdate(sql);
    if b == None then None else Some(RunBatch(b.value, rows))
  }

  /** So the text that is built, read and run on any table, updates row by row. */
  lemma TextUpdatesRows<T>(items: seq<Item>, rows: seq<Row<T>>)
    requires items != []
    ensures Execute(Text(Batch(items, Ids(items)), SQL), rows) == Some(FromLastToFirst(items, rows))
  {
    UpdateIsRead(Batch(items, Ids(items)));
    BatchIsRowByRow(items, rows);
  }

  /** A listed id gets the order of its first item, so no touched row falls through. */
  lemma {:induction false} FirstItemWins(items: seq<Item>, id: int)
    ensures id in Ids(items) <==> CaseValue(items, id).Some?
    ensures id in Ids(items) ==> exists k | 0 <= k < |items| ::
      && items[k].id == id && CaseValue(items, id) == Some(items[k].order)
      && forall j | 0 <= j < k :: items[j].id != id
  {
    if items != [] {
      FirstItemWins(items[1..], id);
      assert Ids(items) == [items[0].id] + Ids(items[1..]);
      if items[0].id != id && id in Ids(items) {
        var k :| 0 <= k < |items[1..]| && items[1..][k].id == id
              && CaseValue(items[1..], id) == Some(items[1..][k].order)
              && forall j | 0 <= j < k :: items[1..][j].id != id;
        forall j | 0 <= j < k + 1 ensures items[j].id != id {
          if j > 0 { assert items[1..][j - 1] == items[j]; }
        }
        assert items[k + 1] == items[1..][k];
      }
    }
  }

  ghost predicate DistinctIds(items: seq<Item>) {
    forall i, j | 0 <= i < j < |items| :: items[i].id != items[j].id
  }

  /** With distinct ids the order of the list does not matter. */
  lemma {:induction false} OrderDoesNotMatter<T>(a: seq<Item>, b: seq<Item>, rows: seq<Row<T>>)
    requires DistinctIds(a) && forall x :: x in a <==> x in b
    ensures RunBatch(Batch(a, Ids(a)), rows) == RunBatch(Batch(b, Ids(b)), rows)
  {
    forall i | 0 <= i < |rows|
      ensures RunBatch(Batch(a, Ids(a)), rows)[i] == RunBatch(Batch(b, Ids(b)), rows)[i]
    {
      SameCase(a, b, rows[i].id);
    }
  }

  lemma SameCase(a: seq<Item>, b: seq<Item>, id: int)
    requires DistinctIds(a) && forall x :: x in a <==> x in b
    ensures CaseValue(a, id) == CaseValue(b, id) && (id in Ids(a) <==> id in Ids(b))
  {
    FirstItemWins(a, id);
    FirstItemWins(b, id);
    if id in Ids(a) {
      var k :| 0 <= k < |a| && a[k].id == id && CaseValue(a, id) == Some(a[k].order);
      assert a[k] in b;
      var m :| 0 <= m < |b| && b[m] == a[k];
      assert Ids(b)[m] == id;
    }
    if id in Ids(b) {
      var m :| 0 <= m < |b| && b[m].id == id && CaseValue(b, id) == Some(b[m].order);
      assert b[m] in a;
      var k :| 0 <= k < |a| && a[k] == b[m];
      assert Ids(a)[k] == id;
    }
  }
}
