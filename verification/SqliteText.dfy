/** The SQL text built for the sqlite3 command: sqliteVal in internal/db/db.go and UpdateItem in
    internal/db/source_sqlite.go, against a reader of SQL tokens. */
module SqliteText {
  import opened Text
  import opened Wrappers

  predicate IsNumeric(s: string) {
    s != "" && AllDigits(s)
  }

  /** strings.Replace(s, q, qq, -1) for a one-character q. */
  function Doubled(s: string, q: char): string {
    if s == "" then "" else (if s[0] == q then [q, q] else [s[0]]) + Doubled(s[1..], q)
  }

  function Quoted(v: string): string {
    "'" + Doubled(v, '\'') + "'"
  }

  function SqliteVal(v: string): string {
    if IsNumeric(v) then v else Quoted(v)
  }

  // ---- reading a quoted token, ISO/IEC 9075-2 sections 5.2 and 5.3 ----------------------------------------

  datatype Token = Token(value: string, rest: string)

  /** Up to the closing quote, where a doubled quote stands for one. */
  function ReadBody(t: string, q: char): Option<Token> {
    if t == "" then None
    else if t[0] != q then Push(t[0], ReadBody(t[1..], q))
    else if |t| >= 2 && t[1] == q then Push(q, ReadBody(t[2..], q))
    else Some(Token("", t[1..]))
  }

  function Push(c: char, r: Option<Token>): Option<Token> {
    match r
    case None => None
    case Some(tok) => Some(Token([c] + tok.value, tok.rest))
  }

  function ReadQuoted(t: string, q: char): Option<Token> {
    if t == "" || t[0] != q then None else ReadBody(t[1..], q)
  }

  function ReadDigits(t: string): Token {
    if t == "" || !IsDigit(t[0]) then Token("", t)
    else
      var r := ReadDigits(t[1..]);
      Token([t[0]] + r.value, r.rest)
  }

  predicate StartsWith(t: string, c: char) { t != "" && t[0] == c }

  function Count(s: string, q: char): nat {
    if s == "" then 0 else (if s[0] == q then 1 else 0) + Count(s[1..], q)
  }

  /** A token takes up one character for each of its own, one more for each quote in it, and its end. */
  lemma {:induction false} TokenLength(t: string, q: char)
    ensures var r := ReadBody(t, q);
            r.Some? ==> |t| == |r.value.value| + Count(r.value.value, q) + 1 + |r.value.rest|
    decreases |t|
  {
    if t != "" {
      if t[0] != q {
        TokenLength(t[1..], q);
        PushCounts(t[0], ReadBody(t[1..], q), q);
      } else if |t| >= 2 && t[1] == q {
        TokenLength(t[2..], q);
        PushCounts(q, ReadBody(t[2..], q), q);
      }
    }
  }

  lemma PushCounts(c: char, r: Option<Token>, q: char)
    ensures r.Some? ==> Count(Push(c, r).value.value, q) == Count(r.value.value, q) + (if c == q then 1 else 0)
  {
    if r.Some? {
      assert ([c] + r.value.value)[1..] == r.value.value;
    }
  }

  lemma {:induction false} DoubledLength(s: string, q: char)
    ensures |Doubled(s, q)| == |s| + Count(s, q)
  {
    if s != "" {
      DoubledLength(s[1..], q);
    }
  }

  lemma {:induction false} NoneCounted(s: string, q: char)
    ensures Count(s, q) == 0 <==> q !in s
  {
    if s != "" {
      NoneCounted(s[1..], q);
      assert s == [s[0]] + s[1..];
    }
  }

  lemma CharReads(c: char, q: char, t: string)
    ensures ReadBody((if c == q then [q, q] else [c]) + t, q) == Push(c, ReadBody(t, q))
  {
    var d := (if c == q then [q, q] else [c]) + t;
    assert d[(if c == q then 2 else 1)..] == t;
  }

  lemma {:induction false} DoubledReads(s: string, q: char, rest: string)
    requires !StartsWith(rest, q)
    ensures ReadBody(Doubled(s, q) + [q] + rest, q) == Some(Token(s, rest))
  {
    hide ReadBody;
    if s == "" {
      EndReads(q, rest);
      assert Doubled(s, q) + [q] + rest == [q] + rest;
    } else {
      DoubledReads(s[1..], q, rest);
      var tail := Doubled(s[1..], q) + [q] + rest;
      CharReads(s[0], q, tail);
      assert Doubled(s, q) + [q] + rest == (if s[0] == q then [q, q] else [s[0]]) + tail;
      assert [s[0]] + s[1..] == s;
    }
  }

  lemma EndReads(q: char, rest: string)
    requires !StartsWith(rest, q)
    ensures ReadBody([q] + rest, q) == Some(Token("", rest))
  {
    assert ([q] + rest)[1..] == rest;
  }

  /** A value written as a string reads back as itself, with whatever follows left alone, exactly when what
      follows does not start with a quote. */
  lemma LiteralReadsBack(v: string, rest: string)
    ensures ReadQuoted(Quoted(v) + rest, '\'') == Some(Token(v, rest)) <==> !StartsWith(rest, '\'')
  {
    var q := '\'';
    var body := Doubled(v, q) + [q] + rest;
    assert (Quoted(v) + rest)[1..] == body;
    if StartsWith(rest, q) {
      LongerReads(v, q, rest);
    } else {
      DoubledReads(v, q, rest);
    }
  }

  lemma {:induction false} LongerReads(s: string, q: char, rest: string)
    requires StartsWith(rest, q)
    ensures ReadBody(Doubled(s, q) + [q] + rest, q) != Some(Token(s, rest))
  {
    hide ReadBody;
    if s == "" {
      assert Doubled(s, q) + [q] + rest == [q, q] + rest[1..];
      CharReads(q, q, rest[1..]);
    } else {
      LongerReads(s[1..], q, rest);
      var tail := Doubled(s[1..], q) + [q] + rest;
      CharReads(s[0], q, tail);
      assert Doubled(s, q) + [q] + rest == (if s[0] == q then [q, q] else [s[0]]) + tail;
      assert [s[0]] + s[1..] == s;
      PushInjective(s[0], ReadBody(tail, q), s[1..], rest);
    }
  }

  lemma PushInjective(c: char, r: Option<Token>, s: string, rest: string)
    ensures Push(c, r) == Some(Token([c] + s, rest)) ==> r == Some(Token(s, rest))
  {
    assert s == ([c] + s)[1..];
    if r.Some? {
      assert r.value.value == ([c] + r.value.value)[1..];
    }
  }

  /** Column names go between double quotes as they are: they read back exactly when they hold none. */
  lemma NameReadsBack(name: string, rest: string)
    requires !StartsWith(rest, '"')
    ensures ReadQuoted("\"" + name + "\"" + rest, '"') == Some(Token(name, rest)) <==> '"' !in name
  {
    var q := '"';
    var t := name + [q] + rest;
    assert ("\"" + name + "\"" + rest)[1..] == t;
    NoneCounted(name, q);
    TokenLength(t, q);
    if q !in name {
      DoubledLength(name, q);
      Undoubled(name, q);
      DoubledReads(name, q, rest);
    }
  }

  lemma {:induction false} Undoubled(s: string, q: char)
    requires q !in s
    ensures Doubled(s, q) == s
  {
    if s != "" {
      Undoubled(s[1..], q);
      assert s == [s[0]] + s[1..];
    }
  }

  lemma {:induction false} DigitsRead(v: string, rest: string)
    requires AllDigits(v) && (rest == "" || !IsDigit(rest[0]))
    ensures ReadDigits(v + rest) == Token(v, rest)
  {
    if v == "" {
      assert v + rest == rest;
    } else {
      DigitsRead(v[1..], rest);
      assert (v + rest)[1..] == v[1..] + rest;
    }
  }

  // ---- a whole UPDATE -------------------------------------------------------------------------------------

  datatype Cell = Cell(column: string, value: string)
  datatype Key = Number(digits: string) | Str(value: string)
  datatype Update = Update(table: string, cells: seq<Cell>, keyColumn: string, key: Key)

  function KeyOf(v: string): Key {
    if IsNumeric(v) then Number(v) else Str(v)
  }

  predicate SafeTableName(s: string) {
    s != "" && IsLetter(s[0]) && forall i | 0 <= i < |s| :: IsLetter(s[i]) || IsDigit(s[i])
  }

  predicate IsLetter(c: char) { 'a' <= c <= 'z' || 'A' <= c <= 'Z' || c == '_' }

  function Name(s: string): string { "\"" + s + "\"" }

  function Assignment(c: Cell): string {
    Name(c.column) + "=" + Quoted(c.value)
  }

  /** UpdateItem's loop: the cells but for the key column, with commas between. */
  function Settable(cells: seq<Cell>, pkCol: string): seq<Cell> {
    if cells == [] then []
    else (if cells[0].column == pkCol then [] else [cells[0]]) + Settable(cells[1..], pkCol)
  }

  function Assignments(cells: seq<Cell>): string {
    if cells == [] then ""
    else if |cells| == 1 then Assignment(cells[0])
    else Assignment(cells[0]) + ", " + Assignments(cells[1..])
  }

  function Where(pkCol: string, pkVal: string): string {
    " WHERE " + Name(pkCol) + "=" + SqliteVal(pkVal)
  }

  function Statement(table: string, pkCol: string, pkVal: string, cells: seq<Cell>): string {
    "UPDATE " + Name(table) + " SET " + Assignments(cells) + Where(pkCol, pkVal)
  }

  function UpdateText(table: string, pkCol: string, pkVal: string, cells: seq<Cell>): string {
    Statement(table, pkCol, pkVal, Settable(cells, pkCol))
  }

  /** UpdateItem up to the command line; the cells come in the map's order. */
  method UpdateItem(table: string, pkCol: string, pkVal: string, cells: seq<Cell>) returns (sql: Option<string>)
    ensures sql == if SafeTableName(table) then Some(UpdateText(table, pkCol, pkVal, cells)) else None
  {
    if !SafeTableName(table) {
      return None;
    }
    var text := "UPDATE " + Name(table) + " SET ";
    var first := true;
    ghost var done: seq<Cell> := [];
    var i := 0;
    assert text + Assignments([]) == text;
    while i < |cells|
      invariant 0 <= i <= |cells|
      invariant done == Settable(cells[..i], pkCol) && first == (done == [])
      invariant text == "UPDATE " + Name(table) + " SET " + Assignments(done)
    {
      SettableSnoc(cells, i, pkCol);
      if cells[i].column != pkCol {
        AssignmentsSnoc(done, cells[i]);
        if !first {
          text := text + ", ";
        }
        first := false;
        text := text + Assignment(cells[i]);
        done := done + [cells[i]];
      }
      i := i + 1;
    }
    assert cells[..i] == cells;
    text := text + Where(pkCol, pkVal);
    sql := Some(text);
  }

  lemma {:induction false} SettableSnoc(cells: seq<Cell>, i: nat, pkCol: string)
    requires i < |cells|
    ensures Settable(cells[..i + 1], pkCol)
            == Settable(cells[..i], pkCol) + if cells[i].column == pkCol then [] else [cells[i]]
  {
    if i > 0 {
      SettableSnoc(cells[1..], i - 1, pkCol);
      assert cells[..i + 1][1..] == cells[1..][..i];
      assert cells[..i][1..] == cells[1..][..i - 1];
    } else {
      assert cells[..1][1..] == [];
    }
  }

  lemma {:induction false} AssignmentsSnoc(cells: seq<Cell>, c: Cell)
    ensures Assignments(cells + [c])
            == Assignments(cells) + (if cells == [] then "" else ", ") + Assignment(c)
  {
    hide Assignment;
    var all := cells + [c];
    if cells == [] {
      assert all == [c];
    } else {
      var rest, last, first := cells[1..], Assignment(c), Assignment(cells[0]);
      AssignmentsSnoc(rest, c);
      assert all[1..] == rest + [c];
      assert Assignments(all) == first + ", " + Assignments(rest + [c]);
      if rest == [] {
        assert Assignments(rest + [c]) == last;
      } else {
        assert first + ", " + (Assignments(rest) + ", " + last) == first + ", " + Assignments(rest) + ", " + last;
      }
    }
  }

  // ---- reading it -----------------------------------------------------------------------------------------

  function Expect(t: string, word: string): Option<string> {
    if |word| <= |t| && t[..|word|] == word then Some(t[|word|..]) else None
  }

  function ReadAssignment(t: string): Option<(Cell, string)> {
    match ReadQuoted(t, '"')
    case None => None
    case Some(name) =>
      if !StartsWith(name.rest, '=') then None
      else match ReadQuoted(name.rest[1..], '\'')
        case None => None
        case Some(v) => Some((Cell(name.value, v.value), v.rest))
  }

  function ReadAssignments(t: string): (r: Option<(seq<Cell>, string)>)
    decreases |t|
  {
    match ReadAssignment(t)
    case None => None
    case Some((c, rest)) =>
      var more := Expect(rest, ", ");
      if more.None? || |more.value| >= |t| then Some(([c], rest))
      else match ReadAssignments(more.value)
        case None => None
        case Some((cs, rest')) => Some(([c] + cs, rest'))
  }

  function ReadKey(t: string): Option<(Key, string)> {
    if StartsWith(t, '\'') then
      match ReadQuoted(t, '\'')
      case None => None
      case Some(v) => Some((Str(v.value), v.rest))
    else
      var d := ReadDigits(t);
      if d.value == "" then None else Some((Number(d.value), d.rest))
  }

  function ReadWhere(t: string): Option<(string, Key, string)> {
    match Expect(t, " WHERE ")
    case None => None
    case Some(t1) =>
      match ReadQuoted(t1, '"')
      case None => None
      case Some(name) =>
        if !StartsWith(name.rest, '=') then None
        else match ReadKey(name.rest[1..])
          case None => None
          case Some((k, rest)) => Some((name.value, k, rest))
  }

  /** One whole UPDATE statement, and nothing after it. */
  function ReadUpdate(t: string): Option<Update> {
    match Expect(t, "UPDATE ")
    case None => None
    case Some(t1) =>
      match ReadQuoted(t1, '"')
      case None => None
      case Some(table) =>
        match Expect(table.rest, " SET ")
        case None => None
        case Some(t2) =>
          match ReadAssignments(t2)
          case None => None
          case Some((cells, t3)) =>
            match ReadWhere(t3)
            case None => None
            case Some((pkCol, key, rest)) => if rest == "" then Some(Update(table.value, cells, pkCol, key)) else None
  }

  // ---- and it says what was asked for ---------------------------------------------------------------------

  lemma ExpectReads(word: string, rest: string)
    ensures Expect(word + rest, word) == Some(rest)
  {
    assert (word + rest)[..|word|] == word;
    assert (word + rest)[|word|..] == rest;
  }

  lemma NameReads(name: string, rest: string)
    requires '"' !in name && !StartsWith(rest, '"')
    ensures ReadQuoted(Name(name) + rest, '"') == Some(Token(name, rest))
  {
    NameReadsBack(name, rest);
    assert Name(name) + rest == "\"" + name + "\"" + rest;
  }

  lemma AssignmentReads(c: Cell, rest: string)
    requires '"' !in c.column && !StartsWith(rest, '\'')
    ensures ReadAssignment(Assignment(c) + rest) == Some((c, rest))
  {
    hide ReadQuoted, Quoted, Name;
    var after := "=" + Quoted(c.value) + rest;
    NameReads(c.column, after);
    assert Assignment(c) + rest == Name(c.column) + after;
    assert after[1..] == Quoted(c.value) + rest;
    LiteralReadsBack(c.value, rest);
  }

  lemma {:induction false} AssignmentsRead(cells: seq<Cell>, rest: string)
    requires cells != [] && (forall i | 0 <= i < |cells| :: '"' !in cells[i].column)
    requires !StartsWith(rest, '\'') && !StartsWith(rest, ',')
    ensures ReadAssignments(Assignments(cells) + rest) == Some((cells, rest))
    decreases |cells|
  {
    hide ReadAssignment, Assignment;
    var c := cells[0];
    if |cells| == 1 {
      AssignmentReads(c, rest);
      assert cells == [c];
    } else {
      var tail := Assignments(cells[1..]) + rest;
      AssignmentsRead(cells[1..], rest);
      AssignmentReads(c, ", " + tail);
      ExpectReads(", ", tail);
      assert Assignments(cells) + rest == Assignment(c) + (", " + tail);
      assert [c] + cells[1..] == cells;
    }
  }

  lemma KeyReads(v: string)
    ensures ReadKey(SqliteVal(v)) == Some((KeyOf(v), ""))
  {
    if IsNumeric(v) {
      DigitsRead(v, "");
      assert v + "" == v;
    } else {
      LiteralReadsBack(v, "");
      assert Quoted(v) + "" == Quoted(v);
    }
  }

  lemma WhereReads(pkCol: string, pkVal: string)
    requires '"' !in pkCol
    ensures ReadWhere(Where(pkCol, pkVal)) == Some((pkCol, KeyOf(pkVal), ""))
  {
    hide ReadQuoted, Name, SqliteVal, ReadKey, Expect;
    var after := "=" + SqliteVal(pkVal);
    ExpectReads(" WHERE ", Name(pkCol) + after);
    assert Where(pkCol, pkVal) == " WHERE " + (Name(pkCol) + after);
    NameReads(pkCol, after);
    assert after[1..] == SqliteVal(pkVal);
    KeyReads(pkVal);
  }

  predicate PlainNames(cells: seq<Cell>, pkCol: string) {
    '"' !in pkCol && forall i | 0 <= i < |cells| :: '"' !in cells[i].column
  }

  lemma PlainNamesRead(table: string, pkCol: string, pkVal: string, cells: seq<Cell>)
    requires SafeTableName(table) && cells != [] && PlainNames(cells, pkCol)
    ensures ReadUpdate(Statement(table, pkCol, pkVal, cells)) == Some(Update(table, cells, pkCol, KeyOf(pkVal)))
  {
    hide ReadQuoted, Name, Expect, ReadAssignments, ReadWhere, Assignments, Where;
    var t3 := Where(pkCol, pkVal);
    var t2 := Assignments(cells) + t3;
    var t1 := " SET " + t2;
    assert '"' !in table;
    ExpectReads("UPDATE ", Name(table) + t1);
    assert Statement(table, pkCol, pkVal, cells) == "UPDATE " + (Name(table) + t1);
    NameReads(table, t1);
    ExpectReads(" SET ", t2);
    WhereReads(pkCol, pkVal);
    WhereStart(pkCol, pkVal);
    AssignmentsRead(cells, t3);
  }

  lemma NoCellsNoStatement(table: string, pkCol: string, pkVal: string)
    requires SafeTableName(table)
    ensures ReadUpdate(Statement(table, pkCol, pkVal, [])) == None
  {
    hide ReadQuoted, Name, Expect, ReadAssignments, ReadWhere, Assignments, Where;
    var t2 := Assignments([]) + Where(pkCol, pkVal);
    var t1 := " SET " + t2;
    assert '"' !in table;
    ExpectReads("UPDATE ", Name(table) + t1);
    assert Statement(table, pkCol, pkVal, []) == "UPDATE " + (Name(table) + t1);
    NameReads(table, t1);
    ExpectReads(" SET ", t2);
    WhereStart(pkCol, pkVal);
    NothingToRead(Where(pkCol, pkVal));
  }

  // ---- what a statement costs: each quote inside a name takes one more character than the text gives it --------

  lemma QuotedCost(t: string, q: char)
    ensures var r := ReadQuoted(t, q);
            r.Some? ==> |t| == |r.value.value| + Count(r.value.value, q) + 2 + |r.value.rest|
  {
    if t != "" && t[0] == q {
      TokenLength(t[1..], q);
    }
  }

  function CellCost(c: Cell): nat {
    |c.column| + Count(c.column, '"') + |c.value| + Count(c.value, '\'') + 5
  }

  function Cost(cells: seq<Cell>): nat {
    if cells == [] then 0
    else CellCost(cells[0]) + if |cells| == 1 then 0 else 2 + Cost(cells[1..])
  }

  function KeyCost(k: Key): nat {
    match k
    case Number(d) => |d|
    case Str(v) => |v| + Count(v, '\'') + 2
  }

  function QuotesInNames(cells: seq<Cell>): nat {
    if cells == [] then 0 else Count(cells[0].column, '"') + QuotesInNames(cells[1..])
  }

  lemma AssignmentCost(t: string)
    ensures var r := ReadAssignment(t); r.Some? ==> |t| == CellCost(r.value.0) + |r.value.1|
  {
    hide ReadQuoted, Count;
    QuotedCost(t, '"');
    var name := ReadQuoted(t, '"');
    if name.Some? && StartsWith(name.value.rest, '=') {
      QuotedCost(name.value.rest[1..], '\'');
    }
  }

  lemma {:induction false} AssignmentsCost(t: string)
    ensures var r := ReadAssignments(t); r.Some? ==> r.value.0 != [] && |t| == Cost(r.value.0) + |r.value.1|
    decreases |t|
  {
    hide ReadAssignment, CellCost;
    AssignmentCost(t);
    var first := ReadAssignment(t);
    if first.Some? {
      var more := Expect(first.value.1, ", ");
      if more.Some? && |more.value| < |t| {
        AssignmentsCost(more.value);
        var rest := ReadAssignments(more.value);
        if rest.Some? {
          assert ([first.value.0] + rest.value.0)[1..] == rest.value.0;
        }
      }
    }
  }

  lemma KeyTakes(t: string)
    ensures var r := ReadKey(t); r.Some? ==> |t| == KeyCost(r.value.0) + |r.value.1|
  {
    hide ReadQuoted;
    QuotedCost(t, '\'');
    DigitsLength(t);
  }

  lemma {:induction false} DigitsLength(t: string)
    ensures |t| == |ReadDigits(t).value| + |ReadDigits(t).rest|
  {
    if t != "" && IsDigit(t[0]) {
      DigitsLength(t[1..]);
    }
  }

  lemma WhereCost(t: string)
    ensures var r := ReadWhere(t);
            r.Some? ==> |t| == 10 + |r.value.0| + Count(r.value.0, '"') + KeyCost(r.value.1) + |r.value.2|
  {
    hide ReadQuoted, ReadKey, Count, KeyCost;
    var t1 := Expect(t, " WHERE ");
    if t1.Some? {
      QuotedCost(t1.value, '"');
      var name := ReadQuoted(t1.value, '"');
      if name.Some? && StartsWith(name.value.rest, '=') {
        KeyTakes(name.value.rest[1..]);
      }
    }
  }

  lemma UpdateCost(t: string)
    ensures var r := ReadUpdate(t);
            r.Some? ==> |t| == 24 + |r.value.table| + Count(r.value.table, '"') + Cost(r.value.cells)
                               + |r.value.keyColumn| + Count(r.value.keyColumn, '"') + KeyCost(r.value.key)
  {
    hide ReadQuoted, ReadAssignments, ReadWhere, Count, Cost, KeyCost;
    var t1 := Expect(t, "UPDATE ");
    if t1.Some? {
      QuotedCost(t1.value, '"');
      var table := ReadQuoted(t1.value, '"');
      if table.Some? {
        var t2 := Expect(table.value.rest, " SET ");
        if t2.Some? {
          AssignmentsCost(t2.value);
          var cells := ReadAssignments(t2.value);
          if cells.Some? {
            WhereCost(cells.value.1);
          }
        }
      }
    }
  }

  lemma {:induction false} AssignmentsLength(cells: seq<Cell>)
    ensures |Assignments(cells)| + QuotesInNames(cells) == Cost(cells)
  {
    if cells != [] {
      AssignmentsLength(cells[1..]);
      DoubledLength(cells[0].value, '\'');
    }
  }

  lemma {:induction false} NoQuotes(cells: seq<Cell>)
    ensures QuotesInNames(cells) == 0 <==> forall i | 0 <= i < |cells| :: '"' !in cells[i].column
  {
    if cells != [] {
      NoQuotes(cells[1..]);
      NoneCounted(cells[0].column, '"');
      assert cells == [cells[0]] + cells[1..];
    }
  }

  lemma KeyLength(v: string)
    ensures |SqliteVal(v)| == KeyCost(KeyOf(v))
  {
    DoubledLength(v, '\'');
  }

  lemma OnlyPlainNamesRead(table: string, pkCol: string, pkVal: string, cells: seq<Cell>)
    requires ReadUpdate(Statement(table, pkCol, pkVal, cells)) == Some(Update(table, cells, pkCol, KeyOf(pkVal)))
    ensures PlainNames(cells, pkCol)
  {
    hide ReadUpdate, Assignments, SqliteVal, KeyCost, Cost, Count, KeyOf, QuotesInNames;
    UpdateCost(Statement(table, pkCol, pkVal, cells));
    AssignmentsLength(cells);
    KeyLength(pkVal);
    NoQuotes(cells);
    NoneCounted(pkCol, '"');
  }

  /** Whatever the values are, the statement sets exactly the given cells, in order and without the key
      column, on exactly the given key, if and only if there is a cell to set and no column name holds a
      double quote; without a cell to set there is no statement to read. */
  lemma UpdateSaysWhatWasAsked(table: string, pkCol: string, pkVal: string, cells: seq<Cell>)
    requires SafeTableName(table)
    ensures var set_ := Settable(cells, pkCol);
            var read := ReadUpdate(UpdateText(table, pkCol, pkVal, cells));
            && (read == Some(Update(table, set_, pkCol, KeyOf(pkVal))) <==> set_ != [] && PlainNames(set_, pkCol))
            && (set_ == [] ==> read == None)
  {
    hide ReadUpdate, Statement, PlainNames;
    var set_ := Settable(cells, pkCol);
    if set_ == [] {
      NoCellsNoStatement(table, pkCol, pkVal);
    } else if PlainNames(set_, pkCol) {
      PlainNamesRead(table, pkCol, pkVal, set_);
    } else if ReadUpdate(Statement(table, pkCol, pkVal, set_)) == Some(Update(table, set_, pkCol, KeyOf(pkVal))) {
      OnlyPlainNamesRead(table, pkCol, pkVal, set_);
    }
  }

  lemma WhereStart(pkCol: string, pkVal: string)
    ensures StartsWith(Where(pkCol, pkVal), ' ')
  {}

  lemma NothingToRead(t: string)
    requires StartsWith(t, ' ')
    ensures ReadAssignments(Assignments([]) + t) == None
  {
    assert Assignments([]) + t == t;
  }

  // ---- which tables are written ---------------------------------------------------------------------------

  /** A table name is written out exactly when it is an identifier of ASCII letters, digits and underscores that does
      not start with a digit: codes 65 to 90, 97 to 122, 48 to 57 and 95. */
  lemma SafeTableNameExactly(s: string)
    ensures SafeTableName(s)
            <==> s != "" && !(48 <= s[0] as int <= 57)
                 && forall i | 0 <= i < |s| ::
                      var c := s[i] as int; 65 <= c <= 90 || 97 <= c <= 122 || 48 <= c <= 57 || c == 95
  {
    forall c: char
      ensures IsLetter(c) <==> 65 <= c as int <= 90 || 97 <= c as int <= 122 || c as int == 95
      ensures IsDigit(c) <==> 48 <= c as int <= 57
    {}
  }

  /** A key is a quoted text or has a digit. */
  lemma NoKeyReads(t: string)
    ensures !StartsWith(t, '\'') && (t == "" || !IsDigit(t[0])) ==> ReadKey(t).None?
  {}
}
