/** Ordering the rows of a table by one column: internal/handlers/sortrows.go. */
module SortRows {
  import opened Text
  import opened Wrappers

  /** A float64, with exact numbers. */
  datatype Float = NaN | NegInf | Finite(r: real) | PosInf

  /** Go's < on floats: false as soon as one side is NaN. */
  predicate FloatLess(a: Float, b: Float) {
    match (a, b)
    case (NaN, _) => false
    case (_, NaN) => false
    case (Finite(x), Finite(y)) => x < y
    case _ => a != b && (a.NegInf? || b.PosInf?)
  }

  /** A cell: its printed form, and what strconv.ParseFloat makes of it, if anything. */
  datatype Value = Value(text: string, num: Option<Float>)

  type Row = map<string, Value>

  /** row[c] as the handlers print it; a missing cell prints as <nil>. */
  function Cell(row: Row, c: string): Value {
    if c in row then row[c] else Value("<nil>", None)
  }

  // ---- keys -----------------------------------------------------------------------------------------------------

  datatype Key = Num(n: Float) | Str(s: string)

  /** Go's < on strings. */
  predicate StrLess(a: string, b: string) {
    b != "" && (a == "" || a[0] < b[0] || (a[0] == b[0] && StrLess(a[1..], b[1..])))
  }

  predicate KeyLess(a: Key, b: Key) {
    match (a, b)
    case (Num(x), Num(y)) => FloatLess(x, y)
    case (Str(x), Str(y)) => StrLess(x, y)
    case (Num(_), Str(_)) => true
    case (Str(_), Num(_)) => false
  }

  lemma {:induction false} StrLessTransitive(a: string, b: string, c: string)
    ensures StrLess(a, b) && StrLess(b, c) ==> StrLess(a, c)
  {
    if a != "" && b != "" && c != "" {
      StrLessTransitive(a[1..], b[1..], c[1..]);
    }
  }

  lemma {:induction false} StrLessTotal(a: string, b: string)
    ensures a == b <==> !StrLess(a, b) && !StrLess(b, a)
    ensures !(StrLess(a, b) && StrLess(b, a))
  {
    if a != "" && b != "" {
      StrLessTotal(a[1..], b[1..]);
      assert a == [a[0]] + a[1..] && b == [b[0]] + b[1..];
    }
  }

  lemma KeyLessTransitive(a: Key, b: Key, c: Key)
    ensures KeyLess(a, b) && KeyLess(b, c) ==> KeyLess(a, c)
  {
    if a.Str? && b.Str? && c.Str? {
      StrLessTransitive(a.s, b.s, c.s);
    }
  }

  lemma KeyLessTotal(a: Key, b: Key)
    requires a != Num(NaN) && b != Num(NaN)
    ensures a == b <==> !KeyLess(a, b) && !KeyLess(b, a)
    ensures !(KeyLess(a, b) && KeyLess(b, a))
  {
    if a.Str? && b.Str? {
      StrLessTotal(a.s, b.s);
    }
  }

  // ---- the comparison -------------------------------------------------------------------------------------

  /** The column, whether it compares as numbers, the direction, and the lower case of characters. */
  datatype Order = Order(col: string, numeric: bool, desc: bool, lower: char -> char)

  function KeyOf(o: Order, row: Row): Key {
    var v := Cell(row, o.col);
    if o.numeric then Num(if v.num.Some? then v.num.value else Finite(0.0)) else Str(ToLower(v.text, o.lower))
  }

  predicate Before(o: Order, x: Row, y: Row) {
    if o.desc then KeyLess(KeyOf(o, y), KeyOf(o, x)) else KeyLess(KeyOf(o, x), KeyOf(o, y))
  }

  predicate NumericColumn(rows: seq<Row>, col: string) {
    forall i | 0 <= i < |rows| :: Cell(rows[i], col).num.Some?
  }

  function OrderFor(rows: seq<Row>, col: string, dir: string, lower: char -> char): Order {
    Order(col, NumericColumn(rows, col), dir == "desc", lower)
  }

  /** The row's cell is not NaN where the column compares as numbers. */
  predicate Comparable(o: Order, row: Row) {
    KeyOf(o, row) != Num(NaN)
  }

  predicate Orderly(o: Order, rows: seq<Row>) {
    forall i | 0 <= i < |rows| :: Comparable(o, rows[i])
  }

  lemma BeforeIsOrder(o: Order, x: Row, y: Row, z: Row)
    requires Comparable(o, x) && Comparable(o, y) && Comparable(o, z)
    ensures Before(o, x, y) && Before(o, y, z) ==> Before(o, x, z)
    ensures !Before(o, x, y) && !Before(o, y, z) ==> !Before(o, x, z)
    ensures KeyOf(o, x) == KeyOf(o, y) <==> !Before(o, x, y) && !Before(o, y, x)
    ensures !(Before(o, x, y) && Before(o, y, x))
  {
    hide KeyLess, KeyOf;
    var a, b, c := KeyOf(o, x), KeyOf(o, y), KeyOf(o, z);
    KeyLessTotal(a, b);
    KeyLessTotal(b, c);
    KeyLessTotal(a, c);
    KeyLessTransitive(a, b, c);
    KeyLessTransitive(c, b, a);
    KeyLessTransitive(b, c, a);
    KeyLessTransitive(a, c, b);
    KeyLessTransitive(b, a, c);
    KeyLessTransitive(c, a, b);
  }

  lemma BeforeDiffers(o: Order, x: Row, y: Row)
    ensures Before(o, x, y) ==> KeyOf(o, x) != KeyOf(o, y)
  {
    if KeyOf(o, x).Str? {
      StrLessTotal(KeyOf(o, x).s, KeyOf(o, x).s);
    }
  }

  // ---- when the comparison is an order ---------------------------------------------------------------------------

  predicate Ties(o: Order, x: Row, y: Row) {
    !Before(o, x, y) && !Before(o, y, x)
  }

  /** Three rows that compare as a strict weak order demands: both less and tie are transitive. */
  predicate WeaklyOrdered(o: Order, x: Row, y: Row, z: Row) {
    && !Before(o, x, x)
    && (Before(o, x, y) && Before(o, y, z) ==> Before(o, x, z))
    && (Ties(o, x, y) && Ties(o, y, z) ==> Ties(o, x, z))
  }

  predicate StrictWeakOrder(o: Order, rows: seq<Row>) {
    forall i, j, k | 0 <= i < |rows| && 0 <= j < |rows| && 0 <= k < |rows| ::
      WeaklyOrdered(o, rows[i], rows[j], rows[k])
  }

  /** The numbers of the column, NaN aside, are all the same. */
  predicate OneNumber(o: Order, rows: seq<Row>) {
    forall i, j | 0 <= i < |rows| && 0 <= j < |rows| && Comparable(o, rows[i]) && Comparable(o, rows[j]) ::
      KeyOf(o, rows[i]) == KeyOf(o, rows[j])
  }

  /** One mode for the whole column makes the comparison a strict weak order of its rows, as the code claims,
      exactly when no cell compares as NaN, or there is only one number beside it. */
  lemma ComparisonIsOrder(o: Order, rows: seq<Row>)
    ensures StrictWeakOrder(o, rows) <==> Orderly(o, rows) || OneNumber(o, rows)
  {
    hide Before, KeyOf, WeaklyOrdered, Comparable;
    if Orderly(o, rows) || OneNumber(o, rows) {
      forall i, j, k | 0 <= i < |rows| && 0 <= j < |rows| && 0 <= k < |rows|
        ensures WeaklyOrdered(o, rows[i], rows[j], rows[k])
      {
        if Orderly(o, rows) {
          ComparableRows(o, rows[i], rows[j], rows[k]);
        } else {
          TiedRows(o, rows[i], rows[j], rows[k]);
        }
      }
    } else {
      var n :| 0 <= n < |rows| && !Comparable(o, rows[n]);
      var i, j :| 0 <= i < |rows| && 0 <= j < |rows| && Comparable(o, rows[i]) && Comparable(o, rows[j])
                  && KeyOf(o, rows[i]) != KeyOf(o, rows[j]);
      NaNTies(o, rows[i], rows[n], rows[j]);
      assert !WeaklyOrdered(o, rows[i], rows[n], rows[j]);
    }
  }

  /** A number column with a NaN beside two numbers: the NaN ties with both, and they do not tie. */
  lemma NaNBreaksOrder(col: string, desc: bool, lower: char -> char)
    ensures var rows := [map[col := Value("1", Some(Finite(1.0)))], map[col := Value("NaN", Some(NaN))],
                         map[col := Value("2", Some(Finite(2.0)))]];
            NumericColumn(rows, col) && !StrictWeakOrder(Order(col, true, desc, lower), rows)
  {
    var o := Order(col, true, desc, lower);
    var rows := [map[col := Value("1", Some(Finite(1.0)))], map[col := Value("NaN", Some(NaN))],
                 map[col := Value("2", Some(Finite(2.0)))]];
    ComparisonIsOrder(o, rows);
    assert !Comparable(o, rows[1]);
    assert KeyOf(o, rows[0]) != KeyOf(o, rows[2]);
  }

  lemma ComparableRows(o: Order, x: Row, y: Row, z: Row)
    requires Comparable(o, x) && Comparable(o, y) && Comparable(o, z)
    ensures WeaklyOrdered(o, x, y, z)
  {
    hide Before, KeyOf;
    BeforeIsOrder(o, x, y, z);
    BeforeIsOrder(o, z, y, x);
    BeforeIsOrder(o, x, x, x);
  }

  /** Rows whose numbers do not differ all tie. */
  lemma TiedRows(o: Order, x: Row, y: Row, z: Row)
    requires Comparable(o, x) && Comparable(o, y) ==> KeyOf(o, x) == KeyOf(o, y)
    requires Comparable(o, y) && Comparable(o, z) ==> KeyOf(o, y) == KeyOf(o, z)
    requires Comparable(o, x) && Comparable(o, z) ==> KeyOf(o, x) == KeyOf(o, z)
    ensures WeaklyOrdered(o, x, y, z)
  {
    hide KeyLess, Cell;
    NaNBelowNothing(KeyOf(o, x), KeyOf(o, y));
    NaNBelowNothing(KeyOf(o, y), KeyOf(o, z));
    NaNBelowNothing(KeyOf(o, x), KeyOf(o, z));
    NaNBelowNothing(KeyOf(o, x), KeyOf(o, x));
  }

  lemma NaNBelowNothing(a: Key, b: Key)
    requires a.Num? == b.Num?
    ensures a == Num(NaN) || b == Num(NaN) || a == b ==> !KeyLess(a, b) && !KeyLess(b, a)
  {
    if a.Str? {
      StrLessTotal(a.s, a.s);
    }
  }

  /** A NaN ties with two different numbers, which do not tie. */
  lemma NaNTies(o: Order, x: Row, nan: Row, y: Row)
    requires !Comparable(o, nan) && Comparable(o, x) && Comparable(o, y) && KeyOf(o, x) != KeyOf(o, y)
    ensures !WeaklyOrdered(o, x, nan, y)
  {
    BeforeIsOrder(o, x, y, x);
  }

  // ---- what a stable sort is ------------------------------------------------------------------------------

  predicate Sorted(o: Order, s: seq<Row>) {
    forall i, j | 0 <= i < j < |s| :: !Before(o, s[j], s[i])
  }

  /** The rows with one key, in the order they come in. */
  function Having(o: Order, s: seq<Row>, k: Key): seq<Row> {
    if s == [] then []
    else Having(o, s[..|s| - 1], k) + if KeyOf(o, s[|s| - 1]) == k then [s[|s| - 1]] else []
  }

  /** Sorted, and rows that compare equal keep their order. */
  ghost predicate IsStableSort(o: Order, s: seq<Row>, sorted: seq<Row>) {
    Sorted(o, sorted) && forall k :: Having(o, sorted, k) == Having(o, s, k)
  }

  function Insert(o: Order, s: seq<Row>, x: Row): seq<Row> {
    if s != [] && Before(o, x, s[|s| - 1]) then Insert(o, s[..|s| - 1], x) + [s[|s| - 1]] else s + [x]
  }

  function StableSorted(o: Order, s: seq<Row>): seq<Row> {
    if s == [] then [] else Insert(o, StableSorted(o, s[..|s| - 1]), s[|s| - 1])
  }

  lemma {:induction false} InsertMembers(o: Order, s: seq<Row>, x: Row)
    ensures multiset(Insert(o, s, x)) == multiset(s) + multiset{x}
  {
    if s != [] && Before(o, x, s[|s| - 1]) {
      InsertMembers(o, s[..|s| - 1], x);
      assert s == s[..|s| - 1] + [s[|s| - 1]];
    }
  }

  lemma {:induction false} InsertSorted(o: Order, s: seq<Row>, x: Row)
    requires Sorted(o, s) && Orderly(o, s) && Comparable(o, x)
    ensures Sorted(o, Insert(o, s, x))
  {
    hide Before, Comparable;
    if s != [] {
      var n, last := |s| - 1, s[|s| - 1];
      if Before(o, x, last) {
        InsertSorted(o, s[..n], x);
        InsertMembers(o, s[..n], x);
        var front := Insert(o, s[..n], x);
        forall i | 0 <= i < |front|
          ensures !Before(o, last, front[i])
        {
          assert front[i] in multiset(front);
          BeforeIsOrder(o, x, last, x);
          assert front[i] == x || front[i] in s[..n];
        }
      } else {
        forall i | 0 <= i < n
          ensures !Before(o, x, s[i])
        {
          BeforeIsOrder(o, x, last, s[i]);
        }
      }
    }
  }

  lemma HavingSnoc(o: Order, s: seq<Row>, x: Row, k: Key)
    ensures Having(o, s + [x], k) == Having(o, s, k) + if KeyOf(o, x) == k then [x] else []
  {
    assert (s + [x])[..|s|] == s;
  }

  lemma {:induction false} InsertHaving(o: Order, s: seq<Row>, x: Row, k: Key)
    ensures Having(o, Insert(o, s, x), k) == Having(o, s, k) + if KeyOf(o, x) == k then [x] else []
  {
    hide Before, KeyOf, Having;
    if s != [] && Before(o, x, s[|s| - 1]) {
      var n, last := |s| - 1, s[|s| - 1];
      InsertHaving(o, s[..n], x, k);
      HavingSnoc(o, Insert(o, s[..n], x), last, k);
      HavingSnoc(o, s[..n], last, k);
      assert s[..n] + [last] == s;
      BeforeDiffers(o, x, last);
    } else {
      HavingSnoc(o, s, x, k);
    }
  }

  lemma {:induction false} SortKeeps(o: Order, s: seq<Row>, k: Key)
    ensures multiset(StableSorted(o, s)) == multiset(s)
    ensures Having(o, StableSorted(o, s), k) == Having(o, s, k)
  {
    hide Insert;
    if s != [] {
      var n := |s| - 1;
      SortKeeps(o, s[..n], k);
      InsertMembers(o, StableSorted(o, s[..n]), s[n]);
      InsertHaving(o, StableSorted(o, s[..n]), s[n], k);
      assert s == s[..n] + [s[n]];
    }
  }

  lemma {:induction false} SortSorts(o: Order, s: seq<Row>)
    requires Orderly(o, s)
    ensures Sorted(o, StableSorted(o, s)) && Orderly(o, StableSorted(o, s))
  {
    hide Insert, Sorted, Comparable;
    SortKeeps(o, s, Num(NaN));
    SameMembers(o, s, StableSorted(o, s));
    if s == [] {
      NothingSorted(o);
    } else {
      var n := |s| - 1;
      SortSorts(o, s[..n]);
      InsertSorted(o, StableSorted(o, s[..n]), s[n]);
    }
  }

  lemma NothingSorted(o: Order)
    ensures Sorted(o, [])
  {}

  /** The sort loses no row and keeps the order of rows that compare equal; and it sorts wherever no cell
      compares as NaN. */
  lemma SortIsStable(o: Order, s: seq<Row>)
    ensures multiset(StableSorted(o, s)) == multiset(s)
    ensures forall k :: Having(o, StableSorted(o, s), k) == Having(o, s, k)
    ensures Orderly(o, s) ==> IsStableSort(o, s, StableSorted(o, s)) && Orderly(o, StableSorted(o, s))
  {
    hide StableSorted, Having, Sorted;
    forall k
      ensures Having(o, StableSorted(o, s), k) == Having(o, s, k) && multiset(StableSorted(o, s)) == multiset(s)
    {
      SortKeeps(o, s, k);
    }
    SortKeeps(o, s, Num(NaN));
    if Orderly(o, s) {
      SortSorts(o, s);
    }
  }

  lemma SameMembers(o: Order, s: seq<Row>, t: seq<Row>)
    requires Orderly(o, s) && multiset(t) == multiset(s)
    ensures Orderly(o, t)
  {
    hide Comparable;
    forall i | 0 <= i < |t|
      ensures Comparable(o, t[i])
    {
      assert t[i] in multiset(t);
      assert t[i] in s;
    }
  }

  lemma {:induction false} HavingSome(o: Order, s: seq<Row>, k: Key) returns (i: nat)
    requires Having(o, s, k) != []
    ensures i < |s| && KeyOf(o, s[i]) == k
  {
    if KeyOf(o, s[|s| - 1]) == k {
      i := |s| - 1;
    } else {
      i := HavingSome(o, s[..|s| - 1], k);
    }
  }

  /** The last rows of two stable sorts of the same rows are the same. */
  lemma SameLast(o: Order, a: seq<Row>, b: seq<Row>)
    requires a != [] && Sorted(o, a) && Sorted(o, b) && Orderly(o, a) && Orderly(o, b)
    requires forall k :: Having(o, a, k) == Having(o, b, k)
    ensures b != [] && a[|a| - 1] == b[|b| - 1]
  {
    hide Before, KeyOf;
    var x := a[|a| - 1];
    var k := KeyOf(o, x);
    assert Having(o, a, k) == Having(o, a[..|a| - 1], k) + [x];
    assert Having(o, b, k) != [];
    var y := b[|b| - 1];
    var k' := KeyOf(o, y);
    assert Having(o, b, k') == Having(o, b[..|b| - 1], k') + [y];
    var i := HavingSome(o, a, k');
    var j := HavingSome(o, b, k);
    assert !Before(o, x, a[i]) by { BeforeIsOrder(o, x, x, x); }
    assert !Before(o, y, b[j]) by { BeforeIsOrder(o, y, y, y); }
    SameKeyCompares(o, a[i], y, x);
    SameKeyCompares(o, b[j], x, y);
    BeforeIsOrder(o, x, y, x);
    assert k == k';
    assert Having(o, a, k)[|Having(o, a, k)| - 1] == x;
  }

  lemma SameKeyCompares(o: Order, x: Row, x': Row, y: Row)
    requires KeyOf(o, x) == KeyOf(o, x')
    ensures Before(o, y, x) == Before(o, y, x')
  {}

  /** There is only one way to sort stably, so it does not matter how the library does it. */
  lemma {:induction false} OnlyOneStableSort(o: Order, a: seq<Row>, b: seq<Row>)
    requires Sorted(o, a) && Sorted(o, b) && Orderly(o, a) && Orderly(o, b)
    requires forall k :: Having(o, a, k) == Having(o, b, k)
    ensures a == b
    decreases |a|
  {
    hide Before, KeyOf;
    if a == [] {
      if b != [] {
        SameLast(o, b, a);
      }
    } else {
      SameLast(o, a, b);
      var a', b', x := a[..|a| - 1], b[..|b| - 1], a[|a| - 1];
      forall k
        ensures Having(o, a', k) == Having(o, b', k)
      {
        HavingSnoc(o, a', x, k);
        HavingSnoc(o, b', x, k);
        assert a == a' + [x] && b == b' + [x];
        SameFront(Having(o, a', k), Having(o, b', k), if KeyOf(o, x) == k then [x] else []);
      }
      OnlyOneStableSort(o, a', b');
      assert a == a' + [x] && b == b' + [x];
    }
  }

  lemma SameFront(a: seq<Row>, b: seq<Row>, tail: seq<Row>)
    requires a + tail == b + tail
    ensures a == b
  {
    assert |a| == |b|;
    assert a == (a + tail)[..|a|] && b == (b + tail)[..|b|];
  }

  lemma StableSortUnique(o: Order, s: seq<Row>, sorted: seq<Row>)
    requires Orderly(o, s)
    ensures IsStableSort(o, s, sorted) <==> sorted == StableSorted(o, s)
  {
    SortIsStable(o, s);
    if IsStableSort(o, s, sorted) {
      forall i | 0 <= i < |sorted|
        ensures Comparable(o, sorted[i])
      {
        KeyFound(o, s, sorted, i);
      }
      OnlyOneStableSort(o, sorted, StableSorted(o, s));
    }
  }

  lemma {:induction false} HavingOwn(o: Order, s: seq<Row>, i: nat)
    requires i < |s|
    ensures Having(o, s, KeyOf(o, s[i])) != []
  {
    hide KeyOf;
    if i < |s| - 1 {
      HavingOwn(o, s[..|s| - 1], i);
    }
  }

  lemma KeyFound(o: Order, s: seq<Row>, sorted: seq<Row>, i: nat)
    requires Orderly(o, s) && i < |sorted| && forall k :: Having(o, sorted, k) == Having(o, s, k)
    ensures Comparable(o, sorted[i])
  {
    hide KeyOf;
    HavingOwn(o, sorted, i);
    var j := HavingSome(o, s, KeyOf(o, sorted[i]));
    assert Comparable(o, s[j]);
  }

  // ---- what it means for the column -------------------------------------------------------------------------

  predicate NumLE(a: Float, b: Float) {
    a.NegInf? || b.PosInf? || (a.Finite? && b.Finite? && a.r <= b.r)
  }

  /** The texts agree up to k, and a ends there or goes on with a smaller character. */
  predicate LEFrom(a: string, b: string, k: nat) {
    k <= |a| && k <= |b| && a[..k] == b[..k] && (k == |a| || (k < |b| && a[k] < b[k]))
  }

  /** Lexicographic order by the first difference. */
  ghost predicate TextLE(a: string, b: string) {
    exists k :: LEFrom(a, b, k)
  }

  lemma {:induction false} StrLessIsLexicographic(a: string, b: string)
    ensures TextLE(a, b) <==> !StrLess(b, a)
  {
    if a == "" {
      assert LEFrom(a, b, 0);
    } else if b != "" {
      StrLessIsLexicographic(a[1..], b[1..]);
      if k: nat :| LEFrom(a, b, k) {
        if k > 0 {
          assert a[..k][0] == b[..k][0];
          assert a[1..][..k - 1] == a[..k][1..] && b[1..][..k - 1] == b[..k][1..];
          assert LEFrom(a[1..], b[1..], k - 1);
        }
      }
      if a[0] < b[0] {
        assert LEFrom(a, b, 0);
      } else if a[0] == b[0] {
        if k: nat :| LEFrom(a[1..], b[1..], k) {
          assert a[..k + 1] == [a[0]] + a[1..][..k] && b[..k + 1] == [b[0]] + b[1..][..k];
          assert LEFrom(a, b, k + 1);
        }
      }
    }
  }

  /** The numbers of the column rise, or fall for "desc", where every cell is one; where some cell is none, the
      lower-cased texts do. */
  ghost predicate ColumnSorted(rows: seq<Row>, sorted: seq<Row>, col: string, dir: string, lower: char -> char) {
    && ((forall row | row in rows :: Cell(row, col).num.Some? && Cell(row, col).num != Some(NaN)) ==>
          forall i, j | 0 <= i < j < |sorted| ::
            var a, b := Cell(sorted[i], col).num, Cell(sorted[j], col).num;
            a.Some? && b.Some? && if dir == "desc" then NumLE(b.value, a.value) else NumLE(a.value, b.value))
    && ((exists row | row in rows :: Cell(row, col).num.None?) ==>
          forall i, j | 0 <= i < j < |sorted| ::
            var a, b := ToLower(Cell(sorted[i], col).text, lower), ToLower(Cell(sorted[j], col).text, lower);
            if dir == "desc" then TextLE(b, a) else TextLE(a, b))
  }

  /** The sort does that to the column, for every way a cell can be written. */
  lemma SortsTheColumn(rows: seq<Row>, col: string, dir: string, lower: char -> char)
    ensures ColumnSorted(rows, StableSorted(OrderFor(rows, col, dir, lower), rows), col, dir, lower)
  {
    hide StableSorted, Having;
    var o := OrderFor(rows, col, dir, lower);
    var sorted := StableSorted(o, rows);
    SortIsStable(o, rows);
    forall i | 0 <= i < |sorted|
      ensures sorted[i] in rows
    {
      assert sorted[i] in multiset(sorted);
    }
    forall i, j | 0 <= i < j < |sorted| && Orderly(o, rows)
      ensures !Before(o, sorted[j], sorted[i])
    {}
    forall a, b
      ensures TextLE(a, b) <==> !StrLess(b, a)
    {
      StrLessIsLexicographic(a, b);
    }
  }

  // ---- in place -------------------------------------------------------------------------------------------

  method IsNumericColumn(data: array<Row>, sortCol: string) returns (numeric: bool)
    ensures numeric == NumericColumn(data[..], sortCol)
  {
    numeric := true;
    var r := 0;
    while r < data.Length
      invariant 0 <= r <= data.Length
      invariant forall i | 0 <= i < r :: Cell(data[i], sortCol).num.Some?
    {
      if Cell(data[r], sortCol).num.None? {
        assert data[..][r] == data[r];
        return false;
      }
      r := r + 1;
    }
  }

  /** sortRows, with a stable insertion sort for sort.SliceStable. */
  method SortInPlace(data: array<Row>, sortCol: string, dir: string, lower: char -> char)
    modifies data
    ensures data[..] == StableSorted(OrderFor(old(data[..]), sortCol, dir, lower), old(data[..]))
    ensures ColumnSorted(old(data[..]), data[..], sortCol, dir, lower)
  {
    hide Insert, NumericColumn, ColumnSorted;
    ghost var was := data[..];
    var numeric := IsNumericColumn(data, sortCol);
    var o := Order(sortCol, numeric, dir == "desc", lower);
    var i := 0;
    while i < data.Length
      invariant 0 <= i <= data.Length
      invariant data[..i] == StableSorted(o, was[..i]) && data[i..] == was[i..]
    {
      assert was[..i + 1][..i] == was[..i];
      assert data[i] == data[i..][0] == was[i];
      assert data[i + 1..] == data[i..][1..] == was[i + 1..];
      SinkLast(data, i, o);
      i := i + 1;
    }
    assert was[..i] == was && data[..i] == data[..];
    SortsTheColumn(was, sortCol, dir, lower);
  }

  lemma {:induction false} InsertLength(o: Order, s: seq<Row>, x: Row)
    ensures |Insert(o, s, x)| == |s| + 1
  {
    if s != [] && Before(o, x, s[|s| - 1]) {
      InsertLength(o, s[..|s| - 1], x);
    }
  }

  lemma InsertPasses(o: Order, s: seq<Row>, x: Row, j: nat)
    requires 0 < j <= |s| && Before(o, x, s[j - 1])
    ensures Insert(o, s[..j], x) + s[j..] == Insert(o, s[..j - 1], x) + s[j - 1..]
  {
    hide Before;
    assert s[..j][..j - 1] == s[..j - 1];
    assert s[j - 1..] == [s[j - 1]] + s[j..];
  }

  lemma InsertStops(o: Order, s: seq<Row>, x: Row, j: nat)
    requires j <= |s| && (j > 0 ==> !Before(o, x, s[j - 1]))
    ensures Insert(o, s[..j], x) == s[..j] + [x]
  {}

  /** The inner loop: row i moves down past the rows it comes before. */
  method SinkLast(data: array<Row>, i: nat, o: Order)
    requires i < data.Length
    modifies data
    ensures data[..i + 1] == Insert(o, old(data[..i]), old(data[i]))
    ensures data[i + 1..] == old(data[i + 1..])
  {
    hide Before, Insert;
    ghost var front := data[..i];
    var x := data[i];
    var j := i;
    assert front[..i] == front && front[i..] == [];
    assert Insert(o, front, x) + [] == Insert(o, front, x);
    while j > 0 && Before(o, x, data[j - 1])
      invariant 0 <= j <= i
      invariant forall k | 0 <= k < j :: data[k] == front[k]
      invariant data[j] == x
      invariant forall k | j < k <= i :: data[k] == front[k - 1]
      invariant forall k | i < k < data.Length :: data[k] == old(data[k])
      invariant Insert(o, front, x) == Insert(o, front[..j], x) + front[j..]
    {
      InsertPasses(o, front, x, j);
      data[j - 1], data[j] := data[j], data[j - 1];
      j := j - 1;
    }
    InsertStops(o, front, x, j);
    assert data[..i + 1] == front[..j] + [x] + front[j..];
  }
}
