/** Five-field cron expressions: the parser of cron_parse.go and what a parsed field denotes. */
module CronParse {
  import opened Wrappers
  import opened Text

  const SLOTS := 60

  datatype FieldError = BadStep(part: string) | BadRange(part: string) | BadNumber(part: string)
      | OutOfBounds(part: string)

  /** x is reached from zero by adding step. */
  predicate IsMultiple(x: nat, step: nat)
    requires step > 0
  {
    x == 0 || (x >= step && IsMultiple(x - step, step))
  }

  /** One comma-separated part: every step-th value from lo to hi. */
  datatype Part = Part(star: bool, lo: nat, hi: nat, step: nat) {
    predicate Denotes(v: int)
      requires step > 0
    {
      lo <= v <= hi && IsMultiple(v - lo, step)
    }
  }

  datatype CronField = CronField(values: seq<bool>, min: nat, max: nat) {
    predicate Valid() {
      0 <= min <= max < min + SLOTS && |values| == SLOTS
    }

    predicate Has(v: int)
      requires Valid()
    {
      min <= v <= max && values[v - min]
    }
  }

  datatype ParsedField = ParsedField(field: CronField, restricted: bool)

  datatype CronSpec = CronSpec(minute: CronField, hour: CronField, dom: CronField, month: CronField, dow: CronField,
                               domRestricted: bool, dowRestricted: bool) {
    predicate Valid() {
      && minute.Valid() && minute.min == 0 && minute.max == 59
      && hour.Valid() && hour.min == 0 && hour.max == 23
      && dom.Valid() && dom.min == 1 && dom.max == 31
      && month.Valid() && month.min == 1 && month.max == 12
      && dow.Valid() && dow.min == 0 && dow.max == 6
    }
  }

  datatype CronError = WrongFieldCount | InField(error: FieldError)

  // ---- one part -----------------------------------------------------------------------------

  function ParseStep(part: string): Result<int, FieldError> {
    var i := IndexOf(part, '/');
    if i == |part| then Ok(1)
    else match Atoi(part[i + 1..])
         case Some(n) => if n > 0 then Ok(n) else Err(BadStep(part))
         case None => Err(BadStep(part))
  }

  function ParseBase(part: string, base: string, min: nat, max: nat): Result<(int, int), FieldError> {
    if base == "*" then Ok((min, max))
    else
      var i := IndexOf(base, '-');
      if i < |base| then
        match (Atoi(base[..i]), Atoi(base[i + 1..]))
        case (Some(lo), Some(hi)) => Ok((lo, hi))
        case _ => Err(BadRange(part))
      else
        match Atoi(base)
        case Some(n) => Ok((n, n))
        case None => Err(BadNumber(part))
  }

  function ParsePart(part: string, min: nat, max: nat): (r: Result<Part, FieldError>)
    ensures r.Ok? ==> r.value.step > 0 && min <= r.value.lo <= r.value.hi <= max
  {
    match ParseStep(part)
    case Err(e) => Err(e)
    case Ok(step) =>
      var base := part[..IndexOf(part, '/')];
      match ParseBase(part, base, min, max)
      case Err(e) => Err(e)
      case Ok((lo, hi)) =>
        if lo < min || hi > max || lo > hi then Err(OutOfBounds(part)) else Ok(Part(base == "*", lo, hi, step))
  }

  // ---- which parts are read, and which are refused ------------------------------------------------

  lemma StarPart(min: nat, max: nat)
    requires min <= max
    ensures ParsePart("*", min, max) == Ok(Part(true, min, max, 1))
  {
    IndexOfUnique("*", '/', 1);
    assert "*"[..1] == "*";
  }

  /** One number: read when it is a number between min and max. */
  lemma SinglePart(x: string, min: nat, max: nat)
    requires '/' !in x && '-' !in x && x != "*"
    ensures ParsePart(x, min, max) == match Atoi(x)
                                      case None => Err(BadNumber(x))
                                      case Some(n) => if min <= n <= max then Ok(Part(false, n, n, 1))
                                                      else Err(OutOfBounds(x))
  {
    hide Atoi;
    IndexOfUnique(x, '/', |x|);
    IndexOfUnique(x, '-', |x|);
    assert x[..|x|] == x;
  }

  /** A range: read when both ends are numbers, in order, between min and max. */
  lemma RangePart(x: string, y: string, min: nat, max: nat)
    requires '/' !in x && '/' !in y && '-' !in x
    ensures var part := x + "-" + y;
            ParsePart(part, min, max) == match (Atoi(x), Atoi(y))
                                         case (Some(a), Some(b)) =>
                                           if min <= a <= b <= max then Ok(Part(false, a, b, 1))
                                           else Err(OutOfBounds(part))
                                         case _ => Err(BadRange(part))
  {
    hide Atoi;
    var part := x + "-" + y;
    IndexOfUnique(part, '/', |part|);
    IndexOfUnique(part, '-', |x|);
    assert part[..|part|] == part && part[..|x|] == x && part[|x| + 1..] == y;
    assert part[|x|] == '-';
  }

  /** A step: a positive number, on top of what stands before the slash. */
  lemma SteppedPart(base: string, s: string, min: nat, max: nat)
    requires '/' !in base
    ensures var part := base + "/" + s;
            ParsePart(part, min, max) == if Atoi(s).None? || Atoi(s).value < 1 then Err(BadStep(part))
                                         else match ParsePart(base, min, max)
                                           case Ok(p) => Ok(p.(step := Atoi(s).value))
                                           case Err(e) => Err(e.(part := part))
  {
    hide Atoi;
    var part := base + "/" + s;
    IndexOfUnique(part, '/', |base|);
    IndexOfUnique(base, '/', |base|);
    assert part[..|base|] == base && part[|base| + 1..] == s && base[..|base|] == base;
  }

  /** Every text splits at its first slash, and what stands before it at its first dash, so the four cases
      above are all there are. */
  lemma SplitsAtFirst(s: string, c: char) returns (before: string, after: string)
    requires c in s
    ensures c !in before && s == before + [c] + after
  {
    var i := IndexOf(s, c);
    before, after := s[..i], s[i + 1..];
    assert i < |s|;
  }

  // ---- the denotation of a field -------------------------------------------------------------

  predicate InBounds(parts: seq<Part>, min: nat, max: nat) {
    forall k | 0 <= k < |parts| :: parts[k].step > 0 && min <= parts[k].lo <= parts[k].hi <= max
  }

  /** The parts of a field, or the error of the first part that has one. */
  function ParseParts(texts: seq<string>, min: nat, max: nat): (r: Result<seq<Part>, FieldError>)
    ensures r.Ok? ==> |r.value| == |texts| && InBounds(r.value, min, max)
  {
    if texts == [] then Ok([])
    else
      var n := |texts| - 1;
      match ParseParts(texts[..n], min, max)
      case Err(e) => Err(e)
      case Ok(parts) =>
        match ParsePart(texts[n], min, max)
        case Err(e) => Err(e)
        case Ok(p) => Ok(parts + [p])
  }

  predicate Denoted(parts: seq<Part>, min: nat, max: nat, v: int)
    requires InBounds(parts, min, max)
  {
    exists k | 0 <= k < |parts| :: parts[k].Denotes(v)
  }

  /** What a field text means: the union of its parts, unrestricted as soon as one part is a star. */
  function FieldOf(spec: string, min: nat, max: nat): (r: Result<ParsedField, FieldError>)
    requires 0 <= min <= max < min + SLOTS
    ensures r.Ok? ==> r.value.field.Valid() && r.value.field.min == min && r.value.field.max == max
  {
    match ParseParts(Split(spec, ','), min, max)
    case Err(e) => Err(e)
    case Ok(parts) =>
      Ok(ParsedField(CronField(seq(SLOTS, i => Denoted(parts, min, max, i + min)), min, max),
                     forall k | 0 <= k < |parts| :: !parts[k].star))
  }

  function ParsedSpec(texts: seq<string>): (r: Result<CronSpec, CronError>)
    ensures r.Ok? ==> r.value.Valid()
  {
    if |texts| != 5 then Err(WrongFieldCount)
    else match FieldOf(texts[0], 0, 59)
      case Err(e) => Err(InField(e))
      case Ok(minute) => match FieldOf(texts[1], 0, 23)
        case Err(e) => Err(InField(e))
        case Ok(hour) => match FieldOf(texts[2], 1, 31)
          case Err(e) => Err(InField(e))
          case Ok(dom) => match FieldOf(texts[3], 1, 12)
            case Err(e) => Err(InField(e))
            case Ok(month) => match FieldOf(texts[4], 0, 6)
              case Err(e) => Err(InField(e))
              case Ok(dow) =>
                Ok(CronSpec(minute.field, hour.field, dom.field, month.field, dow.field, dom.restricted,
                    dow.restricted))
  }

  /** The meaning of a whole expression. */
  function SpecOf(expr: string): (r: Result<CronSpec, CronError>)
    ensures r.Ok? ==> r.value.Valid()
  {
    ParsedSpec(Fields(expr))
  }

  // ---- the parser itself -----------------------------------------------------------------------

  lemma {:induction false} ErrorSticks(texts: seq<string>, n: nat, min: nat, max: nat)
    requires n <= |texts| && ParseParts(texts[..n], min, max).Err?
    ensures ParseParts(texts, min, max) == ParseParts(texts[..n], min, max)
  {
    if n < |texts| {
      var front := texts[..|texts| - 1];
      assert front[..n] == texts[..n];
      ErrorSticks(front, n, min, max);
    } else {
      assert texts[..n] == texts;
    }
  }

  /** A field parses when each of its parts does; otherwise the error is that of the first bad part. */
  lemma {:induction false} PartsParsed(texts: seq<string>, min: nat, max: nat)
    ensures match ParseParts(texts, min, max)
            case Ok(parts) => forall k | 0 <= k < |texts| :: ParsePart(texts[k], min, max) == Ok(parts[k])
            case Err(e) => exists k | 0 <= k < |texts| ::
                             (ParsePart(texts[k], min, max) == Err(e)
                              && forall j | 0 <= j < k :: ParsePart(texts[j], min, max).Ok?)
  {
    hide ParsePart;
    if texts != [] {
      var n := |texts| - 1;
      var front := texts[..n];
      PartsParsed(front, min, max);
      if r: FieldError :| ParseParts(front, min, max) == Err(r) {
        var k :| 0 <= k < n && ParsePart(front[k], min, max) == Err(r)
                 && forall j | 0 <= j < k :: ParsePart(front[j], min, max).Ok?;
        assert texts[k] == front[k] && forall j | 0 <= j < k :: texts[j] == front[j];
      } else {
        assert forall j | 0 <= j < n :: texts[j] == front[j];
      }
    }
  }

  /** Adding step to a multiple skips no multiple. */
  lemma {:induction false} MultipleStep(x: nat, y: nat, step: nat)
    requires step > 0 && IsMultiple(x, step) && x < y < x + step
    ensures !IsMultiple(y, step)
  {
    if x > 0 {
      MultipleStep(x - step, y - step, step);
    }
  }

  lemma {:induction false} MultipleIsProduct(x: nat, step: nat)
    requires step > 0
    ensures IsMultiple(x, step) <==> exists q: nat :: x == q * step
  {
    if x == 0 {
      assert x == 0 * step;
    } else if x < step {
      forall q: nat ensures x != q * step { if q > 0 { assert q * step >= step; } }
    } else {
      MultipleIsProduct(x - step, step);
      if q: nat :| x - step == q * step {
        assert x == (q + 1) * step;
      }
      if q: nat :| x == q * step {
        assert q > 0 && x - step == (q - 1) * step;
      }
    }
  }

  /** The inner loop of the parser: sets the slots of one part, and no other slot. */
  method FillPart(values: array<bool>, p: Part, min: nat, max: nat)
    requires values.Length == SLOTS && 0 <= min <= max < min + SLOTS
    requires p.step > 0 && min <= p.lo <= p.hi <= max
    modifies values
    ensures forall i | 0 <= i < SLOTS :: values[i] == (old(values[i]) || p.Denotes(i + min))
  {
    var v := p.lo;
    while v <= p.hi
      invariant p.lo <= v && IsMultiple(v - p.lo, p.step)
      invariant forall i | 0 <= i < SLOTS :: values[i] == (old(values[i]) || (i + min < v && p.Denotes(i + min)))
      decreases p.hi - v
    {
      values[v - min] := true;
      assert p.Denotes(v) && IsMultiple(v + p.step - p.lo, p.step);
      forall u | v < u < v + p.step
        ensures !p.Denotes(u)
      {
        MultipleStep(v - p.lo, u - p.lo, p.step);
      }
      v := v + p.step;
    }
  }

  method ParseCronField(spec: string, min: nat, max: nat) returns (r: Result<ParsedField, FieldError>)
    requires 0 <= min <= max < min + SLOTS
    ensures r == FieldOf(spec, min, max)
  {
    hide Part.Denotes, ParsePart, Split, Denoted, FieldOf;
    var values := new bool[SLOTS](_ => false);
    var star := false;
    var texts := Split(spec, ',');
    ghost var parts: seq<Part> := [];
    NothingDenoted(min, max);
    for n := 0 to |texts|
      invariant ParseParts(texts[..n], min, max) == Ok(parts) && InBounds(parts, min, max)
      invariant star == exists k | 0 <= k < n :: parts[k].star
      invariant forall i | 0 <= i < SLOTS :: values[i] == Denoted(parts, min, max, i + min)
    {
      assert texts[..n + 1][..n] == texts[..n];
      var parsed := ParsePart(texts[n], min, max);
      if parsed.Err? {
        ErrorSticks(texts, n + 1, min, max);
        FieldErr(spec, min, max);
        return Err(parsed.error);
      }
      ghost var before := parts;
      parts := parts + [parsed.value];
      assert parts[n] == parsed.value && forall k | 0 <= k < n :: parts[k] == before[k];
      star := star || parsed.value.star;
      FillPart(values, parsed.value, min, max);
      forall i | 0 <= i < SLOTS
        ensures values[i] == Denoted(parts, min, max, i + min)
      {
        DenotedAppend(before, parsed.value, min, max, i + min);
      }
    }
    assert texts[..|texts|] == texts;
    FieldIs(spec, min, max, parts, values[..]);
    r := Ok(ParsedField(CronField(values[..], min, max), !star));
  }

  lemma NothingDenoted(min: nat, max: nat)
    ensures forall v :: !Denoted([], min, max, v)
  {}

  lemma FieldErr(spec: string, min: nat, max: nat)
    requires max < min + SLOTS && min <= max && ParseParts(Split(spec, ','), min, max).Err?
    ensures FieldOf(spec, min, max) == Err(ParseParts(Split(spec, ','), min, max).error)
  {}

  lemma FieldIs(spec: string, min: nat, max: nat, parts: seq<Part>, values: seq<bool>)
    requires max < min + SLOTS && min <= max && ParseParts(Split(spec, ','), min, max) == Ok(parts)
    requires |values| == SLOTS && forall i | 0 <= i < SLOTS :: values[i] == Denoted(parts, min, max, i + min)
    ensures FieldOf(spec, min, max)
            == Ok(ParsedField(CronField(values, min, max), forall k | 0 <= k < |parts| :: !parts[k].star))
  {
    hide Denoted, ParseParts, Split;
    assert values == FieldOf(spec, min, max).value.field.values;
  }

  lemma DenotedAppend(parts: seq<Part>, p: Part, min: nat, max: nat, v: int)
    requires InBounds(parts, min, max) && InBounds([p], min, max) && InBounds(parts + [p], min, max) && p.step > 0
    ensures Denoted(parts + [p], min, max, v) == (Denoted(parts, min, max, v) || p.Denotes(v))
  {
    hide Part.Denotes;
    var all := parts + [p];
    assert all[|parts|] == p;
    assert forall k | 0 <= k < |parts| :: all[k] == parts[k];
  }

  method ParseCron(expr: string) returns (r: Result<CronSpec, CronError>)
    ensures r == SpecOf(expr)
  {
    var parts := Fields(expr);
    if |parts| != 5 {
      return Err(WrongFieldCount);
    }
    var minute := ParseCronField(parts[0], 0, 59);
    if minute.Err? { return Err(InField(minute.error)); }
    var hour := ParseCronField(parts[1], 0, 23);
    if hour.Err? { return Err(InField(hour.error)); }
    var dom := ParseCronField(parts[2], 1, 31);
    if dom.Err? { return Err(InField(dom.error)); }
    var month := ParseCronField(parts[3], 1, 12);
    if month.Err? { return Err(InField(month.error)); }
    var dow := ParseCronField(parts[4], 0, 6);
    if dow.Err? { return Err(InField(dow.error)); }
    r := Ok(CronSpec(minute.value.field, hour.value.field, dom.value.field, month.value.field, dow.value.field,
                     dom.value.restricted, dow.value.restricted));
  }

  /** A parsed field is never empty, holds nothing outside its range, and holds a value exactly when
      some comma-separated part of its text denotes it. */
  lemma FieldDenotation(spec: string, min: nat, max: nat)
    requires 0 <= min <= max < min + SLOTS && FieldOf(spec, min, max).Ok?
    ensures var f := FieldOf(spec, min, max).value.field;
            var texts := Split(spec, ',');
            && (forall k | 0 <= k < |texts| :: ParsePart(texts[k], min, max).Ok?)
            && (exists v :: f.Has(v))
            && (forall i | 0 <= i < SLOTS ::
                  f.values[i] <==> exists k | 0 <= k < |texts| :: ParsePart(texts[k], min, max).value.Denotes(i + min))
            && (forall i | max - min < i < SLOTS :: !f.values[i])
  {
    hide ParsePart, ParseParts, Split;
    var f := FieldOf(spec, min, max).value.field;
    var texts := Split(spec, ',');
    var parts := ParseParts(texts, min, max).value;
    PartsParsed(texts, min, max);
    forall i | 0 <= i < SLOTS
      ensures f.values[i] <==> exists k | 0 <= k < |texts| :: ParsePart(texts[k], min, max).value.Denotes(i + min)
    {
      DenotedByText(texts, parts, min, max, i + min);
    }
    assert parts[0].Denotes(parts[0].lo) by { assert IsMultiple(0, parts[0].step); }
    var i := parts[0].lo - min;
    assert parts[0].Denotes(i + min);
    assert Denoted(parts, min, max, i + min) && f.values[i];
    assert f.Has(i + min);
  }

  lemma DenotedByText(texts: seq<string>, parts: seq<Part>, min: nat, max: nat, v: int)
    requires InBounds(parts, min, max) && |parts| == |texts|
    requires forall k | 0 <= k < |texts| :: ParsePart(texts[k], min, max) == Ok(parts[k])
    ensures Denoted(parts, min, max, v)
        <==> exists k | 0 <= k < |texts| :: ParsePart(texts[k], min, max).value.Denotes(v)
  {
    hide ParsePart, Part.Denotes;
    if Denoted(parts, min, max, v) {
      var k :| 0 <= k < |parts| && parts[k].Denotes(v);
      assert ParsePart(texts[k], min, max).value.Denotes(v);
    }
    if k :| 0 <= k < |texts| && ParsePart(texts[k], min, max).value.Denotes(v) {
      assert parts[k].Denotes(v);
    }
  }

  // ---- the documented grammar, and parsing as the inverse of printing ---------------------------

  datatype Base = Star | Single(n: nat) | Range(from: nat, to: nat)

  datatype Item = Item(base: Base, step: Option<nat>) {
    predicate Valid(min: nat, max: nat) {
      && (step.Some? ==> 0 < step.value <= MAX_INT64)
      && match base
         case Star => true
         case Single(n) => min <= n <= max
         case Range(a, b) => min <= a <= b <= max
    }

    predicate Means(min: nat, max: nat, v: int)
      requires Valid(min, max)
    {
      var stride := if step.Some? then step.value else 1;
      match base
      case Star => min <= v <= max && IsMultiple(v - min, stride)
      case Single(n) => v == n
      case Range(a, b) => a <= v <= b && IsMultiple(v - a, stride)
    }
  }

  function PrintBase(b: Base): string {
    match b
    case Star => "*"
    case Single(n) => Itoa(n)
    case Range(x, y) => Itoa(x) + "-" + Itoa(y)
  }

  function PrintItem(item: Item): string {
    PrintBase(item.base) + (if item.step.Some? then "/" + Itoa(item.step.value) else "")
  }

  function PrintItems(items: seq<Item>): (texts: seq<string>)
    ensures |texts| == |items| && forall k | 0 <= k < |items| :: texts[k] == PrintItem(items[k])
  {
    seq(|items|, k requires 0 <= k < |items| => PrintItem(items[k]))
  }

  function PrintField(items: seq<Item>): string
    requires |items| >= 1
  {
    Join(PrintItems(items), ',')
  }

  predicate ValidItems(items: seq<Item>, min: nat, max: nat) {
    |items| >= 1 && forall k | 0 <= k < |items| :: items[k].Valid(min, max)
  }

  predicate ItemsMean(items: seq<Item>, min: nat, max: nat, v: int)
    requires ValidItems(items, min, max)
  {
    exists k | 0 <= k < |items| :: items[k].Means(min, max, v)
  }

  lemma BaseChars(b: Base)
    ensures PrintBase(b) != ""
    ensures forall i | 0 <= i < |PrintBase(b)| :: IsDigit(PrintBase(b)[i]) || PrintBase(b)[i] in "*-"
  {}

  lemma ParsePrintedBase(part: string, b: Base, min: nat, max: nat)
    requires 0 <= min <= max < SLOTS && Item(b, None).Valid(min, max)
    ensures ParseBase(part, PrintBase(b), min, max)
            == Ok(match b
                  case Star => (min, max)
                  case Single(n) => (n as int, n as int)
                  case Range(x, y) => (x as int, y as int))
    ensures (PrintBase(b) == "*") == b.Star?
  {
    hide Itoa, Atoi;
    match b {
      case Star =>
      case Single(n) =>
        AtoiItoa(n);
        IndexOfUnique(Itoa(n), '-', |Itoa(n)|);
        assert IsDigit(Itoa(n)[0]);
      case Range(x, y) =>
        var s := PrintBase(b);
        AtoiItoa(x);
        AtoiItoa(y);
        assert IsDigit(Itoa(x)[0]) && s[0] == Itoa(x)[0];
        IndexOfUnique(s, '-', |Itoa(x)|);
        assert s[..|Itoa(x)|] == Itoa(x) && s[|Itoa(x)| + 1..] == Itoa(y);
    }
  }

  /** What a part of the grammar parses to. */
  function PartOf(item: Item, min: nat, max: nat): Part {
    var step := if item.step.Some? then item.step.value else 1;
    match item.base
    case Star => Part(true, min, max, step)
    case Single(n) => Part(false, n, n, step)
    case Range(x, y) => Part(false, x, y, step)
  }

  lemma ParsePrintedItem(item: Item, min: nat, max: nat)
    requires 0 <= min <= max < SLOTS && item.Valid(min, max)
    ensures ParsePart(PrintItem(item), min, max) == Ok(PartOf(item, min, max))
    ensures PrintItem(item) != "" && !Contains(PrintItem(item), ',') && SpaceFree(PrintItem(item))
  {
    hide Itoa, ParseBase, Atoi;
    var s := PrintItem(item);
    var b := PrintBase(item.base);
    BaseChars(item.base);
    IndexOfUnique(s, '/', |b|);
    assert s[..|b|] == b;
    if item.step.Some? {
      assert s[|b| + 1..] == Itoa(item.step.value);
      AtoiItoa(item.step.value);
    }
    ParsePrintedBase(s, item.base, min, max);
  }

  lemma PartMeans(item: Item, min: nat, max: nat, v: int)
    requires 0 <= min <= max < SLOTS && item.Valid(min, max)
    ensures PartOf(item, min, max).Denotes(v) == item.Means(min, max, v)
  {}

  lemma {:induction false} ParsePrintedItems(items: seq<Item>, texts: seq<string>, min: nat, max: nat)
    requires 0 <= min <= max < SLOTS && |texts| == |items|
    requires forall k | 0 <= k < |items| :: items[k].Valid(min, max) && texts[k] == PrintItem(items[k])
    ensures ParseParts(texts, min, max).Ok?
    ensures forall k | 0 <= k < |items| :: ParseParts(texts, min, max).value[k] == PartOf(items[k], min, max)
  {
    hide ParsePart, PrintItem;
    if texts != [] {
      var n := |texts| - 1;
      ParsePrintedItems(items[..n], texts[..n], min, max);
      ParsePrintedItem(items[n], min, max);
    }
  }

  /** Parsing a printed field gives back exactly its meaning. */
  lemma ParsePrintedField(items: seq<Item>, min: nat, max: nat)
    requires 0 <= min <= max < SLOTS && ValidItems(items, min, max)
    ensures var r := FieldOf(PrintField(items), min, max);
            r.Ok? && (forall v | min <= v <= max :: r.value.field.Has(v) == ItemsMean(items, min, max, v))
            && r.value.restricted == forall k | 0 <= k < |items| :: !items[k].base.Star?
    ensures PrintField(items) != "" && SpaceFree(PrintField(items))
  {
    hide Part.Denotes, Item.Means, ParsePart, Join, PrintItem, Split;
    var texts := PrintItems(items);
    forall k | 0 <= k < |items|
      ensures !Contains(texts[k], ',') && texts[k] != "" && SpaceFree(texts[k])
      ensures ParsePart(texts[k], min, max) == Ok(PartOf(items[k], min, max))
    {
      ParsePrintedItem(items[k], min, max);
    }
    SplitJoin(texts, ',');
    JoinSpaceFree(texts);
    ParsePrintedItems(items, texts, min, max);
    var f := FieldOf(PrintField(items), min, max).value.field;
    forall v | min <= v <= max
      ensures f.Has(v) == ItemsMean(items, min, max, v)
    {
      PartsMean(items, ParseParts(texts, min, max).value, min, max, v);
    }
  }

  lemma PartsMean(items: seq<Item>, parts: seq<Part>, min: nat, max: nat, v: int)
    requires 0 <= min <= max < SLOTS && ValidItems(items, min, max) && InBounds(parts, min, max)
    requires |parts| == |items| && forall k | 0 <= k < |items| :: parts[k] == PartOf(items[k], min, max)
    ensures Denoted(parts, min, max, v) == ItemsMean(items, min, max, v)
  {
    hide Part.Denotes, Item.Means;
    forall k | 0 <= k < |items|
      ensures parts[k].Denotes(v) == items[k].Means(min, max, v)
    {
      PartMeans(items[k], min, max, v);
    }
  }

  lemma {:induction false} JoinSpaceFree(texts: seq<string>)
    requires |texts| >= 1
    requires forall k | 0 <= k < |texts| :: texts[k] != "" && SpaceFree(texts[k])
    ensures Join(texts, ',') != "" && SpaceFree(Join(texts, ','))
  {
    if |texts| > 1 {
      JoinSpaceFree(texts[1..]);
    }
  }

  /** The five fields of an expression as the grammar writes them. */
  datatype Expression = Expression(minute: seq<Item>, hour: seq<Item>, dom: seq<Item>, month: seq<Item>,
      dow: seq<Item>) {
    predicate Valid() {
      && ValidItems(minute, 0, 59) && ValidItems(hour, 0, 23) && ValidItems(dom, 1, 31)
      && ValidItems(month, 1, 12) && ValidItems(dow, 0, 6)
    }
  }

  /** Every field has an item, valid or not. */
  predicate Printable(e: Expression) {
    e.minute != [] && e.hour != [] && e.dom != [] && e.month != [] && e.dow != []
  }

  function PrintExpression(e: Expression): string
    requires Printable(e)
  {
    Join([PrintField(e.minute), PrintField(e.hour), PrintField(e.dom), PrintField(e.month), PrintField(e.dow)], ' ')
  }

  /** Every expression of the documented grammar parses, field by field, to what it says. */
  lemma ParsePrintedExpression(e: Expression)
    requires e.Valid()
    ensures var r := SpecOf(PrintExpression(e));
            && r.Ok?
            && (forall v | 0 <= v <= 59 :: r.value.minute.Has(v) == ItemsMean(e.minute, 0, 59, v))
            && (forall v | 0 <= v <= 23 :: r.value.hour.Has(v) == ItemsMean(e.hour, 0, 23, v))
            && (forall v | 1 <= v <= 31 :: r.value.dom.Has(v) == ItemsMean(e.dom, 1, 31, v))
            && (forall v | 1 <= v <= 12 :: r.value.month.Has(v) == ItemsMean(e.month, 1, 12, v))
            && (forall v | 0 <= v <= 6 :: r.value.dow.Has(v) == ItemsMean(e.dow, 0, 6, v))
            && r.value.domRestricted == (forall k | 0 <= k < |e.dom| :: !e.dom[k].base.Star?)
            && r.value.dowRestricted == (forall k | 0 <= k < |e.dow| :: !e.dow[k].base.Star?)
  {
    hide FieldOf, PrintField, ItemsMean, Fields;
    ParsePrintedField(e.minute, 0, 59);
    ParsePrintedField(e.hour, 0, 23);
    ParsePrintedField(e.dom, 1, 31);
    ParsePrintedField(e.month, 1, 12);
    ParsePrintedField(e.dow, 0, 6);
    FieldsJoin([PrintField(e.minute), PrintField(e.hour), PrintField(e.dom), PrintField(e.month), PrintField(e.dow)]);
  }

  // ---- what is refused ------------------------------------------------------------------------------------

  lemma OnlyValidBasesParse(b: Base, min: nat, max: nat)
    requires 0 <= min <= max < SLOTS
    ensures ParsePart(PrintBase(b), min, max).Ok? <==> Item(b, None).Valid(min, max)
    ensures '/' !in PrintBase(b)
  {
    hide Itoa, Atoi, ParsePart;
    BaseChars(b);
    match b {
      case Star => StarPart(min, max);
      case Single(n) =>
        AtoiItoa(n);
        assert IsDigit(Itoa(n)[0]);
        SinglePart(Itoa(n), min, max);
      case Range(x, y) =>
        AtoiItoa(x);
        AtoiItoa(y);
        RangePart(Itoa(x), Itoa(y), min, max);
    }
  }

  /** Printed with whatever numbers, an item parses exactly when it is valid for its field: no step 0, no range
      backwards, and no number outside the field. */
  lemma OnlyValidItemsParse(item: Item, min: nat, max: nat)
    requires 0 <= min <= max < SLOTS
    ensures ParsePart(PrintItem(item), min, max).Ok? <==> item.Valid(min, max)
    ensures PrintItem(item) != "" && !Contains(PrintItem(item), ',') && SpaceFree(PrintItem(item))
  {
    hide Itoa, Atoi, ParsePart, PrintBase;
    var b := PrintBase(item.base);
    BaseChars(item.base);
    OnlyValidBasesParse(item.base, min, max);
    if item.step.Some? {
      var s := Itoa(item.step.value);
      AtoiItoa(item.step.value);
      SteppedPart(b, s, min, max);
      assert PrintItem(item) == b + "/" + s;
    } else {
      assert PrintItem(item) == b;
    }
  }

  lemma OnlyValidFieldsParse(items: seq<Item>, min: nat, max: nat)
    requires 0 <= min <= max < SLOTS && items != []
    ensures FieldOf(PrintField(items), min, max).Ok? <==> ValidItems(items, min, max)
    ensures PrintField(items) != "" && SpaceFree(PrintField(items))
  {
    hide ParsePart, Join, PrintItem, Split;
    var texts := PrintItems(items);
    forall k | 0 <= k < |items|
      ensures !Contains(texts[k], ',') && texts[k] != "" && SpaceFree(texts[k])
      ensures ParsePart(texts[k], min, max).Ok? <==> items[k].Valid(min, max)
    {
      OnlyValidItemsParse(items[k], min, max);
    }
    SplitJoin(texts, ',');
    JoinSpaceFree(texts);
    PartsParsed(texts, min, max);
  }

  /** An expression of five printed fields parses exactly when every item of every field is valid. */
  lemma OnlyValidExpressionsParse(e: Expression)
    requires Printable(e)
    ensures SpecOf(PrintExpression(e)).Ok? <==> e.Valid()
  {
    hide FieldOf, PrintField, ValidItems, Fields;
    OnlyValidFieldsParse(e.minute, 0, 59);
    OnlyValidFieldsParse(e.hour, 0, 23);
    OnlyValidFieldsParse(e.dom, 1, 31);
    OnlyValidFieldsParse(e.month, 1, 12);
    OnlyValidFieldsParse(e.dow, 0, 6);
    FieldsJoin([PrintField(e.minute), PrintField(e.hour), PrintField(e.dom), PrintField(e.month), PrintField(e.dow)]);
  }

  /** Field k, with the lowest and the highest value it may have. */
  function FieldAt(texts: seq<string>, k: nat): Result<ParsedField, FieldError>
    requires |texts| == 5 && k < 5
  {
    FieldOf(texts[k], [0, 0, 1, 1, 0][k], [59, 23, 31, 12, 6][k])
  }

  /** An expression is refused for not having five fields, or with the error of its first bad field. */
  lemma FirstBadField(expr: string)
    ensures var texts := Fields(expr);
            match SpecOf(expr)
            case Err(WrongFieldCount) => |texts| != 5
            case Err(InField(error)) =>
              |texts| == 5 && exists k | 0 <= k < 5 ::
                FieldAt(texts, k) == Err(error) && forall j | 0 <= j < k :: FieldAt(texts, j).Ok?
            case Ok(_) => |texts| == 5 && forall k | 0 <= k < 5 :: FieldAt(texts, k).Ok?
  {
    hide FieldOf, Fields;
    var texts := Fields(expr);
    if SpecOf(expr).Err? && |texts| == 5 {
      assert FieldAt(texts, 0) == FieldOf(texts[0], 0, 59) && FieldAt(texts, 1) == FieldOf(texts[1], 0, 23);
      assert FieldAt(texts, 2) == FieldOf(texts[2], 1, 31) && FieldAt(texts, 3) == FieldOf(texts[3], 1, 12);
      assert FieldAt(texts, 4) == FieldOf(texts[4], 0, 6);
    }
  }
}
