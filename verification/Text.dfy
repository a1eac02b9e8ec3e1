/** The string routines of Go's strconv and strings packages that the server relies on. */
module Text {
  import opened Wrappers

  const MIN_INT64 := -0x8000_0000_0000_0000
  const MAX_INT64 := 0x7fff_ffff_ffff_ffff

  predicate IsDigit(c: char) {
    '0' <= c <= '9'
  }

  predicate AllDigits(s: string) {
    forall i | 0 <= i < |s| :: IsDigit(s[i])
  }

  function DigitChar(d: int): (c: char)
    requires 0 <= d <= 9
    ensures IsDigit(c)
  {
    '0' + d as char
  }

  function DigitValue(c: char): (d: int)
    requires IsDigit(c)
    ensures 0 <= d <= 9
  {
    (c - '0') as int
  }

  /** The number a string of digits stands for. */
  function Value(s: string): nat
    requires AllDigits(s)
  {
    if s == "" then 0 else 10 * Value(s[..|s| - 1]) + DigitValue(s[|s| - 1])
  }

  /** fmt.Sprintf("%d", n) for n that is not negative. */
  function Itoa(n: nat): (s: string)
    ensures s != "" && AllDigits(s)
  {
    if n < 10 then [DigitChar(n)] else Itoa(n / 10) + [DigitChar(n % 10)]
  }

  /** strconv.Atoi: an optional sign, at least one digit, nothing else, and within int64. */
  function Atoi(s: string): Option<int> {
    var signed := s != "" && (s[0] == '+' || s[0] == '-');
    var body := if signed then s[1..] else s;
    if body == "" || !AllDigits(body) then None
    else
      var magnitude: int := Value(body);
      var v := if signed && s[0] == '-' then -magnitude else magnitude;
      if MIN_INT64 <= v <= MAX_INT64 then Some(v) else None
  }

  lemma {:induction false} ValueItoa(n: nat)
    ensures Value(Itoa(n)) == n
  {
    if n >= 10 {
      ValueItoa(n / 10);
      var s := Itoa(n);
      assert s[..|s| - 1] == Itoa(n / 10);
    }
  }

  /** Atoi reads back what Itoa prints, as far as it fits. */
  lemma AtoiItoa(n: nat)
    ensures Atoi(Itoa(n)) == if n <= MAX_INT64 then Some(n) else None
  {
    ValueItoa(n);
    assert IsDigit(Itoa(n)[0]);
  }

  /** With digits alone or after a plus sign Atoi gives their value, after a minus sign its negative, as far
      as it fits into 64 bits. */
  lemma AtoiReads(d: string)
    requires d != "" && AllDigits(d)
    ensures Atoi(d) == Atoi("+" + d) == if Value(d) <= 0x7fff_ffff_ffff_ffff then Some(Value(d)) else None
    ensures var n: int := Value(d); Atoi("-" + d) == if n <= 0x8000_0000_0000_0000 then Some(-n) else None
  {
    hide Value;
    assert IsDigit(d[0]);
    assert ("+" + d)[1..] == d && ("-" + d)[1..] == d;
  }

  /** And no other text is a number. */
  lemma AtoiRefuses(s: string)
    ensures Atoi(s).Some? ==> exists d :: d != "" && AllDigits(d) && s in {d, "+" + d, "-" + d}
  {
    hide Value;
    if Atoi(s).Some? {
      var d := if s[0] == '+' || s[0] == '-' then s[1..] else s;
      assert s == d || s == [s[0]] + d;
      assert d != "" && AllDigits(d) && s in {d, "+" + d, "-" + d};
    }
  }

  lemma {:induction false} LeadingZero(d: string)
    requires AllDigits(d)
    ensures AllDigits("0" + d) && Value("0" + d) == Value(d)
  {
    var s := "0" + d;
    if d == "" {
      assert s[..0] == "";
    } else {
      LeadingZero(d[..|d| - 1]);
      assert s[..|s| - 1] == "0" + d[..|d| - 1];
    }
  }

  lemma {:induction false} NoLeadingZero(n: nat)
    ensures Itoa(n)[0] == '0' <==> n == 0
  {
    if n >= 10 {
      NoLeadingZero(n / 10);
    }
  }

  predicate Contains(s: string, c: char) {
    exists i | 0 <= i < |s| :: s[i] == c
  }

  /** strings.Index for one character, with |s| in place of -1. */
  function IndexOf(s: string, c: char): (i: nat)
    ensures i <= |s|
    ensures forall j | 0 <= j < i :: s[j] != c
    ensures i < |s| ==> s[i] == c
  {
    if s == "" || s[0] == c then 0 else 1 + IndexOf(s[1..], c)
  }

  /** strings.Split on one character. */
  function Split(s: string, sep: char): (parts: seq<string>)
    ensures |parts| >= 1
    ensures forall k | 0 <= k < |parts| :: !Contains(parts[k], sep)
    decreases |s|
  {
    var i := IndexOf(s, sep);
    if i == |s| then [s] else [s[..i]] + Split(s[i + 1..], sep)
  }

  function Join(parts: seq<string>, sep: char): string
    requires |parts| >= 1
  {
    if |parts| == 1 then parts[0] else parts[0] + [sep] + Join(parts[1..], sep)
  }

  lemma IndexOfUnique(s: string, c: char, i: nat)
    requires i <= |s| && (forall j | 0 <= j < i :: s[j] != c) && (i < |s| ==> s[i] == c)
    ensures IndexOf(s, c) == i
  {}

  /** Split undoes Join whenever no part contains the separator. */
  lemma {:induction false} SplitJoin(parts: seq<string>, sep: char)
    requires |parts| >= 1
    requires forall k | 0 <= k < |parts| :: !Contains(parts[k], sep)
    ensures Split(Join(parts, sep), sep) == parts
  {
    var s := Join(parts, sep);
    if |parts| == 1 {
      IndexOfUnique(s, sep, |s|);
    } else {
      IndexOfUnique(s, sep, |parts[0]|);
      assert s[..|parts[0]|] == parts[0];
      assert s[|parts[0]| + 1..] == Join(parts[1..], sep);
      SplitJoin(parts[1..], sep);
    }
  }

  /** And Join undoes Split. */
  lemma {:induction false} JoinSplit(s: string, sep: char)
    ensures Join(Split(s, sep), sep) == s
    decreases |s|
  {
    var i := IndexOf(s, sep);
    if i < |s| {
      var rest := Split(s[i + 1..], sep);
      JoinSplit(s[i + 1..], sep);
      assert Split(s, sep)[1..] == rest;
      assert s == s[..i] + [sep] + s[i + 1..];
    }
  }

  /** A text that is split in two at a separator has the parts of both halves. */
  lemma {:induction false} SplitApart(a: string, sep: char, b: string)
    ensures Split(a + [sep] + b, sep) == Split(a, sep) + Split(b, sep)
    decreases |a|
  {
    var s := a + [sep] + b;
    var i := IndexOf(a, sep);
    assert s[|a|] == sep;
    IndexOfUnique(s, sep, i);
    assert s[..i] == a[..i];
    if i < |a| {
      assert s[i + 1..] == a[i + 1..] + [sep] + b;
      SplitApart(a[i + 1..], sep, b);
    } else {
      assert s[i + 1..] == b && a[..i] == a;
    }
  }

  lemma {:induction false} LastSeparator(s: string, sep: char) returns (a: string, b: string)
    requires sep in s
    ensures s == a + [sep] + b && sep !in b
  {
    var n := |s| - 1;
    if s[n] == sep {
      a, b := s[..n], "";
    } else {
      assert s == s[..n] + [s[n]];
      a, b := LastSeparator(s[..n], sep);
      b := b + [s[n]];
    }
  }

  /** unicode.IsSpace. */
  predicate IsSpace(c: char) {
    '\t' <= c <= '\r' || c == ' ' || c == '\U{85}' || c == '\U{A0}' || c == '\U{1680}'
    || '\U{2000}' <= c <= '\U{200A}' || c == '\U{2028}' || c == '\U{2029}' || c == '\U{202F}'
    || c == '\U{205F}' || c == '\U{3000}'
  }

  /** The code points with the property White_Space of Unicode. */
  lemma WhiteSpace(c: char)
    ensures IsSpace(c) <==> var u := c as int;
                            9 <= u <= 13 || u == 32 || u == 133 || u == 160 || u == 5760 || 8192 <= u <= 8202
                            || u == 8232 || u == 8233 || u == 8239 || u == 8287 || u == 12288
  {}

  predicate SpaceFree(s: string) {
    forall i | 0 <= i < |s| :: !IsSpace(s[i])
  }

  function WordLength(s: string): (k: nat)
    ensures k <= |s| && SpaceFree(s[..k]) && (k < |s| ==> IsSpace(s[k]))
  {
    if s == "" || IsSpace(s[0]) then 0 else 1 + WordLength(s[1..])
  }

  /** strings.Fields: the maximal runs of characters that are not white space. */
  function Fields(s: string): (words: seq<string>)
    ensures forall k | 0 <= k < |words| :: words[k] != "" && SpaceFree(words[k])
    decreases |s|
  {
    if s == "" then []
    else if IsSpace(s[0]) then Fields(s[1..])
    else var k := WordLength(s); [s[..k]] + Fields(s[k..])
  }

  lemma {:induction false} WordLengthPrefix(w: string, rest: string)
    requires SpaceFree(w) && (rest == "" || IsSpace(rest[0]))
    ensures WordLength(w + rest) == |w|
  {
    if w == "" {
      assert w + rest == rest;
    } else {
      assert (w + rest)[1..] == w[1..] + rest;
      WordLengthPrefix(w[1..], rest);
    }
  }

  /** Fields undoes Join with a blank whenever the words are nonempty and free of white space. */
  lemma {:induction false} FieldsJoin(words: seq<string>)
    requires |words| >= 1
    requires forall k | 0 <= k < |words| :: words[k] != "" && SpaceFree(words[k])
    ensures Fields(Join(words, ' ')) == words
  {
    var s := Join(words, ' ');
    var rest := if |words| == 1 then "" else " " + Join(words[1..], ' ');
    assert s == words[0] + rest;
    assert s[0] == words[0][0];
    WordLengthPrefix(words[0], rest);
    assert s[..|words[0]|] == words[0] && s[|words[0]|..] == rest;
    if |words| > 1 {
      assert rest[1..] == Join(words[1..], ' ');
      FieldsJoin(words[1..]);
    }
  }

  /** Any white space at all separates words, and separates nothing else. */
  lemma {:induction false} FieldsApart(a: string, c: char, b: string)
    requires IsSpace(c)
    ensures Fields(a + [c] + b) == Fields(a) + Fields(b)
    decreases |a|
  {
    hide IsSpace;
    var s := a + [c] + b;
    if a == "" {
      assert s[1..] == b;
    } else if IsSpace(a[0]) {
      assert s[1..] == a[1..] + [c] + b;
      FieldsApart(a[1..], c, b);
    } else {
      var k := WordLength(a);
      WordLengthPrefix(a[..k], s[k..]);
      assert s == a[..k] + s[k..];
      assert s[k..] == a[k..] + [c] + b;
      FieldsApart(a[k..], c, b);
    }
  }

  lemma OneField(w: string)
    requires w != "" && SpaceFree(w)
    ensures Fields(w) == [w] && Fields("") == []
  {
    WordLengthPrefix(w, "");
    assert w + "" == w;
  }

  /** strings.HasPrefix. */
  predicate HasPrefix(s: string, p: string) {
    |p| <= |s| && s[..|p|] == p
  }

  /** strings.ToLower, with lower for the lower case of single characters. */
  function ToLower(s: string, lower: char -> char): (r: string)
    ensures |r| == |s|
  {
    seq(|s|, i requires 0 <= i < |s| => lower(s[i]))
  }

  /** strings.Contains. */
  predicate HasText(s: string, part: string) {
    exists i | 0 <= i <= |s| :: HasPrefix(s[i..], part)
  }

  lemma PrefixMeans(s: string, p: string)
    ensures HasPrefix(s, p) <==> exists b :: s == p + b
  {
    if HasPrefix(s, p) {
      assert s == p + s[|p|..];
    }
  }

  predicate Around(a: string, part: string, b: string, s: string) {
    s == a + part + b
  }

  /** A text is found where it stands between any two others, and nowhere else. */
  lemma HasTextMeans(s: string, part: string)
    ensures HasText(s, part) <==> exists a, b :: Around(a, part, b, s)
  {
    hide HasPrefix;
    if HasText(s, part) {
      var i :| 0 <= i <= |s| && HasPrefix(s[i..], part);
      PrefixMeans(s[i..], part);
      var b :| s[i..] == part + b;
      assert s == s[..i] + s[i..];
      assert Around(s[..i], part, b, s);
    }
    if a, b :| Around(a, part, b, s) {
      assert s[|a|..] == part + b;
      PrefixMeans(s[|a|..], part);
      assert HasPrefix(s[|a|..], part);
    }
  }

  predicate AllSpace(s: string) {
    forall i | 0 <= i < |s| :: IsSpace(s[i])
  }

  /** strings.TrimSpace. */
  function TrimSpace(s: string): string
    decreases |s|
  {
    if s == "" then ""
    else if IsSpace(s[0]) then TrimSpace(s[1..])
    else if IsSpace(s[|s| - 1]) then TrimSpace(s[..|s| - 1])
    else s
  }

  /** It takes away white space at both ends, and all of it. */
  lemma {:induction false} TrimSpaceMeans(s: string) returns (a: string, b: string)
    ensures s == a + TrimSpace(s) + b && AllSpace(a) && AllSpace(b)
    ensures var t := TrimSpace(s); t != "" ==> !IsSpace(t[0]) && !IsSpace(t[|t| - 1])
    decreases |s|
  {
    hide IsSpace;
    if s == "" {
      a, b := "", "";
    } else if IsSpace(s[0]) {
      a, b := TrimSpaceMeans(s[1..]);
      assert s == [s[0]] + s[1..];
      a := [s[0]] + a;
    } else if IsSpace(s[|s| - 1]) {
      a, b := TrimSpaceMeans(s[..|s| - 1]);
      assert s == s[..|s| - 1] + [s[|s| - 1]];
      b := b + [s[|s| - 1]];
    } else {
      a, b := "", "";
      assert s == "" + s + "";
    }
  }
}
