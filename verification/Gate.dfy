/** Path matching and the LIKE lookup of internal/gate/gate.go. */
module Gate {
  import opened Text
  import opened Wrappers

  predicate GatePathMatches(path: string, bp: string) {
    path == bp || HasPrefix(path, bp + "/") || HasPrefix(path, bp + "?")
  }

  function EscapeLike(s: string): string {
    if s == "" then "" else EscapeChar(s[0]) + EscapeLike(s[1..])
  }

  function EscapeChar(c: char): string {
    if c == '\\' || c == '%' || c == '_' then ['\\', c] else [c]
  }

  // ---- SQL LIKE with an escape character, ISO/IEC 9075-2 section 8.5 ---------------------------------------------

  datatype Piece = Lit(c: char) | AnyOne | AnyString

  /** A pattern's pieces; None where the escape character is misplaced and the query fails. */
  function Pieces(p: string): Option<seq<Piece>> {
    if p == "" then Some([])
    else if p[0] == '\\' then
      if |p| < 2 || (p[1] != '\\' && p[1] != '%' && p[1] != '_') then None else Prepend(Lit(p[1]), Pieces(p[2..]))
    else Prepend(if p[0] == '%' then AnyString else if p[0] == '_' then AnyOne else Lit(p[0]), Pieces(p[1..]))
  }

  function Prepend(x: Piece, rest: Option<seq<Piece>>): Option<seq<Piece>> {
    match rest
    case None => None
    case Some(xs) => Some([x] + xs)
  }

  ghost predicate Fits(t: string, xs: seq<Piece>)
    decreases |xs|
  {
    if xs == [] then t == ""
    else match xs[0]
      case Lit(c) => t != "" && t[0] == c && Fits(t[1..], xs[1..])
      case AnyOne => t != "" && Fits(t[1..], xs[1..])
      case AnyString => exists k | 0 <= k <= |t| :: Fits(t[k..], xs[1..])
  }

  ghost predicate Like(t: string, pattern: string) {
    var xs := Pieces(pattern);
    xs.Some? && Fits(t, xs.value)
  }

  function Lits(s: string): seq<Piece> {
    if s == "" then [] else [Lit(s[0])] + Lits(s[1..])
  }

  lemma CharPiece(c: char, rest: string)
    ensures Pieces(EscapeChar(c) + rest) == Prepend(Lit(c), Pieces(rest))
  {
    var p := EscapeChar(c) + rest;
    assert p[|EscapeChar(c)|..] == rest;
  }

  lemma {:induction false} EscapedPieces(s: string, tail: string)
    requires Pieces(tail).Some?
    ensures Pieces(EscapeLike(s) + tail) == Some(Lits(s) + Pieces(tail).value)
  {
    hide Pieces, EscapeChar;
    if s == "" {
      assert EscapeLike(s) + tail == tail;
      assert Lits(s) + Pieces(tail).value == Pieces(tail).value;
    } else {
      EscapedPieces(s[1..], tail);
      CharPiece(s[0], EscapeLike(s[1..]) + tail);
      assert EscapeLike(s) + tail == EscapeChar(s[0]) + (EscapeLike(s[1..]) + tail);
      assert [Lit(s[0])] + (Lits(s[1..]) + Pieces(tail).value) == Lits(s) + Pieces(tail).value;
    }
  }

  lemma {:induction false} LitsFit(t: string, s: string)
    ensures Fits(t, Lits(s) + [AnyString]) <==> HasPrefix(t, s)
  {
    var xs := Lits(s) + [AnyString];
    if s == "" {
      assert xs[1..] == [];
      assert t[|t|..] == "";
    } else {
      assert xs[1..] == Lits(s[1..]) + [AnyString];
      if t != "" {
        LitsFit(t[1..], s[1..]);
        if t[0] == s[0] && HasPrefix(t[1..], s[1..]) {
          assert t[..|s|] == [t[0]] + t[1..][..|s| - 1];
          assert s == [s[0]] + s[1..];
        }
        if HasPrefix(t, s) {
          assert t[1..][..|s| - 1] == t[..|s|][1..];
        }
      }
    }
  }

  lemma OnePiece(p: string)
    requires p == ['%']
    ensures Pieces(p) == Some([AnyString])
  {
    assert p[1..] == "";
    assert [AnyString] + [] == [AnyString];
  }

  /** Whatever the client put into the segment, the pattern means: starts with a slash and that segment. */
  lemma LookupPattern(t: string, s: string)
    ensures Like(t, "/" + EscapeLike(s) + "%") <==> HasPrefix(t, "/" + s)
  {
    var p := "/" + EscapeLike(s) + "%";
    OnePiece("%");
    EscapedPieces(s, "%");
    assert p[1..] == EscapeLike(s) + "%";
    assert [Lit('/')] + (Lits(s) + [AnyString]) == Lits("/" + s) + [AnyString] by {
      assert ("/" + s)[1..] == s;
    }
    LitsFit(t, "/" + s);
  }

  // ---- the offline page finds the project that the gate blocked -------------------------------------------

  function TrimSlash(s: string): string {
    if HasPrefix(s, "/") then s[1..] else s
  }

  /** Up to the first slash. */
  function FirstSegment(s: string): (r: string)
    ensures HasPrefix(s, r) && '/' !in r
    ensures |r| < |s| ==> s[|r|] == '/'
  {
    if s == "" || s[0] == '/' then "" else [s[0]] + FirstSegment(s[1..])
  }

  /** The base path is among those that the offline page's query for this request can return. */
  ghost predicate Found(uri: string, bp: string) {
    Like(bp, "/" + EscapeLike(FirstSegment(TrimSlash(uri))) + "%")
  }

  /** The gate blocks a request below a base path; the base path is then among the answers of the page's query,
      except where it is one segment long and the request goes on with a query. */
  lemma BlockedIsFound(path: string, bp: string)
    requires GatePathMatches(path, bp) && HasPrefix(bp, "/")
    ensures Found(path, bp) <==> '/' in bp[1..] || !HasPrefix(path, bp + "?")
  {
    hide Like, EscapeLike;
    var rest := TrimSlash(path);
    var seg := FirstSegment(rest);
    LookupPattern(bp, seg);
    assert HasPrefix(path, bp);
    assert path == "/" + rest;
    var b := bp[1..];
    assert bp == "/" + b;
    assert rest[..|b|] == b by { assert path[..|bp|][1..] == b; }
    SegmentOfExtension(rest, b);
    if HasPrefix(bp, "/" + seg) {
      assert b[..|seg|] == seg by { assert bp[..|seg| + 1][1..] == seg; }
    }
    if HasPrefix(b, seg) {
      assert bp[..|seg| + 1] == "/" + b[..|seg|];
    }
    assert |rest| > |b| ==> rest[|b|] == path[|bp|];
    assert HasPrefix(path, bp + "?") <==> |path| > |bp| && path[|bp|] == '?' by { OneMore(path, bp, '?'); }
    assert HasPrefix(path, bp + "/") <==> |path| > |bp| && path[|bp|] == '/' by { OneMore(path, bp, '/'); }
  }

  type Project = string

  /** The page for a blocked request renders the blocked project, whichever of its answers the query returns. */
  ghost predicate RendersBlocked(rows: map<Project, string>, path: string, id: Project) {
    && id in rows && Found(path, rows[id])
    && forall q | q in rows && Found(path, rows[q]) :: q == id
  }

  /** It does so exactly when the query can find the base path at all, and no other project's base path starts
      with a slash and the first segment of the request: the query asks for one row of all those, and base
      paths need not be unique. */
  lemma PageOfBlocked(rows: map<Project, string>, path: string, id: Project)
    requires id in rows && GatePathMatches(path, rows[id]) && HasPrefix(rows[id], "/")
    ensures RendersBlocked(rows, path, id)
            <==> ('/' in rows[id][1..] || !HasPrefix(path, rows[id] + "?"))
                 && forall q | q in rows && q != id :: !HasPrefix(rows[q], "/" + FirstSegment(TrimSlash(path)))
  {
    hide Like, EscapeLike, GatePathMatches, FirstSegment, TrimSlash;
    BlockedIsFound(path, rows[id]);
    forall b
      ensures Found(path, b) <==> HasPrefix(b, "/" + FirstSegment(TrimSlash(path)))
    {
      LookupPattern(b, FirstSegment(TrimSlash(path)));
    }
  }

  /** With the base paths /a and /ab both projects answer for /a/x, and so do two projects with /a. */
  lemma SiblingRendered(id: Project, sibling: Project, path: string, a: string, b: string)
    requires id != sibling && path == "/a/x" && a == "/a" && (b == "/ab" || b == "/a")
    ensures GatePathMatches(path, a) && Found(path, a) && Found(path, b)
    ensures !RendersBlocked(map[id := a, sibling := b], path, id)
  {
    hide Like, EscapeLike, FirstSegment;
    assert path[..3] == a + "/";
    assert path[..1] == "/";
    var rest := TrimSlash(path);
    var seg := FirstSegment(rest);
    assert rest[0] == 'a' && rest[1] == '/';
    assert seg == ['a'];
    LookupPattern(a, seg);
    LookupPattern(b, seg);
    assert b[..2] == "/" + seg && a[..2] == "/" + seg;
    var rows := map[id := a, sibling := b];
    assert sibling in rows && rows[sibling] == b;
  }

  /** And the page for /a?x cannot find the project of /a that the gate blocked it for. */
  lemma QueryIsMissed(path: string, a: string)
    requires path == "/a?x" && a == "/a"
    ensures GatePathMatches(path, a) && !Found(path, a)
  {
    hide Like, EscapeLike, FirstSegment;
    assert path[..3] == a + "?";
    assert path[..1] == "/";
    BlockedIsFound(path, a);
    assert a[1..] == ['a'];
  }

  lemma OneMore(s: string, p: string, c: char)
    requires HasPrefix(s, p)
    ensures HasPrefix(s, p + [c]) <==> |s| > |p| && s[|p|] == c
  {
    if |s| > |p| {
      assert s[..|p| + 1] == p + [s[|p|]];
      assert (p + [c])[|p|] == c;
    }
  }

  lemma Shorter(s: string, p: string, more: string)
    ensures HasPrefix(s, p + more) ==> HasPrefix(s, p)
  {
    if HasPrefix(s, p + more) {
      assert s[..|p|] == s[..|p + more|][..|p|];
    }
  }

  /** The first segment of a longer text starts the shorter one, unless it reaches past its end. */
  lemma {:induction false} SegmentOfExtension(s: string, b: string)
    requires HasPrefix(s, b)
    ensures HasPrefix(b, FirstSegment(s)) <==> '/' in b || |s| == |b| || s[|b|] == '/'
  {
    if b != "" && s[0] != '/' {
      assert s[1..][..|b| - 1] == b[1..] by { assert s[..|b|][1..] == b[1..]; }
      SegmentOfExtension(s[1..], b[1..]);
      var seg := FirstSegment(s);
      assert seg[1..] == FirstSegment(s[1..]);
      assert b[0] == s[0] by { assert s[..|b|][0] == b[0]; }
      assert HasPrefix(b, seg) <==> HasPrefix(b[1..], seg[1..]) by {
        if HasPrefix(b, seg) { assert b[1..][..|seg| - 1] == b[..|seg|][1..]; }
        if HasPrefix(b[1..], seg[1..]) { assert b[..|seg|] == [b[0]] + b[1..][..|seg| - 1]; }
      }
      assert '/' in b <==> '/' in b[1..] by { assert b == [b[0]] + b[1..]; }
    } else if b != "" {
      assert b[0] == s[0] by { assert s[..|b|][0] == b[0]; }
    }
  }

  // ---- what the gate matches ------------------------------------------------------------------------------

  /** A request falls under a base path when it is the base path, or goes on after it with a slash or a
      query; a sibling that only shares its first letters does not. */
  lemma GateMatchesBoundary(path: string, bp: string)
    ensures GatePathMatches(path, bp)
            <==> HasPrefix(path, bp) && (|path| > |bp| ==> path[|bp|] == '/' || path[|bp|] == '?')
  {
    if HasPrefix(path, bp) {
      OneMore(path, bp, '/');
      OneMore(path, bp, '?');
      if |path| == |bp| {
        assert path == path[..|bp|];
      }
    } else {
      Shorter(path, bp, "/");
      Shorter(path, bp, "?");
    }
  }

  /** What LIKE means: a percent sign stands for any text, an underscore for any one character, and both stand for
      themselves after a backslash, which may precede nothing else. */
  lemma Wildcards(t: string, c: char)
    ensures Like(t, "%") && (Like(t, "_") <==> |t| == 1)
    ensures c in {'%', '_', '\\'} ==> (Like(t, ['\\', c]) <==> t == [c])
    ensures c !in {'%', '_', '\\'} ==> (Like(t, [c]) <==> t == [c]) && !Like(t, ['\\', c])
    ensures !Like(t, ['\\'])
  {
    OnePiece("%");
    assert Fits(t, [AnyString]) by { assert [AnyString][1..] == [] && t[|t|..] == ""; }
    assert ['_'][1..] == "" && [c][1..] == "" && ['\\', c][2..] == "";
    assert [AnyOne] + [] == [AnyOne] && [Lit(c)] + [] == [Lit(c)];
    assert [AnyOne][1..] == [] && [Lit(c)][1..] == [];
    assert Fits(t, [AnyOne]) <==> |t| == 1;
    assert Fits(t, [Lit(c)]) <==> t == [c];
  }
}
