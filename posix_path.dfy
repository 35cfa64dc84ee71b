/**
 * POSIX path manipulation as Node's `path` module performs it on POSIX systems:
 * `path.join`, the `path.normalize` it finishes with, and `path.basename` without
 * a suffix argument. A path is a string and the separator is '/'.
 */
module PosixPath {

  const Sep: char := '/'

  // ------------------------------------------------------------------ pieces

  /** The pieces of `s` between separators, as JavaScript's `s.split("/")`
      gives them: empty pieces included, never an empty list. */
  function Split(s: string): (r: seq<string>)
    ensures |r| >= 1
    decreases |s|
  {
    if |s| == 0 then [""] else AddChar(Split(s[..|s| - 1]), s[|s| - 1])
  }

  /** Reading one more character: a separator opens a new piece, anything
      else extends the last one. */
  function AddChar(front: seq<string>, c: char): (r: seq<string>)
    requires |front| >= 1
    ensures |r| >= 1
  {
    if c == Sep then front + [""]
    else front[..|front| - 1] + [front[|front| - 1] + [c]]
  }

  /** Reading a character only touches the last piece. */
  lemma AddCharAfter(front: seq<string>, g: seq<string>, c: char)
    requires |g| >= 1
    ensures AddChar(front + g, c) == front + AddChar(g, c)
  {
    if c != Sep {
      var f := front + g;
      assert f[..|f| - 1] == front + g[..|g| - 1];
    }
  }

  /** The pieces glued back together with one separator between neighbours
      (JavaScript's `pieces.join("/")`). */
  function JoinPieces(pieces: seq<string>): string
    decreases |pieces|
  {
    if |pieces| == 0 then ""
    else if |pieces| == 1 then pieces[0]
    else JoinPieces(pieces[..|pieces| - 1]) + [Sep] + pieces[|pieces| - 1]
  }

  predicate NoSeps(pieces: seq<string>) {
    forall i :: 0 <= i < |pieces| ==> Sep !in pieces[i]
  }

  /** No piece holds a separator. */
  lemma {:induction false} SplitHasNoSeps(s: string)
    ensures NoSeps(Split(s))
    decreases |s|
  {
    if |s| > 0 {
      var q, c := s[..|s| - 1], s[|s| - 1];
      SplitHasNoSeps(q);
      var front := Split(q);
      if c != Sep {
        var last := front[|front| - 1] + [c];
        assert Sep !in front[|front| - 1];
        assert Sep !in last;
      }
    }
  }

  /** Splitting and gluing back gives the string that was split. */
  lemma {:induction false} JoinPiecesOfSplit(s: string)
    ensures JoinPieces(Split(s)) == s
    decreases |s|
  {
    if |s| > 0 {
      var q, c := s[..|s| - 1], s[|s| - 1];
      assert s == q + [c];
      JoinPiecesOfSplit(q);
      var front := Split(q);
      var n := |front|;
      if c == Sep {
        assert (front + [""])[..n] == front;
      } else {
        var pieces := front[..n - 1] + [front[n - 1] + [c]];
        assert pieces[..n - 1] == front[..n - 1];
        if n > 1 {
          assert front[..n - 1] + [front[n - 1]] == front;
        }
      }
    }
  }

  /** A string without separators is a single piece. */
  lemma {:induction false} SplitOfPiece(x: string)
    requires Sep !in x
    ensures Split(x) == [x]
    decreases |x|
  {
    if |x| > 0 {
      var q := x[..|x| - 1];
      assert x == q + [x[|x| - 1]];
      SplitOfPiece(q);
    }
  }

  lemma SplitSnoc(q: string, c: char)
    ensures Split(q + [c]) == AddChar(Split(q), c)
  {
    assert (q + [c])[..|q|] == q;
  }

  /** Splitting at a separator splits each side on its own. */
  lemma {:induction false} SplitAtSep(a: string, b: string)
    ensures Split(a + [Sep] + b) == Split(a) + Split(b)
    decreases |b|
  {
    if |b| == 0 {
      assert a + [Sep] + b == a + [Sep];
      SplitSnoc(a, Sep);
    } else {
      var b', c := b[..|b| - 1], b[|b| - 1];
      assert a + [Sep] + b == (a + [Sep] + b') + [c];
      assert b == b' + [c];
      SplitAtSep(a, b');
      SplitAtSepSnoc(Split(a), a + [Sep] + b', b', c);
    }
  }

  /** The inductive step of SplitAtSep: one more character on the right. */
  lemma SplitAtSepSnoc(front: seq<string>, s: string, b: string, c: char)
    requires Split(s) == front + Split(b)
    ensures Split(s + [c]) == front + Split(b + [c])
  {
    SplitSnoc(s, c);
    SplitSnoc(b, c);
    AddCharAfter(front, Split(b), c);
  }

  /** Gluing pieces without separators and splitting again gives the pieces. */
  lemma {:induction false} SplitOfJoinPieces(pieces: seq<string>)
    requires |pieces| >= 1 && NoSeps(pieces)
    ensures Split(JoinPieces(pieces)) == pieces
    decreases |pieces|
  {
    var n := |pieces|;
    if n == 1 {
      SplitOfPiece(pieces[0]);
    } else {
      var front, last := pieces[..n - 1], pieces[n - 1];
      assert NoSeps(front) by {
        forall i | 0 <= i < |front| ensures Sep !in front[i] {
          assert front[i] == pieces[i];
        }
      }
      SplitOfJoinPieces(front);
      assert front + [last] == pieces;
      SplitOfJoinPiecesStep(front, last);
    }
  }

  /** The inductive step of SplitOfJoinPieces: one more piece on the right. */
  lemma SplitOfJoinPiecesStep(front: seq<string>, last: string)
    requires |front| >= 1 && Split(JoinPieces(front)) == front && Sep !in last
    ensures Split(JoinPieces(front + [last])) == front + [last]
  {
    var ps := front + [last];
    assert ps[..|ps| - 1] == front;
    assert JoinPieces(ps) == JoinPieces(front) + [Sep] + last;
    SplitAtSep(JoinPieces(front), last);
    SplitOfPiece(last);
  }

  /** Gluing from the front: the first piece, a separator, then the rest. */
  lemma {:induction false} JoinPiecesCons(x: string, rest: seq<string>)
    requires |rest| >= 1
    ensures JoinPieces([x] + rest) == x + [Sep] + JoinPieces(rest)
    decreases |rest|
  {
    var n := |rest|;
    var ps := [x] + rest;
    if n > 1 {
      assert ps[..|ps| - 1] == [x] + rest[..n - 1];
      JoinPiecesCons(x, rest[..n - 1]);
    } else {
      assert ps[..|ps| - 1] == [x];
    }
  }

  // ---------------------------------------------------------------- basename

  /** `p` without the separators it ends with. */
  function TrimTrailingSeps(p: string): (r: string)
    ensures r <= p
    ensures |r| == 0 || r[|r| - 1] != Sep
    ensures forall i :: |r| <= i < |p| ==> p[i] == Sep
    decreases |p|
  {
    if |p| > 0 && p[|p| - 1] == Sep then TrimTrailingSeps(p[..|p| - 1]) else p
  }

  /** The characters of `p` after its last separator. */
  function FinalPiece(p: string): (r: string)
    ensures Sep !in r
    ensures |r| <= |p| && r == p[|p| - |r|..]
    ensures |r| == |p| || p[|p| - |r| - 1] == Sep
    decreases |p|
  {
    if |p| == 0 || p[|p| - 1] == Sep then ""
    else FinalPiece(p[..|p| - 1]) + [p[|p| - 1]]
  }

  /** `path.basename(p)`: the last piece of `p` once trailing separators are
      dropped; "" when `p` holds nothing but separators. */
  function Basename(p: string): (r: string)
    ensures Sep !in r
  {
    FinalPiece(TrimTrailingSeps(p))
  }

  /** The last non-empty piece, or "" if there is none. */
  function LastNonEmpty(pieces: seq<string>): string
    decreases |pieces|
  {
    if |pieces| == 0 then ""
    else if pieces[|pieces| - 1] != "" then pieces[|pieces| - 1]
    else LastNonEmpty(pieces[..|pieces| - 1])
  }

  lemma {:induction false} FinalPieceIsLastPiece(p: string)
    ensures FinalPiece(p) == Split(p)[|Split(p)| - 1]
    decreases |p|
  {
    if |p| > 0 {
      FinalPieceIsLastPiece(p[..|p| - 1]);
    }
  }

  /** Basename agrees with the reference reading: the last non-empty piece of the path. */
  lemma {:induction false} BasenameIsLastNonEmptyPiece(p: string)
    ensures Basename(p) == LastNonEmpty(Split(p))
    decreases |p|
  {
    if |p| == 0 {
    } else if p[|p| - 1] == Sep {
      var q := p[..|p| - 1];
      BasenameIsLastNonEmptyPiece(q);
      assert (Split(q) + [""])[..|Split(q)|] == Split(q);
    } else {
      FinalPieceIsLastPiece(p);
    }
  }

  /** A single non-empty piece is its own basename. */
  lemma BasenameOfPiece(x: string)
    requires x != "" && Sep !in x
    ensures Basename(x) == x
  {
    BasenameIsLastNonEmptyPiece(x);
    SplitOfPiece(x);
  }

  /** Whatever precedes the last separator does not matter to the basename. */
  lemma BasenameAfterSep(prefix: string, x: string)
    requires x != "" && Sep !in x
    ensures Basename(prefix + [Sep] + x) == x
  {
    BasenameIsLastNonEmptyPiece(prefix + [Sep] + x);
    SplitAtSep(prefix, x);
    SplitOfPiece(x);
  }

  lemma BasenameIdempotent(p: string)
    ensures Basename(Basename(p)) == Basename(p)
  {
    if Basename(p) != "" {
      BasenameOfPiece(Basename(p));
    }
  }

  // --------------------------------------------------------------- resolving

  /** A piece a resolved path keeps: not empty, not ".", no separator. */
  predicate IsEntry(s: string) {
    s != "" && s != "." && Sep !in s
  }

  /** An entry that names a child, not the parent "..". */
  predicate IsName(s: string) {
    IsEntry(s) && s != ".."
  }

  predicate AllEntries(ss: seq<string>) {
    forall i :: 0 <= i < |ss| ==> IsEntry(ss[i])
  }

  predicate AllNames(ss: seq<string>) {
    forall i :: 0 <= i < |ss| ==> IsName(ss[i])
  }

  /** One piece of normalisation. Empty and "." pieces vanish; ".." removes the
      last kept entry unless that is itself ".."; otherwise it is kept when the
      path may climb above its start (a relative path) and dropped at the root. */
  function Step(kept: seq<string>, piece: string, aboveRoot: bool): seq<string> {
    if piece == "" || piece == "." then kept
    else if piece == ".." then
      if |kept| > 0 && kept[|kept| - 1] != ".." then kept[..|kept| - 1]
      else if aboveRoot then kept + [".."]
      else kept
    else kept + [piece]
  }

  /** The pieces applied one at a time, left to right, starting from `kept`. */
  function ResolveFrom(kept: seq<string>, pieces: seq<string>, aboveRoot: bool): seq<string>
    decreases |pieces|
  {
    if |pieces| == 0 then kept
    else Step(ResolveFrom(kept, pieces[..|pieces| - 1], aboveRoot), pieces[|pieces| - 1], aboveRoot)
  }

  lemma {:induction false} ResolveAppend(kept: seq<string>, a: seq<string>, b: seq<string>, aboveRoot: bool)
    ensures ResolveFrom(kept, a + b, aboveRoot) == ResolveFrom(ResolveFrom(kept, a, aboveRoot), b, aboveRoot)
    decreases |b|
  {
    if |b| == 0 {
      assert a + b == a;
    } else {
      assert (a + b)[..|a + b| - 1] == a + b[..|b| - 1];
      ResolveAppend(kept, a, b[..|b| - 1], aboveRoot);
    }
  }

  /** Resolution keeps only entries. */
  lemma {:induction false} ResolveKeepsEntries(kept: seq<string>, pieces: seq<string>, aboveRoot: bool)
    requires AllEntries(kept) && NoSeps(pieces)
    ensures AllEntries(ResolveFrom(kept, pieces, aboveRoot))
    decreases |pieces|
  {
    if |pieces| > 0 {
      ResolveKeepsEntries(kept, pieces[..|pieces| - 1], aboveRoot);
    }
  }

  /** At the root, resolution never keeps "..". */
  lemma {:induction false} ResolveRootedKeepsNames(kept: seq<string>, pieces: seq<string>)
    requires AllNames(kept) && NoSeps(pieces)
    ensures AllNames(ResolveFrom(kept, pieces, false))
    decreases |pieces|
  {
    if |pieces| > 0 {
      ResolveRootedKeepsNames(kept, pieces[..|pieces| - 1]);
    }
  }

  /** Names are simply appended. */
  lemma {:induction false} ResolveNames(kept: seq<string>, names: seq<string>, aboveRoot: bool)
    requires AllNames(names)
    ensures ResolveFrom(kept, names, aboveRoot) == kept + names
    decreases |names|
  {
    if |names| > 0 {
      var front := names[..|names| - 1];
      ResolveNames(kept, front, aboveRoot);
      assert kept + front + [names[|names| - 1]] == kept + names;
    }
  }

  /** Replaying a resolved relative path behind `kept` has the same effect as
      one more step of the relative resolution. */
  lemma StepThrough(kept: seq<string>, q: seq<string>, piece: string, aboveRoot: bool)
    requires AllEntries(q)
    ensures ResolveFrom(kept, Step(q, piece, true), aboveRoot)
         == Step(ResolveFrom(kept, q, aboveRoot), piece, aboveRoot)
  {
    var n := |q|;
    if piece == "" || piece == "." {
    } else if piece == ".." && n > 0 && q[n - 1] != ".." {
      assert q[..n - 1] + [q[n - 1]] == q;
      assert ResolveFrom(kept, q, aboveRoot)
          == ResolveFrom(kept, q[..n - 1], aboveRoot) + [q[n - 1]];
    } else {
      assert (q + [piece])[..n] == q;
    }
  }

  /** Resolving a relative path first and then replaying it behind `kept`
      is the same as replaying the unresolved pieces. */
  lemma {:induction false} ResolveRelativeFirst(kept: seq<string>, pieces: seq<string>, aboveRoot: bool)
    requires NoSeps(pieces)
    ensures ResolveFrom(kept, ResolveFrom([], pieces, true), aboveRoot) == ResolveFrom(kept, pieces, aboveRoot)
    decreases |pieces|
  {
    if |pieces| > 0 {
      var front := pieces[..|pieces| - 1];
      ResolveRelativeFirst(kept, front, aboveRoot);
      ResolveKeepsEntries([], front, true);
      StepThrough(kept, ResolveFrom([], front, true), pieces[|pieces| - 1], aboveRoot);
    }
  }

  // --------------------------------------------------------------- normalize

  predicate IsAbsolute(p: string) {
    |p| > 0 && p[0] == Sep
  }

  predicate HasTrailingSep(p: string) {
    |p| > 0 && p[|p| - 1] == Sep
  }

  /** How a resolved path is written back: a leading separator for an absolute
      path, the kept entries, and the trailing separator the input had; "/",
      "./" or "." when nothing is kept. */
  function Render(absolute: bool, kept: seq<string>, trailing: bool): string {
    var body := JoinPieces(kept);
    if body == "" then (if absolute then "/" else if trailing then "./" else ".")
    else (if absolute then "/" else "") + body + (if trailing then "/" else "")
  }

  /** `path.normalize(p)`: never empty, and absolute exactly when `p` is. */
  function Normalize(p: string): (r: string)
    ensures |r| > 0
    ensures IsAbsolute(r) == IsAbsolute(p)
  {
    if p == "" then "."
    else
      var kept := ResolveFrom([], Split(p), !IsAbsolute(p));
      SplitHasNoSeps(p);
      ResolveKeepsEntries([], Split(p), !IsAbsolute(p));
      RenderShape(IsAbsolute(p), kept, HasTrailingSep(p));
      Render(IsAbsolute(p), kept, HasTrailingSep(p))
  }

  /** The text of non-empty entries glued together starts and ends with entry text. */
  lemma JoinPiecesOfEntries(kept: seq<string>)
    requires |kept| >= 1 && AllEntries(kept)
    ensures |JoinPieces(kept)| > 0
    ensures JoinPieces(kept)[0] != Sep
    ensures JoinPieces(kept)[|JoinPieces(kept)| - 1] != Sep
  {
    var n := |kept|;
    if n > 1 {
      JoinPiecesCons(kept[0], kept[1..]);
      assert [kept[0]] + kept[1..] == kept;
    }
    assert kept[0][0] in kept[0];
    assert kept[n - 1][|kept[n - 1]| - 1] in kept[n - 1];
  }

  /** What a rendered path looks like from outside. */
  lemma RenderShape(absolute: bool, kept: seq<string>, trailing: bool)
    requires AllEntries(kept)
    ensures |Render(absolute, kept, trailing)| > 0
    ensures IsAbsolute(Render(absolute, kept, trailing)) == absolute
    ensures (kept != [] || !absolute) ==> HasTrailingSep(Render(absolute, kept, trailing)) == trailing
  {
    if kept != [] {
      JoinPiecesOfEntries(kept);
    }
  }

  /** The pieces of "/", "./" and ".". */
  lemma SplitOfBareRoots()
    ensures Split("/") == ["", ""]
    ensures Split("./") == [".", ""]
    ensures Split(".") == ["."]
  {
    assert "/" == "" + [Sep] + "";
    SplitAtSep("", "");
    SplitOfPiece(".");
    assert "./" == "." + [Sep] + "";
    SplitAtSep(".", "");
  }

  /** Empty pieces and "." pieces change nothing. */
  lemma ResolveBlanks(start: seq<string>, aboveRoot: bool)
    ensures ResolveFrom(start, [""], aboveRoot) == start
    ensures ResolveFrom(start, ["."], aboveRoot) == start
    ensures ResolveFrom(start, ["", ""], aboveRoot) == start
    ensures ResolveFrom(start, [".", ""], aboveRoot) == start
  {
    assert [""][..0] == [] && ["."][..0] == [];
    assert ["", ""][..1] == [""] && [".", ""][..1] == ["."];
  }

  /** The pieces of a rendered path that keeps at least one entry. */
  lemma SplitOfRender(absolute: bool, kept: seq<string>, trailing: bool)
    requires kept != [] && AllEntries(kept)
    ensures Split(Render(absolute, kept, trailing))
         == (if absolute then [""] else []) + kept + (if trailing then [""] else [])
  {
    var body := JoinPieces(kept);
    assert body != "" && Split(body) == kept by {
      JoinPiecesOfEntries(kept);
      SplitOfJoinPieces(kept);
    }
    var head := if absolute then [Sep] + body else body;
    assert Split(head) == (if absolute then [""] else []) + kept by {
      if absolute {
        SplitOfRooted(body);
      }
    }
    assert Render(absolute, kept, trailing) == if trailing then head + [Sep] else head;
    if trailing {
      SplitOfTrailing(head);
    }
  }

  /** A leading separator adds an empty first piece. */
  lemma SplitOfRooted(body: string)
    ensures Split([Sep] + body) == [""] + Split(body)
  {
    assert [Sep] + body == "" + [Sep] + body;
    SplitAtSep("", body);
  }

  /** A trailing separator adds an empty last piece. */
  lemma SplitOfTrailing(head: string)
    ensures Split(head + [Sep]) == Split(head) + [""]
  {
    SplitSnoc(head, Sep);
  }

  /** Splitting a rendered path and replaying it has the effect of the kept entries. */
  lemma RenderPieces(absolute: bool, kept: seq<string>, trailing: bool, start: seq<string>, aboveRoot: bool)
    requires AllEntries(kept)
    ensures ResolveFrom(start, Split(Render(absolute, kept, trailing)), aboveRoot) == ResolveFrom(start, kept, aboveRoot)
  {
    ResolveBlanks(start, aboveRoot);
    if kept == [] {
      SplitOfBareRoots();
    } else {
      SplitOfRender(absolute, kept, trailing);
      var pre := if absolute then [""] else [];
      var post := if trailing then [""] else [];
      ResolveAppend(start, pre + kept, post, aboveRoot);
      ResolveAppend(start, pre, kept, aboveRoot);
      ResolveBlanks(ResolveFrom(start, pre + kept, aboveRoot), aboveRoot);
      assert ResolveFrom(start, [], aboveRoot) == start;
      assert pre + kept + post == (pre + kept) + post;
    }
  }

  /** Normalising a relative path first changes nothing about the pieces it
      contributes, nor about its trailing separator. */
  lemma NormalizedRelativePieces(y: string, start: seq<string>, aboveRoot: bool)
    requires y != "" && !IsAbsolute(y)
    ensures ResolveFrom(start, Split(Normalize(y)), aboveRoot) == ResolveFrom(start, Split(y), aboveRoot)
    ensures HasTrailingSep(Normalize(y)) == HasTrailingSep(y)
    ensures !IsAbsolute(Normalize(y)) && Normalize(y) != ""
  {
    var kept := ResolveFrom([], Split(y), true);
    SplitHasNoSeps(y);
    ResolveKeepsEntries([], Split(y), true);
    RenderPieces(false, kept, HasTrailingSep(y), start, aboveRoot);
    RenderShape(false, kept, HasTrailingSep(y));
    ResolveRelativeFirst(start, Split(y), aboveRoot);
  }

  /** Prefixing a relative path with `r` and normalising the whole does not
      depend on whether the relative part was normalised beforehand. */
  lemma NormalizeUnderPrefix(r: string, y: string)
    requires y != "" && !IsAbsolute(y)
    ensures Normalize(Glue(r, Normalize(y))) == Normalize(Glue(r, y))
  {
    var n := Normalize(y);
    NormalizedRelativePieces(y, [], true);
    if r != "" {
      var whole := Glue(r, y);
      var a := IsAbsolute(r);
      assert IsAbsolute(Glue(r, n)) == a && IsAbsolute(whole) == a;
      SplitAtSep(r, n);
      SplitAtSep(r, y);
      ResolveAppend([], Split(r), Split(n), !a);
      ResolveAppend([], Split(r), Split(y), !a);
      NormalizedRelativePieces(y, ResolveFrom([], Split(r), !a), !a);
    }
  }

  /** Normalising twice is normalising once. */
  lemma NormalizeIdempotent(p: string)
    ensures Normalize(Normalize(p)) == Normalize(p)
  {
    if p == "" {
      SplitOfPiece(".");
    } else if !IsAbsolute(p) {
      NormalizeUnderPrefix("", p);
      NormalizedRelativePieces(p, [], true);
    } else {
      var kept := ResolveFrom([], Split(p), false);
      var trailing := HasTrailingSep(p);
      SplitHasNoSeps(p);
      ResolveRootedKeepsNames([], Split(p));
      RenderPieces(true, kept, trailing, [], false);
      RenderShape(true, kept, trailing);
      ResolveNames([], kept, false);
      assert [] + kept == kept;
      if kept == [] {
        SplitOfBareRoots();
        ResolveBlanks([], false);
        assert Normalize(p) == "/";
        assert IsAbsolute("/") && HasTrailingSep("/");
        assert ResolveFrom([], Split("/"), false) == [];
        assert Normalize("/") == Render(true, [], true) == "/";
      }
    }
  }

  // -------------------------------------------------------------------- join

  /** `acc` extended by one argument of `path.join`: empty arguments are
      skipped, the others are appended after a separator. */
  function Glue(acc: string, part: string): string {
    if part == "" then acc else if acc == "" then part else acc + [Sep] + part
  }

  /** The arguments of `path.join` glued together, before normalisation. */
  function Joined(parts: seq<string>): string
    decreases |parts|
  {
    if |parts| == 0 then "" else Glue(Joined(parts[..|parts| - 1]), parts[|parts| - 1])
  }

  /** `path.join(...parts)`: "." when every argument is empty, otherwise the
      normalised glued arguments; never empty, and absolute exactly when the
      glued arguments are. */
  function Join(parts: seq<string>): (r: string)
    ensures |r| > 0
    ensures IsAbsolute(r) == IsAbsolute(Joined(parts))
  {
    var joined := Joined(parts);
    if joined == "" then "." else Normalize(joined)
  }

  /** `path.join` of arguments whose glued text splits into known pieces. */
  lemma JoinThroughPieces(parts: seq<string>, text: string, pieces: seq<string>)
    requires Joined(parts) == text && text != "" && Split(text) == pieces
    ensures Join(parts) == Render(IsAbsolute(text), ResolveFrom([], pieces, !IsAbsolute(text)), HasTrailingSep(text))
  {
  }

  lemma GlueAssociative(a: string, b: string, c: string)
    ensures Glue(Glue(a, b), c) == Glue(a, Glue(b, c))
  {
  }

  lemma JoinedOfTwo(a: string, b: string)
    ensures Joined([a, b]) == Glue(a, b)
  {
    assert [a, b][..1] == [a];
    assert [a][..0] == [];
    assert Joined([a]) == Glue("", a) == a;
  }

  lemma JoinedOfThree(a: string, b: string, c: string)
    ensures Joined([a, b, c]) == Glue(Glue(a, b), c)
  {
    assert [a, b, c][..2] == [a, b];
    JoinedOfTwo(a, b);
  }

  /** Joining with a nested join of a relative path is the same as one flat join. */
  lemma JoinNested(r: string, l: string, b: string)
    requires Glue(l, b) != "" && !IsAbsolute(Glue(l, b))
    ensures Join([r, Join([l, b])]) == Join([r, l, b])
  {
    var y := Glue(l, b);
    JoinedOfTwo(l, b);
    JoinedOfTwo(r, Join([l, b]));
    JoinedOfThree(r, l, b);
    GlueAssociative(r, l, b);
    NormalizedRelativePieces(y, [], true);
    NormalizeUnderPrefix(r, y);
  }

  // ------------------------------------------------------------- plain paths

  /** A path with no empty, "." or ".." piece and no trailing separator, such
      as "/r", "r" or "/r/libs": normalisation leaves it as it is. */
  predicate IsPlain(p: string) {
    var pieces := Split(p);
    (pieces[0] == "" ==> |pieces| >= 2)
    && (pieces[0] != "" ==> IsName(pieces[0]))
    && forall i :: 1 <= i < |pieces| ==> IsName(pieces[i])
  }

  lemma NormalizePlain(p: string)
    requires IsPlain(p)
    ensures Normalize(p) == p
  {
    var pieces := Split(p);
    var n := |pieces|;
    JoinPiecesOfSplit(p);
    assert pieces[n - 1] != "";
    assert !HasTrailingSep(p) by {
      assert p[|p| - 1] == pieces[n - 1][|pieces[n - 1]| - 1];
      assert pieces[n - 1][|pieces[n - 1]| - 1] in pieces[n - 1];
    }
    if pieces[0] == "" {
      assert [""] + pieces[1..] == pieces;
      NormalizePlainAbsolute(p, pieces[1..]);
    } else {
      assert AllNames(pieces) by {
        assert IsName(pieces[0]);
      }
      NormalizePlainRelative(p, pieces);
    }
  }

  lemma NormalizePlainAbsolute(p: string, rest: seq<string>)
    requires Split(p) == [""] + rest && |rest| >= 1 && AllNames(rest)
    requires !HasTrailingSep(p) && JoinPieces(Split(p)) == p
    ensures Normalize(p) == p
  {
    JoinPiecesCons("", rest);
    assert p == [Sep] + JoinPieces(rest);
    assert IsAbsolute(p);
    var kept := ResolveFrom([], Split(p), false);
    ResolveAppend([], [""], rest, false);
    ResolveBlanks([], false);
    ResolveNames([], rest, false);
    assert [] + rest == rest;
    assert kept == rest;
    JoinPiecesOfEntries(rest);
    assert Normalize(p) == Render(true, rest, false);
  }

  lemma NormalizePlainRelative(p: string, pieces: seq<string>)
    requires Split(p) == pieces && |pieces| >= 1 && AllNames(pieces)
    requires !HasTrailingSep(p) && JoinPieces(pieces) == p
    ensures Normalize(p) == p
  {
    assert AllEntries(pieces);
    assert p != "" && !IsAbsolute(p) by {
      JoinPiecesOfEntries(pieces);
    }
    assert ResolveFrom([], pieces, true) == pieces by {
      ResolveNames([], pieces, true);
      assert [] + pieces == pieces;
    }
    assert Render(false, pieces, false) == p by {
      assert "" + p + "" == p;
    }
    NormalizeThroughPieces(p, pieces);
  }

  /** `path.normalize` of a non-empty path whose pieces are known. */
  lemma NormalizeThroughPieces(p: string, pieces: seq<string>)
    requires p != "" && Split(p) == pieces
    ensures Normalize(p) == Render(IsAbsolute(p), ResolveFrom([], pieces, !IsAbsolute(p)), HasTrailingSep(p))
  {
  }

  /** Joining a plain path with a plain relative path keeps both as they are. */
  lemma JoinPlain(a: string, b: string)
    requires IsPlain(a) && IsPlain(b) && Split(b)[0] != ""
    ensures Join([a, b]) == a + [Sep] + b
    ensures IsPlain(a + [Sep] + b) && Split(a + [Sep] + b) == Split(a) + Split(b)
  {
    var p := Split(a) + Split(b);
    assert Split(a + [Sep] + b) == p by {
      SplitAtSep(a, b);
    }
    assert IsPlain(a + [Sep] + b) by {
      var pa, pb := Split(a), Split(b);
      assert p[0] == pa[0];
      forall i | 1 <= i < |p| ensures IsName(p[i]) {
        if i >= |pa| {
          assert p[i] == pb[i - |pa|];
        }
      }
    }
    assert Joined([a, b]) == a + [Sep] + b by {
      JoinedOfTwo(a, b);
      assert a != "" && b != "";
    }
    NormalizePlain(a + [Sep] + b);
  }

  lemma PlainName(x: string)
    requires IsName(x)
    ensures IsPlain(x) && Split(x) == [x]
  {
    SplitOfPiece(x);
  }
}
