/**
 * The lexical path functions of Go's path/filepath that the gateway relies on:
 * Clean, Join and ToSlash. The operating system is a parameter: on Windows
 * both '/' and '\' separate path elements and '\' is the separator written.
 *
 * Clean is modelled by its documented rules, over the path's elements:
 * repeated separators collapse, "." elements go, ".." cancels the element
 * before it unless that is itself "..", ".." right after the root goes, and
 * the empty result becomes ".".
 */
module FilePath {

  predicate IsSep(windows: bool, c: char) {
    c == '/' || (windows && c == '\\')
  }

  function Separator(windows: bool): (c: char)
    ensures IsSep(windows, c)
  {
    if windows then '\\' else '/'
  }

  /** s holds no separator: it can be one element of a path. */
  predicate NoSep(windows: bool, s: string) {
    forall i :: 0 <= i < |s| ==> !IsSep(windows, s[i])
  }

  predicate IsRooted(windows: bool, p: string) {
    |p| > 0 && IsSep(windows, p[0])
  }

  /** The elements between separators, empty ones included. */
  function Split(windows: bool, p: string): (parts: seq<string>)
    ensures |parts| >= 1
    ensures forall i :: 0 <= i < |parts| ==> NoSep(windows, parts[i])
  {
    if p == [] then [""]
    else
      var rest := Split(windows, p[1..]);
      if IsSep(windows, p[0]) then [""] + rest
      else [[p[0]] + rest[0]] + rest[1..]
  }

  /** The elements written out with sep between consecutive ones. */
  function JoinSegs(segs: seq<string>, sep: char): string
  {
    if |segs| == 0 then ""
    else if |segs| == 1 then segs[0]
    else segs[0] + [sep] + JoinSegs(segs[1..], sep)
  }

  /**
   * The elements a cleaned path may have: none empty or ".", no separator in
   * any, ".." only in a leading run, and none at all below the root.
   */
  predicate Canonical(windows: bool, rooted: bool, segs: seq<string>) {
    (forall i :: 0 <= i < |segs| ==> segs[i] != "" && segs[i] != "." && NoSep(windows, segs[i]))
    && (forall i, j :: 0 <= i < j < |segs| && segs[j] == ".." ==> segs[i] == "..")
    && (rooted ==> ".." !in segs)
  }

  /** Clean's rules, applied element by element onto the stack of kept elements. */
  function Resolve(rooted: bool, stack: seq<string>, parts: seq<string>): seq<string>
    decreases |parts|
  {
    if parts == [] then stack
    else
      var e := parts[0];
      var next :=
        if e == "" || e == "." then stack
        else if e == ".." then
          if |stack| > 0 && stack[|stack| - 1] != ".." then stack[..|stack| - 1]
          else if rooted then stack
          else stack + [".."]
        else stack + [e];
      Resolve(rooted, next, parts[1..])
  }

  /** The path written from its root flag and elements, "." when there is nothing. */
  function Render(sep: char, rooted: bool, segs: seq<string>): string
  {
    if rooted then [sep] + JoinSegs(segs, sep)
    else if segs == [] then "."
    else JoinSegs(segs, sep)
  }

  /** The elements Clean keeps of p. */
  function CleanSegments(windows: bool, p: string): (segs: seq<string>)
    ensures Canonical(windows, IsRooted(windows, p), segs)
  {
    var rooted := IsRooted(windows, p);
    ResolveKeepsCanonical(windows, rooted, [], Split(windows, p));
    Resolve(rooted, [], Split(windows, p))
  }

  /** filepath.Clean. */
  function Clean(windows: bool, p: string): (r: string)
    ensures r != ""
    ensures IsRooted(windows, r) <==> IsRooted(windows, p)
  {
    var segs := CleanSegments(windows, p);
    RenderRooted(windows, IsRooted(windows, p), segs);
    Render(Separator(windows), IsRooted(windows, p), segs)
  }

  /** filepath.Join of two elements: the non-empty tail joined with the separator, cleaned. */
  function Join(windows: bool, elem1: string, elem2: string): (r: string)
    ensures r == "" <==> elem1 == "" && elem2 == ""
    ensures IsRooted(windows, elem1) ==> IsRooted(windows, r)
  {
    if elem1 != "" then Clean(windows, elem1 + [Separator(windows)] + elem2)
    else if elem2 != "" then Clean(windows, elem2)
    else ""
  }

  /** filepath.ToSlash: on Windows every '\' becomes '/'; elsewhere nothing changes. */
  function ToSlash(windows: bool, p: string): (r: string)
    ensures |r| == |p|
    ensures windows ==> '\\' !in r
    ensures windows ==> forall i :: 0 <= i < |p| && p[i] == '\\' ==> r[i] == '/'
    ensures forall i :: 0 <= i < |p| && p[i] != '\\' ==> r[i] == p[i]
    ensures !windows ==> r == p
  {
    if windows then seq(|p|, i requires 0 <= i < |p| => if p[i] == '\\' then '/' else p[i])
    else p
  }

  // ----- lemmas -----

  /** Resolving never produces an element Clean would not keep. */
  lemma {:induction false} ResolveKeepsCanonical(windows: bool, rooted: bool, stack: seq<string>, parts: seq<string>)
    requires Canonical(windows, rooted, stack)
    requires forall i :: 0 <= i < |parts| ==> NoSep(windows, parts[i])
    ensures Canonical(windows, rooted, Resolve(rooted, stack, parts))
    decreases |parts|
  {
    if parts != [] {
      var e := parts[0];
      var next :=
        if e == "" || e == "." then stack
        else if e == ".." then
          if |stack| > 0 && stack[|stack| - 1] != ".." then stack[..|stack| - 1]
          else if rooted then stack
          else stack + [".."]
        else stack + [e];
      if e == ".." && !(|stack| > 0 && stack[|stack| - 1] != "..") && !rooted {
        assert forall i :: 0 <= i < |stack| ==> stack[i] == "..";
      }
      assert Canonical(windows, rooted, next);
      ResolveKeepsCanonical(windows, rooted, next, parts[1..]);
    }
  }

  /** A path already in canonical form resolves to itself. */
  lemma {:induction false} ResolveCanonical(windows: bool, rooted: bool, stack: seq<string>, d: seq<string>)
    requires Canonical(windows, rooted, stack + d)
    ensures Resolve(rooted, stack, d) == stack + d
    decreases |d|
  {
    if d != [] {
      var e := d[0];
      assert (stack + d)[|stack|] == e;
      if e == ".." {
        assert forall i :: 0 <= i < |stack| ==> stack[i] == (stack + d)[i];
      }
      assert (stack + [e]) + d[1..] == stack + d;
      ResolveCanonical(windows, rooted, stack + [e], d[1..]);
    } else {
      assert stack + d == stack;
    }
  }

  lemma {:induction false} SplitPrefix(windows: bool, a: string, rest: string)
    requires NoSep(windows, a)
    ensures Split(windows, a + rest) ==
      [a + Split(windows, rest)[0]] + Split(windows, rest)[1..]
    decreases |a|
  {
    if a != [] {
      assert (a + rest)[0] == a[0] && (a + rest)[1..] == a[1..] + rest;
      assert [a[0]] + a[1..] == a;
      SplitPrefix(windows, a[1..], rest);
      assert [a[0]] + (a[1..] + Split(windows, rest)[0]) == a + Split(windows, rest)[0];
    } else {
      var parts := Split(windows, rest);
      assert a + rest == rest;
      assert a + parts[0] == parts[0];
      assert parts == [parts[0]] + parts[1..];
    }
  }

  /** Splitting undoes joining with the separator. */
  lemma {:induction false} SplitJoin(windows: bool, segs: seq<string>)
    requires |segs| >= 1
    requires forall i :: 0 <= i < |segs| ==> NoSep(windows, segs[i])
    ensures Split(windows, JoinSegs(segs, Separator(windows))) == segs
    decreases |segs|
  {
    var sep := Separator(windows);
    if |segs| == 1 {
      SplitPrefix(windows, segs[0], "");
      assert JoinSegs(segs, sep) == segs[0] == segs[0] + "";
      assert Split(windows, "") == [""];
      assert [segs[0] + ""] + [""][1..] == segs;
    } else {
      var tail := JoinSegs(segs[1..], sep);
      SplitJoin(windows, segs[1..]);
      assert ([sep] + tail)[1..] == tail;
      assert Split(windows, [sep] + tail) == [""] + segs[1..];
      assert segs[0] + [sep] + tail == segs[0] + ([sep] + tail);
      SplitPrefix(windows, segs[0], [sep] + tail);
      assert JoinSegs(segs, sep) == segs[0] + ([sep] + tail);
      assert segs[0] + "" == segs[0];
      assert [segs[0]] + segs[1..] == segs;
    }
  }

  /** The first character of the joined elements is that of the first element. */
  lemma JoinSegsHead(segs: seq<string>, sep: char)
    requires |segs| >= 1 && segs[0] != ""
    ensures JoinSegs(segs, sep) != [] && JoinSegs(segs, sep)[0] == segs[0][0]
  {
  }

  /** A rendered path is rooted exactly when its flag says so. */
  lemma RenderRooted(windows: bool, rooted: bool, segs: seq<string>)
    requires Canonical(windows, rooted, segs)
    ensures Render(Separator(windows), rooted, segs) != ""
    ensures IsRooted(windows, Render(Separator(windows), rooted, segs)) <==> rooted
  {
    if !rooted && segs != [] {
      JoinSegsHead(segs, Separator(windows));
      assert NoSep(windows, segs[0]);
    }
  }

  /** The elements of a rendered canonical path, as Split sees them. */
  lemma RenderSplit(windows: bool, rooted: bool, segs: seq<string>)
    requires Canonical(windows, rooted, segs)
    ensures Split(windows, Render(Separator(windows), rooted, segs)) ==
      if segs == [] then (if rooted then ["", ""] else ["."])
      else (if rooted then [""] else []) + segs
  {
    var sep := Separator(windows);
    if segs != [] {
      SplitJoin(windows, segs);
      if rooted {
        assert ([sep] + JoinSegs(segs, sep))[1..] == JoinSegs(segs, sep);
      }
    } else if rooted {
      var r := Render(sep, rooted, segs);
      assert r == [sep] + JoinSegs(segs, sep) == [sep];
      assert r[1..] == "" && IsSep(windows, r[0]);
      assert Split(windows, "") == [""];
      assert Split(windows, r) == [""] + Split(windows, r[1..]);
    } else {
      assert "."[1..] == "" && Split(windows, "") == [""];
      assert ['.'] + "" == ".";
    }
  }

  /** Clean leaves a path written from canonical elements as it is. */
  lemma CleanRender(windows: bool, rooted: bool, d: seq<string>)
    requires Canonical(windows, rooted, d)
    ensures Clean(windows, Render(Separator(windows), rooted, d)) == Render(Separator(windows), rooted, d)
  {
    var c := Render(Separator(windows), rooted, d);
    RenderSplit(windows, rooted, d);
    RenderRooted(windows, rooted, d);
    assert [] + d == d;
    if d == [] {
      var parts := if rooted then ["", ""] else ["."];
      assert Split(windows, c) == parts;
      assert Resolve(rooted, [], parts[1..]) == [];
      assert Resolve(rooted, [], parts) == [];
    } else {
      ResolveCanonical(windows, rooted, [], d);
      if rooted {
        assert CleanSegments(windows, c) == Resolve(true, [], [""] + d);
        assert ([""] + d)[1..] == d;
      }
      assert CleanSegments(windows, c) == d;
    }
  }

  /** Cleaning a cleaned path changes nothing. */
  lemma CleanIdempotent(windows: bool, p: string)
    ensures Clean(windows, Clean(windows, p)) == Clean(windows, p)
  {
    CleanRender(windows, IsRooted(windows, p), CleanSegments(windows, p));
  }

  /** Join's result is already clean. */
  lemma JoinIsClean(windows: bool, elem1: string, elem2: string)
    requires elem1 != "" || elem2 != ""
    ensures Clean(windows, Join(windows, elem1, elem2)) == Join(windows, elem1, elem2)
  {
    if elem1 != "" {
      CleanIdempotent(windows, elem1 + [Separator(windows)] + elem2);
    } else {
      CleanIdempotent(windows, elem2);
    }
  }

  lemma {:induction false} ToSlashJoinSegs(segs: seq<string>)
    requires forall i :: 0 <= i < |segs| ==> NoSep(true, segs[i])
    ensures ToSlash(true, JoinSegs(segs, '\\')) == JoinSegs(segs, '/')
    decreases |segs|
  {
    if |segs| == 1 {
      assert NoSep(true, segs[0]);
    } else if |segs| > 1 {
      ToSlashJoinSegs(segs[1..]);
      assert NoSep(true, segs[0]);
      var a, b := segs[0] + ['\\'], JoinSegs(segs[1..], '\\');
      assert ToSlash(true, a + b) == ToSlash(true, a) + ToSlash(true, b);
      assert ToSlash(true, a) == segs[0] + ['/'];
    }
  }

  /** After ToSlash, a cleaned path is written with '/' on every system. */
  lemma ToSlashClean(windows: bool, p: string)
    ensures ToSlash(windows, Clean(windows, p)) ==
      Render('/', IsRooted(windows, p), CleanSegments(windows, p))
  {
    if windows {
      var d := CleanSegments(windows, p);
      ToSlashJoinSegs(d);
      if IsRooted(windows, p) {
        var j := JoinSegs(d, '\\');
        assert ToSlash(true, ['\\'] + j) == ToSlash(true, ['\\']) + ToSlash(true, j);
      }
    }
  }

  /** A separator between two paths splits them apart. */
  lemma {:induction false} SplitConcat(windows: bool, x: string, y: string)
    ensures Split(windows, x + [Separator(windows)] + y) == Split(windows, x) + Split(windows, y)
    decreases |x|
  {
    var sep := Separator(windows);
    if x == [] {
      assert x + [sep] + y == [sep] + y;
      assert ([sep] + y)[1..] == y;
    } else {
      SplitConcat(windows, x[1..], y);
      SplitConcatStep(windows, x, y);
    }
  }

  lemma SplitConcatStep(windows: bool, x: string, y: string)
    requires x != []
    requires Split(windows, x[1..] + [Separator(windows)] + y) == Split(windows, x[1..]) + Split(windows, y)
    ensures Split(windows, x + [Separator(windows)] + y) == Split(windows, x) + Split(windows, y)
  {
    var c := x[0];
    var tail := x[1..] + [Separator(windows)] + y;
    var sx, sy := Split(windows, x[1..]), Split(windows, y);
    assert x == [c] + x[1..];
    assert x + [Separator(windows)] + y == [c] + tail;
    SplitCons(windows, c, tail);
    SplitCons(windows, c, x[1..]);
    ConsAppend(IsSep(windows, c), c, sx, sy);
  }

  lemma ConsAppend(sep: bool, c: char, sx: seq<string>, sy: seq<string>)
    requires |sx| >= 1
    ensures (if sep then [""] + (sx + sy) else [[c] + (sx + sy)[0]] + (sx + sy)[1..])
      == (if sep then [""] + sx else [[c] + sx[0]] + sx[1..]) + sy
  {
    if !sep {
      assert (sx + sy)[0] == sx[0] && (sx + sy)[1..] == sx[1..] + sy;
    }
  }

  /** Split of a string from its first character and the Split of the rest. */
  lemma SplitCons(windows: bool, c: char, s: string)
    ensures Split(windows, [c] + s) ==
      if IsSep(windows, c) then [""] + Split(windows, s)
      else [[c] + Split(windows, s)[0]] + Split(windows, s)[1..]
  {
    assert ([c] + s)[0] == c && ([c] + s)[1..] == s;
  }

  /** Resolving two runs of elements is resolving the second onto the first's result. */
  lemma {:induction false} ResolveConcat(rooted: bool, stack: seq<string>, a: seq<string>, b: seq<string>)
    ensures Resolve(rooted, stack, a + b) == Resolve(rooted, Resolve(rooted, stack, a), b)
    decreases |a|
  {
    if a == [] {
      assert a + b == b;
    } else {
      var e := a[0];
      var next :=
        if e == "" || e == "." then stack
        else if e == ".." then
          if |stack| > 0 && stack[|stack| - 1] != ".." then stack[..|stack| - 1]
          else if rooted then stack
          else stack + [".."]
        else stack + [e];
      assert (a + b)[0] == e && (a + b)[1..] == a[1..] + b;
      ResolveConcat(rooted, next, a[1..], b);
    }
  }

  /** The elements of a clean path, resolved onto a stack, are pushed as they are. */
  lemma ResolveRendered(rooted: bool, stack: seq<string>, d: seq<string>)
    requires Canonical(false, true, stack) && Canonical(false, rooted, d) && ".." !in d
    ensures Resolve(true, stack, Split(false, Render('/', rooted, d))) == stack + d
  {
    RenderSplit(false, rooted, d);
    var parts := Split(false, Render('/', rooted, d));
    assert Canonical(false, true, stack + d) by {
      assert forall i :: 0 <= i < |stack + d| ==> (stack + d)[i] != "..";
    }
    if d == [] {
      assert stack + d == stack;
    } else if rooted {
      assert parts[0] == "" && parts[1..] == d;
      ResolveCanonical(false, true, stack, d);
    } else {
      assert parts == d;
      ResolveCanonical(false, true, stack, d);
    }
  }

  /**
   * Joining a clean path free of ".." to a clean absolute root gives the
   * root's elements followed by the path's: the result stays below the root.
   */
  lemma JoinBelowRoot(rs: seq<string>, rooted: bool, d: seq<string>)
    requires Canonical(false, true, rs) && Canonical(false, rooted, d) && ".." !in d
    ensures Join(false, Render('/', true, rs), Render('/', rooted, d)) == Render('/', true, rs + d)
  {
    var root := Render('/', true, rs);
    var t := Render('/', rooted, d);
    var p := root + ['/'] + t;
    SplitConcat(false, root, t);
    assert p[0] == '/';
    ResolveConcat(true, [], Split(false, root), Split(false, t));
    ResolveRendered(true, [], rs);
    ResolveRendered(rooted, rs, d);
    assert Split(false, p) == Split(false, root) + Split(false, t);
    assert [] + rs == rs;
    assert Resolve(true, [], Split(false, p)) == Resolve(true, rs, Split(false, t));
    assert CleanSegments(false, p) == rs + d;
  }

  /** Joining ".." to a clean absolute root climbs out of its last element. */
  lemma JoinParent(rs: seq<string>)
    requires Canonical(false, true, rs) && rs != []
    ensures Join(false, Render('/', true, rs), "..") == Render('/', true, rs[..|rs| - 1])
  {
    var root := Render('/', true, rs);
    var p := root + ['/'] + "..";
    SplitParent(root);
    assert p[0] == '/';
    ResolveConcat(true, [], Split(false, root), [".."]);
    ResolveRendered(true, [], rs);
    assert [] + rs == rs;
    ResolveParent(rs);
  }

  lemma SplitParent(root: string)
    ensures Split(false, root + ['/'] + "..") == Split(false, root) + [".."]
  {
    SplitConcat(false, root, "..");
    SplitJoin(false, [".."]);
  }

  lemma ResolveParent(rs: seq<string>)
    requires rs != [] && rs[|rs| - 1] != ".."
    ensures Resolve(true, rs, [".."]) == rs[..|rs| - 1]
  {
  }
}
