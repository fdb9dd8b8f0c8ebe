/**
 * sanitize: drop a Windows drive label, clean the path lexically, write it
 * with '/' and strip every leading "../".
 */
module Sanitizer {
  import opened FilePath

  /** s begins with the token "../". */
  predicate StartsWithParent(s: string) {
    |s| >= 3 && s[0] == '.' && s[1] == '.' && s[2] == '/'
  }

  /** k copies of "../". */
  function Parents(k: nat): (r: string)
    ensures |r| == 3 * k
    ensures forall i :: 0 <= i < |r| ==> r[i] == (if i % 3 == 2 then '/' else '.')
  {
    if k == 0 then [] else Parents(k - 1) + ['.', '.', '/']
  }

  /** Removes the drive label "X:" on Windows; any other input is returned as is. */
  function StripDrive(windows: bool, name: string): (r: string)
    // what is left is a tail of name: two characters shorter exactly when
    // there is a drive label on Windows, and all of name otherwise
    ensures |r| <= |name| && name[|name| - |r|..] == r
    ensures |r| == |name| - 2 <==> windows && |name| > 1 && name[1] == ':'
    ensures |r| == |name| <==> !(windows && |name| > 1 && name[1] == ':')
  {
    if |name| > 1 && name[1] == ':' && windows then name[2..] else name
  }

  /** Strips leading "../" tokens for as long as there is one. */
  function StripParents(s: string): (r: string)
    ensures !StartsWithParent(r) && |r| <= |s|
    decreases |s|
  {
    if StartsWithParent(s) then StripParents(s[3..]) else s
  }

  /** What StripParents removes is a run of whole "../" tokens and nothing else. */
  lemma {:induction false} StripParentsRemoves(s: string)
    ensures var r := StripParents(s);
      (|s| - |r|) % 3 == 0 && s == Parents((|s| - |r|) / 3) + r
    decreases |s|
  {
    var r := StripParents(s);
    if StartsWithParent(s) {
      StripParentsRemoves(s[3..]);
      var k := (|s| - 3 - |r|) / 3;
      assert s[3..] == Parents(k) + r;
      assert |s| - |r| == 3 * (k + 1);
      assert (|s| - |r|) / 3 == k + 1;
      assert s == ['.', '.', '/'] + s[3..];
      ParentsCons(k);
    } else {
      assert s == Parents(0) + s;
    }
  }

  lemma ParentsCons(k: nat)
    ensures ['.', '.', '/'] + Parents(k) == Parents(k + 1)
  {
  }

  /** What sanitize returns for name. */
  function SanitizedPath(windows: bool, name: string): (r: string)
    // the cleaned, '/'-written name less whole leading "../" tokens, and no more
    ensures var c := ToSlash(windows, Clean(windows, StripDrive(windows, name)));
      !StartsWithParent(r) && |r| <= |c| && (|c| - |r|) % 3 == 0 && c == Parents((|c| - |r|) / 3) + r
  {
    var c := ToSlash(windows, Clean(windows, StripDrive(windows, name)));
    StripParentsRemoves(c);
    StripParents(c)
  }

  /** sanitize, with its loop. */
  method Sanitize(windows: bool, name: string) returns (r: string)
    ensures r == SanitizedPath(windows, name)
    ensures !StartsWithParent(r)
    ensures var c := ToSlash(windows, Clean(windows, StripDrive(windows, name)));
      (|c| - |r|) % 3 == 0 && c == Parents((|c| - |r|) / 3) + r
  {
    var n := name;
    if |n| > 1 && n[1] == ':' && windows {
      n := n[2..];
    }
    n := Clean(windows, n);
    n := ToSlash(windows, n);
    ghost var cleaned := n;
    while StartsWithParent(n)
      invariant StripParents(n) == StripParents(cleaned)
      decreases |n|
    {
      n := n[3..];
    }
    r := n;
    StripParentsRemoves(cleaned);
  }

  /** The elements of sanitize's result: Clean's, less a leading run of "..". */
  function DropParents(segs: seq<string>): seq<string> {
    if |segs| >= 2 && segs[0] == ".." then DropParents(segs[1..]) else segs
  }

  function SanitizedSegments(windows: bool, name: string): seq<string> {
    DropParents(CleanSegments(windows, StripDrive(windows, name)))
  }

  /**
   * Dropping the leading ".." run keeps a path canonical and leaves no ".."
   * at all, unless the whole path was ".." elements; then one stays.
   */
  lemma {:induction false} DropParentsShape(windows: bool, rooted: bool, d: seq<string>)
    requires Canonical(windows, rooted, d)
    ensures Canonical(windows, rooted, DropParents(d))
    ensures DropParents(d) == [".."] || ".." !in DropParents(d)
    ensures rooted ==> DropParents(d) == d
  {
    if |d| >= 2 && d[0] == ".." {
      assert Canonical(windows, rooted, d[1..]) by {
        forall i, j | 0 <= i < j < |d[1..]| && d[1..][j] == ".." ensures d[1..][i] == ".." {
          assert d[i + 1] == d[1..][i] && d[j + 1] == d[1..][j];
        }
      }
      DropParentsShape(windows, rooted, d[1..]);
    } else if |d| >= 2 {
      assert forall j :: 0 < j < |d| ==> d[j] != "..";
    }
  }

  /** Stripping "../" from a relative canonical path drops its leading ".." elements. */
  lemma {:induction false} StripRender(windows: bool, d: seq<string>)
    requires Canonical(windows, false, d)
    ensures StripParents(Render('/', false, d)) == Render('/', false, DropParents(d))
  {
    if |d| >= 2 {
      var tail := JoinSegs(d[1..], '/');
      var s := Render('/', false, d);
      assert s == d[0] + ['/'] + tail;
      assert NoSep(windows, d[0]) && d[0] != "" && d[0] != ".";
      if d[0] == ".." {
        assert StartsWithParent(s) && s[3..] == tail;
        assert Canonical(windows, false, d[1..]) by {
          forall i, j | 0 <= i < j < |d[1..]| && d[1..][j] == ".." ensures d[1..][i] == ".." {
            assert d[i + 1] == d[1..][i] && d[j + 1] == d[1..][j];
          }
        }
        StripRender(windows, d[1..]);
      } else {
        if |d[0]| >= 3 {
          assert s[2] == d[0][2] != '/';
        } else if |d[0]| == 1 {
          assert s[1] == '/';
        } else {
          assert s[..2] == d[0];
        }
      }
    } else if |d| == 1 {
      assert NoSep(windows, d[0]);
      assert !StartsWithParent(d[0]) by {
        if |d[0]| >= 3 {
          assert d[0][2] != '/';
        }
      }
    }
  }

  /**
   * The shape of sanitize's result: the '/'-rendering of canonical elements
   * that hold no ".." unless the result is "..", rooted exactly when the
   * path after the drive label is.
   */
  lemma SanitizedShape(windows: bool, name: string)
    ensures var p := StripDrive(windows, name);
      var d := SanitizedSegments(windows, name);
      SanitizedPath(windows, name) == Render('/', IsRooted(windows, p), d)
      && Canonical(windows, IsRooted(windows, p), d)
      && (d == [".."] || ".." !in d)
  {
    var p := StripDrive(windows, name);
    var rooted := IsRooted(windows, p);
    var c := CleanSegments(windows, p);
    ToSlashClean(windows, p);
    DropParentsShape(windows, rooted, c);
    if rooted {
      var s := Render('/', true, c);
      assert s[0] == '/';
      assert !StartsWithParent(s);
    } else {
      StripRender(windows, c);
    }
  }

  /**
   * What a reader of the result sees: its '/'-separated elements are the
   * sanitized segments after an empty one for the root, so the result has no
   * empty (doubled or trailing '/') or "." element and no ".." element unless
   * it is "..", and it starts with '/' exactly when the input, less its drive
   * label, is absolute.
   */
  lemma SanitizedElements(windows: bool, name: string)
    ensures var r := SanitizedPath(windows, name);
      var rooted := IsRooted(windows, StripDrive(windows, name));
      var d := SanitizedSegments(windows, name);
      r != ""
      && (r[0] == '/' <==> rooted)
      && Split(false, r) ==
        (if d == [] then (if rooted then ["", ""] else ["."])
         else (if rooted then [""] else []) + d)
  {
    var rooted := IsRooted(windows, StripDrive(windows, name));
    var d := SanitizedSegments(windows, name);
    SanitizedShape(windows, name);
    assert Canonical(false, rooted, d);
    RenderSplit(false, rooted, d);
    RenderRooted(false, rooted, d);
  }

  /**
   * Cleaning comes first: "a/../../" before a relative path free of ".."
   * collapses to "../" and that is stripped, leaving the path.
   */
  lemma CleanThenStrip(a: string, t: seq<string>)
    requires a != "" && a != "." && a != ".." && NoSep(false, a)
    requires t != [] && Canonical(false, true, t)
    ensures SanitizedPath(false, a + "/../../" + JoinSegs(t, '/')) == JoinSegs(t, '/')
  {
    var j := JoinSegs(t, '/');
    var parts := [a, "..", ".."] + t;
    var p := a + "/../../" + j;
    ClimbJoin(a, t);
    SplitJoin(false, parts);
    assert !IsRooted(false, p);
    ClimbResolve(a, t);
    ResolveCanonical(false, false, [".."], t);
    assert CleanSegments(false, p) == [".."] + t;
    assert DropParents([".."] + t) == t by {
      assert ([".."] + t)[1..] == t;
      if |t| >= 2 {
        assert t[0] != "..";
      }
    }
    SanitizedShape(false, p);
  }

  lemma ClimbJoin(a: string, t: seq<string>)
    requires t != []
    ensures JoinSegs([a, "..", ".."] + t, '/') == a + "/../../" + JoinSegs(t, '/')
  {
    var j := JoinSegs(t, '/');
    var parts := [a, "..", ".."] + t;
    assert parts[1..] == ["..", ".."] + t && parts[2..] == [".."] + t && parts[3..] == t;
    assert JoinSegs(parts[2..], '/') == ".." + ['/'] + j;
    assert JoinSegs(parts[1..], '/') == ".." + ['/'] + (".." + ['/'] + j);
    assert a + ['/'] + (".." + ['/'] + (".." + ['/'] + j)) == a + "/../../" + j;
  }

  lemma ClimbResolve(a: string, t: seq<string>)
    requires a != "" && a != "." && a != ".."
    ensures Resolve(false, [], [a, "..", ".."] + t) == Resolve(false, [".."], t)
  {
    var parts := [a, "..", ".."] + t;
    assert parts[1..] == ["..", ".."] + t && parts[2..] == [".."] + t && parts[3..] == t;
    assert Resolve(false, [], parts) == Resolve(false, [a], parts[1..]);
    assert Resolve(false, [a], parts[1..]) == Resolve(false, [], parts[2..]);
    assert parts[2..][0] == ".." && parts[2..][1..] == parts[3..];
    assert Resolve(false, [], parts[2..]) == Resolve(false, [] + [".."], parts[3..]);
    assert [] + [".."] == [".."];
  }

  /** For instance, "a/../../etc/passwd" becomes "etc/passwd". */
  lemma CleanThenStripExample()
    ensures SanitizedPath(false, "a/../../etc/passwd") == "etc/passwd"
  {
    var t := ["etc", "passwd"];
    assert JoinSegs(t, '/') == "etc/passwd";
    assert "a" + "/../../" + "etc/passwd" == "a/../../etc/passwd";
    CleanThenStrip("a", t);
  }

  /**
   * On Windows a drive label "X:" is dropped, once, before anything else
   * happens: whatever follows it goes to Clean as it is.
   */
  lemma DriveLabelDropped(drive: char, p: string)
    ensures SanitizedPath(true, [drive, ':'] + p) == StripParents(ToSlash(true, Clean(true, p)))
  {
    assert ([drive, ':'] + p)[2..] == p;
  }

  /** On Windows a name whose second character is not ':' goes to Clean unchanged. */
  lemma NoDriveLabelKept(name: string)
    requires !(|name| > 1 && name[1] == ':')
    ensures SanitizedPath(true, name) == StripParents(ToSlash(true, Clean(true, name)))
  {
  }

  /** Elsewhere the name goes to Clean unchanged, drive-like prefix and all. */
  lemma NoDriveLabelOffWindows(name: string)
    ensures SanitizedPath(false, name) == StripParents(Clean(false, name))
  {
  }

  /** On Unix, sanitize changes nothing in a path it has already sanitized. */
  lemma SanitizeIdempotent(name: string)
    ensures SanitizedPath(false, SanitizedPath(false, name)) == SanitizedPath(false, name)
  {
    var r := SanitizedPath(false, name);
    SanitizedShape(false, name);
    CleanRender(false, IsRooted(false, StripDrive(false, name)), SanitizedSegments(false, name));
    assert Clean(false, r) == r;
  }

  /** The one ".." that survives: ".." is returned as "..". */
  lemma ParentSurvives()
    ensures SanitizedPath(false, "..") == ".."
  {
  }

  /**
   * sanitize lets ".." through: the loop strips only "../", and Clean writes a
   * path of nothing but ".." elements with a final ".." and no trailing '/'.
   * Joined to a root, that result names the root's parent.
   */
  lemma SanitizedParentLeavesRoot()
    ensures SanitizedPath(false, "../..") == ".."
    ensures Join(false, "/srv", SanitizedPath(false, "../..")) == "/"
  {
    ParentsStayClean();
    assert StripParents("../..") == "..";
    ParentOfSrv();
  }

  lemma ParentsStayClean()
    ensures Clean(false, "../..") == "../.."
  {
    var parts := ["..", ".."];
    assert JoinSegs(parts, '/') == "../..";
    SplitJoin(false, parts);
    assert Resolve(false, [], parts) == parts;
  }

  lemma ParentOfSrv()
    ensures Join(false, "/srv", "..") == "/"
  {
    assert Render('/', true, ["srv"]) == "/srv";
    JoinParent(["srv"]);
    assert ["srv"][..0] == [];
  }

  /**
   * sanitize with the bare ".." it leaves behind also removed: the result is
   * then "." (the empty relative path, as Clean writes it).
   */
  function SafeSanitizedPath(windows: bool, name: string): (r: string)
    ensures !StartsWithParent(r) && r != ".."
  {
    var s := SanitizedPath(windows, name);
    if s == ".." then "." else s
  }

  /** The elements of SafeSanitizedPath: the sanitized ones, less a lone "..". */
  function SafeSegments(windows: bool, name: string): seq<string> {
    var d := SanitizedSegments(windows, name);
    if d == [".."] then [] else d
  }

  /** The corrected result is canonical, free of "..", and written from SafeSegments. */
  lemma SafeShape(windows: bool, name: string)
    ensures var rooted := IsRooted(windows, StripDrive(windows, name));
      var d := SafeSegments(windows, name);
      SafeSanitizedPath(windows, name) == Render('/', rooted, d)
      && Canonical(windows, rooted, d) && ".." !in d
  {
    var rooted := IsRooted(windows, StripDrive(windows, name));
    var d := SanitizedSegments(windows, name);
    SanitizedShape(windows, name);
    if d == [".."] {
      assert !rooted;
      assert Render('/', false, d) == "..";
    } else {
      assert ".." !in d;
      NotParentRender(windows, rooted, d);
    }
  }

  /** A canonical path free of ".." is not written "..". */
  lemma NotParentRender(windows: bool, rooted: bool, d: seq<string>)
    requires Canonical(windows, rooted, d) && ".." !in d
    ensures Render('/', rooted, d) != ".."
  {
    if !rooted && |d| >= 2 {
      JoinSegsHead(d[1..], '/');
      assert |Render('/', rooted, d)| >= 3;
    } else if !rooted && |d| == 1 {
      assert Render('/', rooted, d) == d[0] && d[0] in d;
    } else if rooted {
      assert Render('/', rooted, d)[0] == '/';
    }
  }

  /**
   * The property sanitize is there for, for the corrected version: on Unix,
   * joined to a clean absolute root, the result is the root's elements
   * followed by elements none of which is "..", so it never leaves the root.
   */
  lemma SafeJoinStaysBelowRoot(rs: seq<string>, name: string)
    requires Canonical(false, true, rs)
    ensures var d := SafeSegments(false, name);
      ".." !in d && Join(false, Render('/', true, rs), SafeSanitizedPath(false, name)) == Render('/', true, rs + d)
  {
    var rooted := IsRooted(false, StripDrive(false, name));
    var d := SafeSegments(false, name);
    SafeShape(false, name);
    JoinBelowRoot(rs, rooted, d);
  }
}
