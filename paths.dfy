/**
 * Paths as the router sees them: `strings.Split(path, "/")`, the segments
 * after the leading slash, and `validatePath`.
 */
module Paths {
  import opened Wrappers
  import opened RouteKinds

  /** `strings.Split(s, "/")`: the pieces between the slashes, in order. */
  function Split(s: string): (r: seq<string>)
    ensures |r| >= 1
    ensures forall k :: 0 <= k < |r| ==> '/' !in r[k]
  {
    if s == [] then [""]
    else if s[0] == '/' then [""] + Split(s[1..])
    else
      var rest := Split(s[1..]);
      [[s[0]] + rest[0]] + rest[1..]
  }

  /** `strings.Join(parts, "/")`, the inverse of Split. */
  function Join(parts: seq<string>): string
    requires |parts| >= 1
  {
    if |parts| == 1 then parts[0] else parts[0] + "/" + Join(parts[1..])
  }

  /** The segments a router walks: `segs[1:]` of the split path. */
  function Segs(path: string): seq<string>
  {
    Split(path)[1..]
  }

  /** Splitting and joining again gives back the path. */
  lemma {:induction false} JoinSplit(s: string)
    ensures Join(Split(s)) == s
  {
    if s == [] {
    } else if s[0] == '/' {
      JoinSplit(s[1..]);
      assert s == "/" + s[1..];
    } else {
      JoinSplit(s[1..]);
      var rest := Split(s[1..]);
      if |rest| == 1 {
        assert Split(s) == [[s[0]] + rest[0]];
      } else {
        assert Split(s)[1..] == rest[1..];
        assert Join(Split(s)) == [s[0]] + rest[0] + "/" + Join(rest[1..]);
      }
    }
  }

  /** A piece without a slash splits to itself. */
  lemma {:induction false} SplitPlain(p: string)
    requires '/' !in p
    ensures Split(p) == [p]
  {
    if p != [] {
      assert '/' !in p[1..] by {
        forall k | 0 <= k < |p[1..]| ensures p[1..][k] != '/' { assert p[1..][k] == p[k + 1]; }
      }
      SplitPlain(p[1..]);
      assert p[0] != '/';
      assert [p[0]] + p[1..] == p;
    }
  }

  /** Splitting a slash-free piece followed by "/" and more. */
  lemma {:induction false} SplitCons(p: string, rest: string)
    requires '/' !in p
    ensures Split(p + "/" + rest) == [p] + Split(rest)
  {
    if p == [] {
      assert p + "/" + rest == "/" + rest;
    } else {
      assert '/' !in p[1..] by {
        forall k | 0 <= k < |p[1..]| ensures p[1..][k] != '/' { assert p[1..][k] == p[k + 1]; }
      }
      SplitCons(p[1..], rest);
      assert (p + "/" + rest)[1..] == p[1..] + "/" + rest;
      assert [p[0]] + p[1..] == p;
    }
  }

  /** Joining slash-free pieces and splitting again gives back the pieces. */
  lemma {:induction false} SplitJoin(parts: seq<string>)
    requires |parts| >= 1
    requires forall k :: 0 <= k < |parts| ==> '/' !in parts[k]
    ensures Split(Join(parts)) == parts
  {
    if |parts| == 1 {
      SplitPlain(parts[0]);
    } else {
      SplitJoin(parts[1..]);
      SplitCons(parts[0], Join(parts[1..]));
      assert [parts[0]] + parts[1..] == parts;
    }
  }

  /** Two slashes in a row somewhere in `s`. */
  predicate DoubleSlash(s: string)
  {
    exists i :: 0 <= i < |s| - 1 && s[i] == '/' && s[i + 1] == '/'
  }

  /** The first piece is empty exactly when `s` is empty or starts with a slash. */
  lemma {:induction false} SplitFirstEmpty(s: string)
    ensures Split(s)[0] == "" <==> (s == [] || s[0] == '/')
  {
  }

  /** The last piece is empty exactly when `s` is empty or ends with a slash. */
  lemma {:induction false} SplitLastEmpty(s: string)
    ensures Split(s)[|Split(s)| - 1] == "" <==> (s == [] || s[|s| - 1] == '/')
  {
    if s != [] {
      SplitLastEmpty(s[1..]);
      var rest := Split(s[1..]);
      if s[0] != '/' && |rest| == 1 {
        assert Split(s) == [[s[0]] + rest[0]];
      }
    }
  }

  /**
   * An empty piece other than the first appears exactly when `s` ends with
   * a slash or holds two slashes in a row.
   */
  lemma {:induction false} SplitInnerEmpty(s: string)
    ensures "" in Split(s)[1..] <==> (s != [] && s[|s| - 1] == '/') || DoubleSlash(s)
  {
    if s != [] {
      var t := s[1..];
      SplitInnerEmpty(t);
      SplitFirstEmpty(t);
      DoubleSlashCons(s);
      var rest := Split(t);
      assert rest == [rest[0]] + rest[1..];
      if s[0] == '/' {
        assert Split(s)[1..] == rest;
      } else {
        assert Split(s)[1..] == rest[1..];
      }
    }
  }

  /** Two slashes in a row are at the front of `s` or in its tail. */
  lemma DoubleSlashCons(s: string)
    requires s != []
    ensures DoubleSlash(s) <==> DoubleSlash(s[1..]) || (|s| >= 2 && s[0] == '/' && s[1] == '/')
  {
    var t := s[1..];
    if DoubleSlash(s) {
      var i :| 0 <= i < |s| - 1 && s[i] == '/' && s[i + 1] == '/';
      if i > 0 { assert t[i - 1] == '/' && t[i] == '/'; }
    }
    if DoubleSlash(t) {
      var i :| 0 <= i < |t| - 1 && t[i] == '/' && t[i + 1] == '/';
      assert s[i + 1] == '/' && s[i + 2] == '/';
    }
  }

  /** The index of the first empty segment, or `|segs|` when there is none. */
  function FirstEmpty(segs: seq<string>): (k: nat)
    ensures k <= |segs| && "" !in segs[..k]
    ensures k < |segs| ==> segs[k] == ""
    ensures "" in segs ==> k < |segs|
  {
    if segs == [] then 0
    else if segs[0] == "" then 0
    else
      var k := FirstEmpty(segs[1..]);
      assert segs[..k + 1] == [segs[0]] + segs[1..][..k];
      assert segs == [segs[0]] + segs[1..];
      k + 1
  }

  /** `validatePath`: the checks made before a route is inserted, in order. */
  function ValidatePath(path: string): Option<RouteError>
  {
    if path == "" then Some(EmptyPath)
    else if path[0] != '/' then Some(NoLeadingSlash)
    else if |path| > 1 && path[|path| - 1] == '/' then Some(TrailingSlash)
    else None
  }

  /**
   * A path passes validation exactly when its split starts with the empty
   * piece before the leading slash and has at least one more piece, and the
   * last piece is non-empty unless the path is the root "/".
   */
  lemma ValidPathPieces(path: string)
    ensures ValidatePath(path).None? <==>
      var p := Split(path);
      |p| >= 2 && p[0] == "" && (path == "/" || p[|p| - 1] != "")
  {
    SplitFirstEmpty(path);
    SplitLastEmpty(path);
    if path != [] && path[0] == '/' {
      assert Split(path) == [""] + Split(path[1..]);
    }
  }

  /**
   * For a path that passes validation, other than "/", some segment is
   * empty exactly when the path holds "//": the condition addRoute rejects
   * segment by segment.
   */
  lemma ValidPathEmptySegment(path: string)
    requires ValidatePath(path).None? && path != "/"
    ensures "" in Segs(path) <==> DoubleSlash(path)
  {
    SplitInnerEmpty(path);
  }

  /**
   * The path cases of the router tests: the three rejections, and two paths
   * holding "//" that pass validation and then meet an empty segment.
   */
  lemma ValidatePathCases()
    ensures ValidatePath("") == Some(EmptyPath)
    ensures ValidatePath("a/b/c") == Some(NoLeadingSlash)
    ensures ValidatePath("/a/b/c/") == Some(TrailingSlash)
    ensures ValidatePath("/") == None && ValidatePath("/a/b/c") == None
    ensures ValidatePath("/a//b") == None && "" in Segs("/a//b")
    ensures ValidatePath("//a/b") == None && "" in Segs("//a/b")
  {
    ValidPathEmptySegment("/a//b");
    ValidPathEmptySegment("//a/b");
    assert DoubleSlash("/a//b") by { assert "/a//b"[2] == '/' && "/a//b"[3] == '/'; }
    assert DoubleSlash("//a/b") by { assert "//a/b"[0] == '/' && "//a/b"[1] == '/'; }
  }

  /** The segments of "/a//b", a "//" path of the router tests. */
  lemma InnerDoubleSlashSegs()
    ensures Segs("/a//b") == ["a", "", "b"]
  {
    SplitPlain("b");
    SplitCons("", "b");
    SplitCons("a", "/b");
    SplitCons("", "a//b");
    assert "/a//b" == "" + "/" + "a//b" && "a//b" == "a" + "/" + "/b" && "/b" == "" + "/" + "b";
  }

  /** The segments of "//a/b", the other "//" path of the router tests. */
  lemma LeadingDoubleSlashSegs()
    ensures Segs("//a/b") == ["", "a", "b"]
  {
    SplitPlain("b");
    SplitCons("a", "b");
    SplitCons("", "a/b");
    SplitCons("", "/a/b");
    assert "//a/b" == "" + "/" + "/a/b" && "/a/b" == "" + "/" + "a/b" && "a/b" == "a" + "/" + "b";
  }

  /** The root path splits into two empty pieces, hence its special case. */
  lemma RootSegs()
    ensures Segs("/") == [""]
  {
    assert "/"[1..] == [];
  }
}
