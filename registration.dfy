/**
 * What registration promises: the conflict rules of `childOrCreate`, the
 * idempotence of inserting the same segments again, the duplicate-handler
 * rule of `addRoute`, and how middleware accumulates.
 */
module Registration {
  import opened Wrappers
  import opened RouteKinds
  import opened Tokens
  import opened Paths
  import opened RouteTrie

  /**
   * `childOrCreate` fails exactly when a special child of another kind is
   * already present, or the param child exists with another token; static
   * segments never fail.
   */
  lemma ChildOrCreateFails<H, M>(t: Trie<H, M>, n: nat, seg: string)
    requires WellFormed(t) && n < |t.nodes| && seg != ""
    ensures var x := t.nodes[n];
      var r := ChildOrCreate(t, n, seg);
      match Classify(seg)
      case StarTok =>
        && (x.regChild.Some? ==> r == Err(KindConflict(Reg, Any)))
        && (x.paramChild.Some? ==> r == Err(KindConflict(Param, Any)))
        && (r.Err? ==> x.regChild.Some? || x.paramChild.Some?)
      case RegTok(_) =>
        && (x.starChild.Some? ==> r == Err(KindConflict(Any, Reg)))
        && (x.paramChild.Some? ==> r == Err(KindConflict(Param, Reg)))
        && (r.Err? ==> x.starChild.Some? || x.paramChild.Some?)
      case ParamTok(_) =>
        && (x.starChild.Some? ==> r == Err(KindConflict(Any, Param)))
        && (x.regChild.Some? ==> r == Err(KindConflict(Reg, Param)))
        && (x.paramChild.Some? && t.nodes[x.paramChild.value].path != seg ==>
              r == Err(ParamNameConflict(t.nodes[x.paramChild.value].path, seg)))
        && (r.Err? ==>
              x.starChild.Some? || x.regChild.Some? ||
              (x.paramChild.Some? && t.nodes[x.paramChild.value].path != seg))
      case StaticTok => r.Ok?
  {
    assert NodeOk(t.nodes, t.nodes[n]);
  }

  /**
   * An existing child for the same kind of token is returned and nothing is
   * created: a static child for its segment, the star child, the param child
   * for its own token, and the regex child for ANY regex token, even one
   * with another name or pattern.
   */
  lemma ChildOrCreateReuses<H, M>(t: Trie<H, M>, n: nat, seg: string)
    requires WellFormed(t) && n < |t.nodes| && seg != ""
    ensures var x := t.nodes[n];
      var r := ChildOrCreate(t, n, seg);
      && (seg in x.children ==> r == Ok((t, x.children[seg])))
      && (seg == "*" && x.starChild.Some? ==> r == Ok((t, x.starChild.value)))
      && (Classify(seg).RegTok? && x.regChild.Some? ==> r == Ok((t, x.regChild.value)))
      && (x.paramChild.Some? && t.nodes[x.paramChild.value].path == seg ==>
            r == Ok((t, x.paramChild.value)))
  {
    var x := t.nodes[n];
    assert NodeOk(t.nodes, x);
    if x.paramChild.Some? && t.nodes[x.paramChild.value].path == seg {
      assert NodeOk(t.nodes, t.nodes[x.paramChild.value]);
    }
  }

  /**
   * The child `childOrCreate` hands back, found or created, hangs from the
   * slot the segment's kind selects; a parameter child carries the segment.
   */
  lemma ChildOrCreateSlot<H, M>(t: Trie<H, M>, n: nat, seg: string)
    requires WellFormed(t) && n < |t.nodes| && seg != ""
    requires ChildOrCreate(t, n, seg).Ok?
    ensures var (u, c) := ChildOrCreate(t, n, seg).value;
      var y := u.nodes[n];
      match Classify(seg)
      case StarTok => y.starChild == Some(c)
      case RegTok(_) => y.regChild == Some(c)
      case ParamTok(_) => y.paramChild == Some(c) && u.nodes[c].path == seg
      case StaticTok => seg in y.children && y.children[seg] == c
  {
    var (u, c) := ChildOrCreate(t, n, seg).value;
    if u != t {
      match Classify(seg)
      case StarTok =>
        assert u == Grow(t, n, Any, seg, "") && c == |t.nodes|;
      case RegTok(name) =>
        assert u == Grow(t, n, Reg, seg, name) && c == |t.nodes|;
      case ParamTok(name) =>
        assert u == Grow(t, n, Param, seg, name) && c == |t.nodes|;
      case StaticTok =>
        assert u == Grow(t, n, Static, seg, "") && c == |t.nodes|;
    }
  }

  /** A second `childOrCreate` with the same segment returns the same node and creates nothing. */
  lemma ChildOrCreateIdempotent<H, M>(t: Trie<H, M>, n: nat, seg: string)
    requires WellFormed(t) && n < |t.nodes| && seg != ""
    requires ChildOrCreate(t, n, seg).Ok?
    ensures var (u, c) := ChildOrCreate(t, n, seg).value;
      ChildOrCreate(u, n, seg) == Ok((u, c))
  {
    var (u, c) := ChildOrCreate(t, n, seg).value;
    ChildOrCreateSlot(t, n, seg);
    ChildOrCreateReuses(u, n, seg);
  }

  /**
   * A child that is already there stays reachable the same way however the
   * trie grows afterwards: growth never removes a child, and the exclusion
   * rule keeps any conflicting special child from appearing beside it.
   */
  lemma ChildOrCreateHitPersists<H, M>(t: Trie<H, M>, u: Trie<H, M>, n: nat, seg: string, c: nat)
    requires WellFormed(t) && WellFormed(u) && Grows(t, u) && n < |t.nodes| && seg != ""
    requires ChildOrCreate(t, n, seg) == Ok((t, c))
    ensures ChildOrCreate(u, n, seg) == Ok((u, c))
  {
    var x, y := t.nodes[n], u.nodes[n];
    assert NodeGrows(x, y);
    assert NodeOk(u.nodes, y);
    assert NodeOk(t.nodes, x);
    match Classify(seg)
    case ParamTok(_) =>
      assert NodeGrows(t.nodes[c], u.nodes[c]);
    case _ =>
  }

  /**
   * Walking segments that are all present changes nothing, and keeps doing
   * so in every larger trie.
   */
  lemma {:induction false} InsertSegsPersists<H, M>(t: Trie<H, M>, u: Trie<H, M>, n: nat, segs: seq<string>, c: nat)
    requires WellFormed(t) && WellFormed(u) && Grows(t, u) && n < |t.nodes|
    requires InsertSegs(t, n, segs) == Walked(t, c, None)
    ensures InsertSegs(u, n, segs) == Walked(u, c, None)
    decreases |segs|
  {
    if segs != [] {
      var (t1, c1) := ChildOrCreate(t, n, segs[0]).value;
      var w := InsertSegs(t1, c1, segs[1..]);
      assert |t1.nodes| <= |w.trie.nodes|;
      assert t1 == t;
      ChildOrCreateHitPersists(t, u, n, segs[0], c1);
      InsertSegsPersists(t, u, c1, segs[1..], c);
    }
  }

  /** Inserting the same segments a second time returns the same node and creates nothing. */
  lemma {:induction false} InsertSegsIdempotent<H, M>(t: Trie<H, M>, n: nat, segs: seq<string>)
    requires WellFormed(t) && n < |t.nodes|
    requires InsertSegs(t, n, segs).err.None?
    ensures var w := InsertSegs(t, n, segs);
      InsertSegs(w.trie, n, segs) == Walked(w.trie, w.node, None)
    decreases |segs|
  {
    var w := InsertSegs(t, n, segs);
    if segs != [] {
      var (t1, c1) := ChildOrCreate(t, n, segs[0]).value;
      InsertSegsIdempotent(t1, c1, segs[1..]);
      ChildOrCreateIdempotent(t, n, segs[0]);
      ChildOrCreateHitPersists(t1, w.trie, n, segs[0], c1);
    }
  }

  /**
   * Inserting segments fails whenever one of them is empty: with EmptySegment
   * when the segments before the first empty one insert cleanly, and
   * otherwise with the conflict met among those earlier segments.
   */
  lemma InsertSegsEmptySegment<H, M>(t: Trie<H, M>, n: nat, segs: seq<string>)
    requires WellFormed(t) && n < |t.nodes|
    requires "" in segs
    ensures InsertSegs(t, n, segs).err.Some?
    ensures InsertSegs(t, n, segs).err.value != DuplicateRoute
    ensures var before := InsertSegs(t, n, segs[..FirstEmpty(segs)]).err;
      InsertSegs(t, n, segs).err == if before.None? then Some(EmptySegment) else before
  {
    InsertSegsFirstEmpty(t, n, segs);
    InsertSegsNoDuplicate(t, n, segs);
  }

  /** The induction behind `InsertSegsEmptySegment`, over the segments before the first empty one. */
  lemma {:induction false} InsertSegsFirstEmpty<H, M>(t: Trie<H, M>, n: nat, segs: seq<string>)
    requires WellFormed(t) && n < |t.nodes|
    requires "" in segs
    ensures var before := InsertSegs(t, n, segs[..FirstEmpty(segs)]).err;
      InsertSegs(t, n, segs).err == if before.None? then Some(EmptySegment) else before
    decreases |segs|
  {
    var k := FirstEmpty(segs);
    if segs[0] != "" {
      assert "" in segs[1..];
      assert k == FirstEmpty(segs[1..]) + 1;
      var pre := segs[..k];
      assert pre != [] && pre[0] == segs[0] && pre[1..] == segs[1..][..k - 1];
      match ChildOrCreate(t, n, segs[0])
      case Err(e) =>
        assert InsertSegs(t, n, pre) == Walked(t, n, Some(e));
      case Ok((t1, c1)) =>
        InsertSegsFirstEmpty(t1, c1, segs[1..]);
        assert InsertSegs(t, n, segs) == InsertSegs(t1, c1, segs[1..]);
        assert InsertSegs(t, n, pre) == InsertSegs(t1, c1, pre[1..]);
    }
  }

  /** The segment walk never reports a duplicate route: only a handler can. */
  lemma {:induction false} InsertSegsNoDuplicate<H, M>(t: Trie<H, M>, n: nat, segs: seq<string>)
    requires WellFormed(t) && n < |t.nodes|
    ensures InsertSegs(t, n, segs).err != Some(DuplicateRoute)
    decreases |segs|
  {
    if segs != [] && segs[0] != "" {
      match ChildOrCreate(t, n, segs[0])
      case Err(_) =>
      case Ok((t1, c1)) => InsertSegsNoDuplicate(t1, c1, segs[1..]);
    }
  }

  /** Handler and middleware of node `i` of `t`, with nothing for a node `t` does not have yet. */
  function HandlerAt<H, M>(t: Trie<H, M>, i: nat): Option<H>
  {
    if i < |t.nodes| then t.nodes[i].handler else None
  }

  function MdlsAt<H, M>(t: Trie<H, M>, i: nat): seq<M>
  {
    if i < |t.nodes| then t.nodes[i].mdls else []
  }

  /** `u` holds the handlers and middleware of `t`, and none on the nodes it added. */
  ghost predicate BindingsKept<H, M>(t: Trie<H, M>, u: Trie<H, M>)
  {
    forall i :: 0 <= i < |u.nodes| ==> u.nodes[i].handler == HandlerAt(t, i) && u.nodes[i].mdls == MdlsAt(t, i)
  }

  lemma BindingsKeptTrans<H, M>(t: Trie<H, M>, u: Trie<H, M>, v: Trie<H, M>)
    requires |t.nodes| <= |u.nodes| && BindingsKept(t, u) && BindingsKept(u, v)
    ensures BindingsKept(t, v)
  {
    forall i | 0 <= i < |v.nodes|
      ensures v.nodes[i].handler == HandlerAt(t, i) && v.nodes[i].mdls == MdlsAt(t, i)
    {
      assert v.nodes[i].handler == HandlerAt(u, i) && v.nodes[i].mdls == MdlsAt(u, i);
    }
  }

  lemma GrowKeepsBindings<H, M>(t: Trie<H, M>, n: nat, kind: NodeType, seg: string, name: string)
    requires n < |t.nodes|
    ensures BindingsKept(t, Grow(t, n, kind, seg, name))
  {
    var u := Grow(t, n, kind, seg, name);
    forall i | 0 <= i < |u.nodes|
      ensures u.nodes[i].handler == HandlerAt(t, i) && u.nodes[i].mdls == MdlsAt(t, i)
    {
      if i == n {
        assert u.nodes[i] == WithChild(t.nodes[n], kind, seg, |t.nodes|);
      }
    }
  }

  /** `childOrCreate` sets no handler and attaches no middleware. */
  lemma ChildOrCreateKeepsBindings<H, M>(t: Trie<H, M>, n: nat, seg: string)
    requires WellFormed(t) && n < |t.nodes| && seg != ""
    requires ChildOrCreate(t, n, seg).Ok?
    ensures BindingsKept(t, ChildOrCreate(t, n, seg).value.0)
  {
    var u := ChildOrCreate(t, n, seg).value.0;
    if u != t {
      match Classify(seg)
      case StarTok =>
        assert u == Grow(t, n, Any, seg, "");
        GrowKeepsBindings(t, n, Any, seg, "");
      case RegTok(name) =>
        assert u == Grow(t, n, Reg, seg, name);
        GrowKeepsBindings(t, n, Reg, seg, name);
      case ParamTok(name) =>
        assert u == Grow(t, n, Param, seg, name);
        GrowKeepsBindings(t, n, Param, seg, name);
      case StaticTok =>
        assert u == Grow(t, n, Static, seg, "");
        GrowKeepsBindings(t, n, Static, seg, "");
    }
  }

  /** The segment walk sets no handler and attaches no middleware. */
  lemma {:induction false} InsertSegsKeepsBindings<H, M>(t: Trie<H, M>, n: nat, segs: seq<string>)
    requires WellFormed(t) && n < |t.nodes|
    ensures BindingsKept(t, InsertSegs(t, n, segs).trie)
    decreases |segs|
  {
    if segs != [] && segs[0] != "" {
      match ChildOrCreate(t, n, segs[0])
      case Err(_) =>
      case Ok((t1, c1)) =>
        InsertSegsKeepsBindings(t1, c1, segs[1..]);
        ChildOrCreateKeepsBindings(t, n, segs[0]);
        BindingsKeptTrans(t, t1, InsertSegs(t1, c1, segs[1..]).trie);
    }
  }

  /** The node a registration of `path` for `verb` ends at. */
  function Target<H, M>(t: Trie<H, M>, verb: string, path: string): nat
    requires WellFormed(t)
  {
    var (t1, root) := RootFor(t, verb);
    if path == "/" then root else InsertSegs(t1, root, Segs(path)).node
  }

  /** A path that fails validation changes nothing. */
  lemma RegisterInvalidPath<H, M>(t: Trie<H, M>, verb: string, path: string, handler: Option<H>, mdls: seq<M>)
    requires WellFormed(t) && ValidatePath(path).Some?
    ensures Register(t, verb, path, handler, mdls) == Outcome(t, ValidatePath(path))
  {
  }

  /**
   * A valid path with an empty segment ("//") fails, and the failure is not
   * atomic: the method's root exists afterwards even if it did not before.
   * The error is EmptySegment when the segments before the first empty one
   * insert cleanly, and otherwise the conflict met among them.
   */
  lemma RegisterEmptySegment<H, M>(t: Trie<H, M>, verb: string, path: string, handler: Option<H>, mdls: seq<M>)
    requires WellFormed(t) && ValidatePath(path).None? && path != "/"
    requires DoubleSlash(path)
    ensures var o := Register(t, verb, path, handler, mdls);
      o.err.Some? && o.err.value != DuplicateRoute && verb in o.trie.trees
    ensures var (t1, root) := RootFor(t, verb);
      var segs := Segs(path);
      var before := InsertSegs(t1, root, segs[..FirstEmpty(segs)]).err;
      Register(t, verb, path, handler, mdls).err == if before.None? then Some(EmptySegment) else before
  {
    ValidPathEmptySegment(path);
    var (t1, root) := RootFor(t, verb);
    InsertSegsEmptySegment(t1, root, Segs(path));
  }

  /**
   * The "//" cases of the router tests: "/a//b" and "//a/b" fail with
   * EmptySegment on a new router.
   */
  lemma RegisterEmptySegmentCases<H, M>(h: H, mdls: seq<M>)
    ensures Register(EmptyTrie<H, M>(), "GET", "/a//b", Some(h), mdls).err == Some(EmptySegment)
    ensures Register(EmptyTrie<H, M>(), "GET", "//a/b", Some(h), mdls).err == Some(EmptySegment)
  {
    ValidatePathCases();
    InnerDoubleSlashSegs();
    LeadingDoubleSlashSegs();
    InnerDoubleSlash<H, M>(h, mdls);
    LeadingDoubleSlash<H, M>(h, mdls);
  }

  /** "/a//b": the segment "a" inserts, then the empty segment fails. */
  lemma InnerDoubleSlash<H, M>(h: H, mdls: seq<M>)
    requires ValidatePath("/a//b") == None && Segs("/a//b") == ["a", "", "b"]
    ensures Register(EmptyTrie<H, M>(), "GET", "/a//b", Some(h), mdls).err == Some(EmptySegment)
  {
    var t := EmptyTrie<H, M>();
    assert DoubleSlash("/a//b") by { assert "/a//b"[2] == '/' && "/a//b"[3] == '/'; }
    RegisterEmptySegment(t, "GET", "/a//b", Some(h), mdls);
    var (t1, root) := RootFor(t, "GET");
    var segs := ["a", "", "b"];
    assert FirstEmpty(segs) == 1 && segs[..1] == ["a"];
    ChildOrCreateFails(t1, root, "a");
    assert InsertSegs(t1, root, ["a"]).err.None?;
  }

  /** "//a/b": the very first segment is empty. */
  lemma LeadingDoubleSlash<H, M>(h: H, mdls: seq<M>)
    requires ValidatePath("//a/b") == None && Segs("//a/b") == ["", "a", "b"]
    ensures Register(EmptyTrie<H, M>(), "GET", "//a/b", Some(h), mdls).err == Some(EmptySegment)
  {
    var t := EmptyTrie<H, M>();
    assert DoubleSlash("//a/b") by { assert "//a/b"[0] == '/' && "//a/b"[1] == '/'; }
    RegisterEmptySegment(t, "GET", "//a/b", Some(h), mdls);
    assert FirstEmpty(["", "a", "b"]) == 0;
  }

  /** A registration that succeeds had no empty segment. */
  lemma RegisterOkNoEmptySegment<H, M>(t: Trie<H, M>, verb: string, path: string, handler: Option<H>, mdls: seq<M>)
    requires WellFormed(t)
    requires Register(t, verb, path, handler, mdls).err.None?
    ensures ValidatePath(path).None? && (path == "/" || "" !in Segs(path))
  {
    if path != "/" && "" in Segs(path) {
      var (t1, root) := RootFor(t, verb);
      InsertSegsEmptySegment(t1, root, Segs(path));
    }
  }

  /** `Use` (no handler) never fails with DuplicateRoute. */
  lemma UseNeverDuplicate<H, M>(t: Trie<H, M>, verb: string, path: string, mdls: seq<M>)
    requires WellFormed(t)
    ensures Register(t, verb, path, None, mdls).err != Some(DuplicateRoute)
  {
    if ValidatePath(path).None? && path != "/" {
      var (t1, root) := RootFor(t, verb);
      InsertSegsNoDuplicate(t1, root, Segs(path));
    }
  }

  /**
   * A successful registration touches exactly one node, its target: the
   * handler is set there if given (and there was none), the middleware is
   * appended there in argument order, and every other node keeps its
   * handler and middleware; nodes created on the way have neither.
   */
  lemma RegisterBinds<H, M>(t: Trie<H, M>, verb: string, path: string, handler: Option<H>, mdls: seq<M>)
    requires WellFormed(t)
    requires Register(t, verb, path, handler, mdls).err.None?
    ensures var u := Register(t, verb, path, handler, mdls).trie;
      var c := Target(t, verb, path);
      && c < |u.nodes|
      && u.nodes[c].mdls == MdlsAt(t, c) + mdls
      && (handler.Some? ==> HandlerAt(t, c).None? && u.nodes[c].handler == handler)
      && (handler.None? ==> u.nodes[c].handler == HandlerAt(t, c))
      && forall i :: 0 <= i < |u.nodes| && i != c ==>
           u.nodes[i].handler == HandlerAt(t, i) && u.nodes[i].mdls == MdlsAt(t, i)
  {
    var (t1, root) := RootFor(t, verb);
    assert BindingsKept(t, t1);
    var o := RegisterAt(t1, root, path, handler, mdls);
    assert Register(t, verb, path, handler, mdls) == o;
    var c := Target(t, verb, path);
    var w := if path == "/" then t1 else InsertSegs(t1, root, Segs(path)).trie;
    if path != "/" {
      InsertSegsKeepsBindings(t1, root, Segs(path));
      BindingsKeptTrans(t, t1, w);
    }
    RegisterAtSetsOne(t1, root, path, handler, mdls);
    SetNodeKeepsBindings(t, w, c, o.trie.nodes[c]);
  }

  /** A successful registration below `root` rewrites one node of the walked trie. */
  lemma RegisterAtSetsOne<H, M>(t1: Trie<H, M>, root: nat, path: string, handler: Option<H>, mdls: seq<M>)
    requires WellFormed(t1) && root < |t1.nodes|
    requires RegisterAt(t1, root, path, handler, mdls).err.None?
    ensures var o := RegisterAt(t1, root, path, handler, mdls);
      var w := if path == "/" then t1 else InsertSegs(t1, root, Segs(path)).trie;
      var c := if path == "/" then root else InsertSegs(t1, root, Segs(path)).node;
      && c < |w.nodes| == |o.trie.nodes|
      && o.trie == SetNode(w, c, o.trie.nodes[c])
      && o.trie.nodes[c].mdls == w.nodes[c].mdls + mdls
      && (handler.Some? ==> w.nodes[c].handler.None? && o.trie.nodes[c].handler == handler)
      && (handler.None? ==> o.trie.nodes[c].handler == w.nodes[c].handler)
  {
  }

  /** Replacing one node keeps every other node's handler and middleware. */
  lemma SetNodeKeepsBindings<H, M>(t: Trie<H, M>, w: Trie<H, M>, c: nat, x: Node<H, M>)
    requires BindingsKept(t, w) && c < |w.nodes|
    ensures w.nodes[c].handler == HandlerAt(t, c) && w.nodes[c].mdls == MdlsAt(t, c)
    ensures var u := SetNode(w, c, x);
      forall i :: 0 <= i < |u.nodes| && i != c ==>
        u.nodes[i].handler == HandlerAt(t, i) && u.nodes[i].mdls == MdlsAt(t, i)
  {
  }

  /** A successful registration grows the trie its segment walk built. */
  lemma RegisterAfterWalk<H, M>(t1: Trie<H, M>, root: nat, path: string, handler: Option<H>, mdls: seq<M>)
    requires WellFormed(t1) && root < |t1.nodes|
    requires RegisterAt(t1, root, path, handler, mdls).err.None?
    ensures path == "/" ==> Grows(t1, RegisterAt(t1, root, path, handler, mdls).trie)
    ensures path != "/" ==>
      var w := InsertSegs(t1, root, Segs(path));
      w.err.None? && Grows(w.trie, RegisterAt(t1, root, path, handler, mdls).trie)
  {
    if path != "/" {
      var w := InsertSegs(t1, root, Segs(path));
      var x := Bind(w.trie.nodes[w.node], handler, mdls).(route := path);
      BindWellFormed(w.trie, w.node, x);
    }
  }

  /**
   * After a successful registration, the same method and path reach the
   * same node in this and every later trie, without creating anything.
   */
  lemma RegisterTargetPersists<H, M>(t: Trie<H, M>, verb: string, path: string, handler: Option<H>, mdls: seq<M>, u: Trie<H, M>)
    requires WellFormed(t) && WellFormed(u)
    requires Register(t, verb, path, handler, mdls).err.None?
    requires Grows(Register(t, verb, path, handler, mdls).trie, u)
    ensures RootFor(u, verb) == (u, RootFor(t, verb).1)
    ensures path != "/" ==> InsertSegs(u, RootFor(t, verb).1, Segs(path)) == Walked(u, Target(t, verb, path), None)
    ensures Target(u, verb, path) == Target(t, verb, path)
  {
    var o := Register(t, verb, path, handler, mdls);
    var (t1, root) := RootFor(t, verb);
    assert ValidatePath(path).None? && o == RegisterAt(t1, root, path, handler, mdls);
    RegisterAfterWalk(t1, root, path, handler, mdls);
    if path == "/" {
      GrowsTrans(t1, o.trie, u);
    } else {
      var w := InsertSegs(t1, root, Segs(path));
      InsertSegsIdempotent(t1, root, Segs(path));
      GrowsTrans(w.trie, o.trie, u);
      GrowsTrans(t1, w.trie, u);
      InsertSegsPersists(w.trie, u, root, Segs(path), w.node);
    }
    assert verb in u.trees && u.trees[verb] == root;
  }

  /**
   * Registering a handler for a method and path that already has one fails
   * with DuplicateRoute and changes nothing, however the trie has grown
   * since the first registration.
   */
  lemma RegisterTwiceDuplicate<H, M>(t: Trie<H, M>, verb: string, path: string, h1: H, m1: seq<M>, u: Trie<H, M>, h2: H, m2: seq<M>)
    requires WellFormed(t) && WellFormed(u)
    requires Register(t, verb, path, Some(h1), m1).err.None?
    requires Grows(Register(t, verb, path, Some(h1), m1).trie, u)
    ensures Register(u, verb, path, Some(h2), m2) == Outcome(u, Some(DuplicateRoute))
  {
    var o := Register(t, verb, path, Some(h1), m1);
    RegisterBinds(t, verb, path, Some(h1), m1);
    RegisterTargetPersists(t, verb, path, Some(h1), m1, u);
    var c := Target(t, verb, path);
    assert NodeGrows(o.trie.nodes[c], u.nodes[c]);
  }

  /**
   * Middleware-only registrations of the same method and path accumulate
   * at one node in call order, with no deduplication: the second one always
   * succeeds and appends after the first.
   */
  lemma UseAccumulates<H, M>(t: Trie<H, M>, verb: string, path: string, h: Option<H>, m1: seq<M>, m2: seq<M>)
    requires WellFormed(t)
    requires Register(t, verb, path, h, m1).err.None?
    ensures var t1 := Register(t, verb, path, h, m1).trie;
      var o := Register(t1, verb, path, None, m2);
      var c := Target(t, verb, path);
      && o.err.None?
      && c < |o.trie.nodes|
      && o.trie.nodes[c].mdls == MdlsAt(t, c) + m1 + m2
  {
    var t1 := Register(t, verb, path, h, m1).trie;
    RegisterBinds(t, verb, path, h, m1);
    RegisterTargetPersists(t, verb, path, h, m1, t1);
    RegisterBinds(t1, verb, path, None, m2);
  }
}
