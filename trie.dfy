/**
 * The routing trie of web/route.go as a value: an arena of nodes addressed
 * by index, and one root per HTTP method. The functions here are the
 * specification of registration (`childOrCreate`, the segment walk of
 * `addRoute`, `addRoute` itself) and of the one-step lookup `childOf`; the
 * class in router.dfy performs the same steps in place.
 */
module RouteTrie {
  import opened Wrappers
  import opened RouteKinds
  import opened Tokens
  import opened Paths

  /**
   * A `node`. Children are arena indices: `children` maps a static segment
   * to its node; `starChild`, `paramChild` and `regChild` are the optional
   * special children. `handler` is absent until a route ends here; `mdls`
   * collects the middleware registered exactly at this node.
   */
  datatype Node<H, M> = Node(
    typ: NodeType,
    route: string,
    path: string,
    children: map<string, nat>,
    handler: Option<H>,
    starChild: Option<nat>,
    paramChild: Option<nat>,
    paramName: string,
    regChild: Option<nat>,
    mdls: seq<M>)

  /** `router.trees` (method to root index) together with the node arena. */
  datatype Trie<H, M> = Trie(trees: map<string, nat>, nodes: seq<Node<H, M>>)

  /** A node as `childOrCreate` allocates it: no children, handler or middleware. */
  function NewNode<H, M>(typ: NodeType, path: string, paramName: string): Node<H, M>
  {
    Node(typ, "", path, map[], None, None, None, paramName, None, [])
  }

  /** The root `addRoute` allocates for a method it has not seen. */
  function RootNode<H, M>(): Node<H, M>
  {
    Node(Static, "/", "/", map[], None, None, None, "", None, [])
  }

  /** `newRouter`: no method has a tree yet. */
  function EmptyTrie<H, M>(): (t: Trie<H, M>)
    ensures WellFormed(t) && t.trees == map[]
  {
    Trie(map[], [])
  }

  /** At most one of the three special children is present. */
  predicate Exclusive<H, M>(x: Node<H, M>)
  {
    && (x.starChild.Some? ==> x.paramChild.None? && x.regChild.None?)
    && (x.paramChild.Some? ==> x.regChild.None?)
  }

  /** An optional child index that, when present, is in the arena and of kind `k`. */
  predicate LinkOk<H, M>(nodes: seq<Node<H, M>>, c: Option<nat>, k: NodeType)
  {
    c.Some? ==> c.value < |nodes| && nodes[c.value].typ == k
  }

  /** A node's own token agrees with its kind, as `childOrCreate` creates them. */
  predicate Shape<H, M>(x: Node<H, M>)
  {
    match x.typ
    case Any => x.path == "*"
    case Reg => x.path != "" && Classify(x.path) == RegTok(x.paramName)
    case Param => x.path != "" && Classify(x.path) == ParamTok(x.paramName)
    case Static => true
  }

  ghost predicate NodeOk<H, M>(nodes: seq<Node<H, M>>, x: Node<H, M>)
  {
    && Exclusive(x)
    && Shape(x)
    && LinkOk(nodes, x.starChild, Any)
    && LinkOk(nodes, x.paramChild, Param)
    && LinkOk(nodes, x.regChild, Reg)
    && forall key :: key in x.children ==>
         key != "" && Classify(key) == StaticTok &&
         x.children[key] < |nodes| && nodes[x.children[key]].typ == Static &&
         nodes[x.children[key]].path == key
  }

  /**
   * The invariant registration keeps: every index is in the arena, every
   * node has at most one kind of special child, and each child's kind and
   * token are those of the slot it hangs from.
   */
  ghost predicate WellFormed<H, M>(t: Trie<H, M>)
  {
    && (forall m :: m in t.trees ==> t.trees[m] < |t.nodes|)
    && (forall i :: 0 <= i < |t.nodes| ==> Bounded(t.nodes[i], |t.nodes|))
    && (forall i {:trigger NodeOk(t.nodes, t.nodes[i])} :: 0 <= i < |t.nodes| ==> NodeOk(t.nodes, t.nodes[i]))
  }

  /**
   * The index part of `NodeOk` alone: every child index of `x` is below
   * `size`. It is stated apart so that it follows from `WellFormed` for
   * any node without unfolding the children's own invariants.
   */
  predicate Bounded<H, M>(x: Node<H, M>, size: nat)
  {
    && (x.starChild.Some? ==> x.starChild.value < size)
    && (x.paramChild.Some? ==> x.paramChild.value < size)
    && (x.regChild.Some? ==> x.regChild.value < size)
    && (forall key :: key in x.children ==> x.children[key] < size)
  }

  /**
   * What a node keeps while the trie is built: its kind and tokens, every
   * child it has, its handler once set, and its middleware as a prefix.
   */
  ghost predicate NodeGrows<H, M>(x: Node<H, M>, y: Node<H, M>)
  {
    && y.typ == x.typ && y.path == x.path && y.paramName == x.paramName
    && (forall k :: k in x.children ==> k in y.children && y.children[k] == x.children[k])
    && (x.starChild.Some? ==> y.starChild == x.starChild)
    && (x.paramChild.Some? ==> y.paramChild == x.paramChild)
    && (x.regChild.Some? ==> y.regChild == x.regChild)
    && (x.handler.Some? ==> y.handler == x.handler)
    && x.mdls <= y.mdls
  }

  /** `u` is `t` with nodes added and nothing taken away or rewired. */
  ghost predicate Grows<H, M>(t: Trie<H, M>, u: Trie<H, M>)
  {
    && |t.nodes| <= |u.nodes|
    && (forall m :: m in t.trees ==> m in u.trees && u.trees[m] == t.trees[m])
    && (forall i :: 0 <= i < |t.nodes| ==> NodeGrows(t.nodes[i], u.nodes[i]))
  }

  lemma GrowsRefl<H, M>(t: Trie<H, M>)
    ensures Grows(t, t)
  {
  }

  lemma GrowsTrans<H, M>(t: Trie<H, M>, u: Trie<H, M>, v: Trie<H, M>)
    requires Grows(t, u) && Grows(u, v)
    ensures Grows(t, v)
  {
    forall i | 0 <= i < |t.nodes| ensures NodeGrows(t.nodes[i], v.nodes[i]) {
      var x, y, z := t.nodes[i], u.nodes[i], v.nodes[i];
      assert NodeGrows(x, y) && NodeGrows(y, z);
    }
  }

  /** `x` with the child slot for `kind` (and `seg`, for a static child) set to `c`. */
  function WithChild<H, M>(x: Node<H, M>, kind: NodeType, seg: string, c: nat): Node<H, M>
  {
    match kind
    case Any => x.(starChild := Some(c))
    case Param => x.(paramChild := Some(c))
    case Reg => x.(regChild := Some(c))
    case Static => x.(children := x.children[seg := c])
  }

  /** A new child of kind `kind` for node `n`, appended to the arena. */
  function Grow<H, M>(t: Trie<H, M>, n: nat, kind: NodeType, seg: string, name: string): Trie<H, M>
    requires n < |t.nodes|
  {
    Trie(t.trees, t.nodes[n := WithChild(t.nodes[n], kind, seg, |t.nodes|)] + [NewNode(kind, seg, name)])
  }

  /** Slot for `kind` at `x` is free and `seg`, `name` are a token of that kind. */
  predicate CanGrow<H, M>(x: Node<H, M>, kind: NodeType, seg: string, name: string)
  {
    && seg != ""
    && match kind
       case Any => seg == "*" && x.starChild.None? && x.paramChild.None? && x.regChild.None?
       case Reg => Classify(seg) == RegTok(name) && x.starChild.None? && x.paramChild.None? && x.regChild.None?
       case Param => Classify(seg) == ParamTok(name) && x.starChild.None? && x.paramChild.None? && x.regChild.None?
       case Static => Classify(seg) == StaticTok && seg !in x.children
  }

  /** A node stays well-formed in an arena that only appends nodes and keeps kinds and tokens. */
  lemma NodeOkExtend<H, M>(N: seq<Node<H, M>>, N': seq<Node<H, M>>, y: Node<H, M>)
    requires NodeOk(N, y) && |N| <= |N'|
    requires forall j :: 0 <= j < |N| ==> N'[j].typ == N[j].typ && N'[j].path == N[j].path
    ensures NodeOk(N', y)
  {
  }

  /** The parent after `Grow` is still well-formed: its new slot points at the new node. */
  lemma GrowParentOk<H, M>(t: Trie<H, M>, n: nat, kind: NodeType, seg: string, name: string)
    requires WellFormed(t) && n < |t.nodes|
    requires CanGrow(t.nodes[n], kind, seg, name)
    ensures NodeOk(Grow(t, n, kind, seg, name).nodes, Grow(t, n, kind, seg, name).nodes[n])
  {
    var N' := Grow(t, n, kind, seg, name).nodes;
    var c := |t.nodes|;
    var x := t.nodes[n];
    assert NodeOk(t.nodes, x);
    assert N'[c] == NewNode(kind, seg, name);
    forall j | 0 <= j < |t.nodes| ensures N'[j].typ == t.nodes[j].typ && N'[j].path == t.nodes[j].path {
    }
    NodeOkExtend(t.nodes, N', x);
    assert N'[n] == WithChild(x, kind, seg, c);
  }

  lemma GrowWellFormed<H, M>(t: Trie<H, M>, n: nat, kind: NodeType, seg: string, name: string)
    requires WellFormed(t) && n < |t.nodes|
    requires CanGrow(t.nodes[n], kind, seg, name)
    ensures WellFormed(Grow(t, n, kind, seg, name)) && Grows(t, Grow(t, n, kind, seg, name))
  {
    var N, N' := t.nodes, Grow(t, n, kind, seg, name).nodes;
    forall i | 0 <= i < |N'| ensures NodeOk(N', N'[i]) {
      GrowNodeOk(t, n, kind, seg, name, i);
    }
    GrowGrows(t, n, kind, seg, name);
  }

  lemma GrowGrows<H, M>(t: Trie<H, M>, n: nat, kind: NodeType, seg: string, name: string)
    requires n < |t.nodes| && CanGrow(t.nodes[n], kind, seg, name)
    ensures Grows(t, Grow(t, n, kind, seg, name))
  {
    var N, N' := t.nodes, Grow(t, n, kind, seg, name).nodes;
    forall i | 0 <= i < |N| ensures NodeGrows(N[i], N'[i]) {
      if i == n {
        WithChildGrows(N[n], kind, seg, name, |N|);
      } else {
        assert N'[i] == N[i];
      }
    }
  }

  /** Filling a free slot keeps everything the node had. */
  lemma WithChildGrows<H, M>(x: Node<H, M>, kind: NodeType, seg: string, name: string, c: nat)
    requires CanGrow(x, kind, seg, name)
    ensures NodeGrows(x, WithChild(x, kind, seg, c))
  {
  }

  lemma GrowNodeOk<H, M>(t: Trie<H, M>, n: nat, kind: NodeType, seg: string, name: string, i: nat)
    requires WellFormed(t) && n < |t.nodes|
    requires CanGrow(t.nodes[n], kind, seg, name)
    requires i < |Grow(t, n, kind, seg, name).nodes|
    ensures var N' := Grow(t, n, kind, seg, name).nodes; NodeOk(N', N'[i])
  {
    var N, N' := t.nodes, Grow(t, n, kind, seg, name).nodes;
    if i == n {
      GrowParentOk(t, n, kind, seg, name);
    } else if i < |N| {
      forall j | 0 <= j < |N| ensures N'[j].typ == N[j].typ && N'[j].path == N[j].path {
      }
      assert N'[i] == N[i] && NodeOk(N, N[i]);
      NodeOkExtend(N, N', N[i]);
    } else {
      assert N'[i] == NewNode(kind, seg, name);
    }
  }

  /**
   * `childOf`: the child a lookup steps to for segment `seg`, trying the
   * static child, then a regex child whose pattern matches, then the param
   * child, then the star child. A lower kind is chosen only when every
   * higher one is absent or, for the regex child, does not match.
   */
  function ChildOf<H, M>(t: Trie<H, M>, rx: RegexOracle, n: nat, seg: string): (r: Option<nat>)
    requires WellFormed(t) && n < |t.nodes|
    ensures r.Some? ==> r.value < |t.nodes|
  {
    var x := t.nodes[n];
    assert NodeOk(t.nodes, x);
    if seg in x.children then Some(x.children[seg])
    else if x.regChild.Some? && MatchRegExpr(rx, t.nodes[x.regChild.value].path, seg) then x.regChild
    else if x.paramChild.Some? then x.paramChild
    else x.starChild
  }

  /**
   * What `childOf` returns, by kind: a static child exactly when the segment
   * names one; a regex child only when its pattern matches; a param or star
   * child only from its own slot; nothing exactly when no kind applies.
   */
  lemma ChildOfPrecedence<H, M>(t: Trie<H, M>, rx: RegexOracle, n: nat, seg: string)
    requires WellFormed(t) && n < |t.nodes|
    ensures var x := t.nodes[n];
      var r := ChildOf(t, rx, n, seg);
      && (seg in x.children <==> r.Some? && t.nodes[r.value].typ == Static)
      && (seg in x.children ==> r == Some(x.children[seg]))
      && (r.Some? && t.nodes[r.value].typ == Reg ==>
            r == x.regChild && MatchRegExpr(rx, t.nodes[r.value].path, seg))
      && (r.Some? && t.nodes[r.value].typ == Param ==> r == x.paramChild)
      && (r.Some? && t.nodes[r.value].typ == Any ==> r == x.starChild)
      && (r.None? <==> seg !in x.children && x.paramChild.None? && x.starChild.None? &&
                        !(x.regChild.Some? && MatchRegExpr(rx, t.nodes[x.regChild.value].path, seg)))
  {
    assert NodeOk(t.nodes, t.nodes[n]);
  }

  /**
   * `childOrCreate`: the child for a non-empty segment, created when
   * missing. Its kind is fixed by the segment (`*`, `:name(body)`, `:name`,
   * anything else); a special child cannot join one of another special kind,
   * and an existing param child must carry the same token. On failure the
   * trie is untouched: the panics come before any write.
   */
  function ChildOrCreate<H, M>(t: Trie<H, M>, n: nat, seg: string): (r: Result<(Trie<H, M>, nat), RouteError>)
    requires WellFormed(t) && n < |t.nodes| && seg != ""
    ensures r.Ok? ==> WellFormed(r.value.0) && Grows(t, r.value.0) && r.value.1 < |r.value.0.nodes|
    ensures r.Ok? ==> |r.value.0.nodes| == |t.nodes| + (if r.value.0 == t then 0 else 1)
  {
    var x := t.nodes[n];
    var next := |t.nodes|;
    match Classify(seg)
    case StarTok =>
      if x.regChild.Some? then Err(KindConflict(Reg, Any))
      else if x.paramChild.Some? then Err(KindConflict(Param, Any))
      else if x.starChild.Some? then (GrowsRefl(t); Ok((t, x.starChild.value)))
      else (GrowWellFormed(t, n, Any, seg, ""); Ok((Grow(t, n, Any, seg, ""), next)))
    case RegTok(name) =>
      if x.starChild.Some? then Err(KindConflict(Any, Reg))
      else if x.paramChild.Some? then Err(KindConflict(Param, Reg))
      else if x.regChild.Some? then (GrowsRefl(t); Ok((t, x.regChild.value)))
      else (GrowWellFormed(t, n, Reg, seg, name); Ok((Grow(t, n, Reg, seg, name), next)))
    case ParamTok(name) =>
      if x.starChild.Some? then Err(KindConflict(Any, Param))
      else if x.regChild.Some? then Err(KindConflict(Reg, Param))
      else if x.paramChild.None? then
        (GrowWellFormed(t, n, Param, seg, name); Ok((Grow(t, n, Param, seg, name), next)))
      else
        var p := x.paramChild.value;
        if t.nodes[p].path != seg then Err(ParamNameConflict(t.nodes[p].path, seg))
        else (GrowsRefl(t); Ok((t, p)))
    case StaticTok =>
      if seg in x.children then (GrowsRefl(t); Ok((t, x.children[seg])))
      else (GrowWellFormed(t, n, Static, seg, ""); Ok((Grow(t, n, Static, seg, ""), next)))
  }

  /** Where the walk over the segments stopped, and why if it failed. */
  datatype Walked<H, M> = Walked(trie: Trie<H, M>, node: nat, err: Option<RouteError>)

  /**
   * The loop of `addRoute` over the segments: an empty segment fails, so
   * does a failing `childOrCreate`; either way the nodes created for earlier
   * segments stay in the trie.
   */
  function InsertSegs<H, M>(t: Trie<H, M>, n: nat, segs: seq<string>): (w: Walked<H, M>)
    requires WellFormed(t) && n < |t.nodes|
    ensures WellFormed(w.trie) && Grows(t, w.trie) && w.node < |w.trie.nodes|
    decreases |segs|
  {
    if segs == [] then Walked(t, n, None)
    else if segs[0] == "" then Walked(t, n, Some(EmptySegment))
    else
      match ChildOrCreate(t, n, segs[0])
      case Err(e) => Walked(t, n, Some(e))
      case Ok((t1, c)) =>
        var w := InsertSegs(t1, c, segs[1..]);
        GrowsTrans(t, t1, w.trie);
        w
  }

  /** A fresh root appended to the arena keeps the trie well-formed. */
  lemma AddRootWellFormed<H, M>(t: Trie<H, M>, verb: string)
    requires WellFormed(t) && verb !in t.trees
    ensures var u := Trie(t.trees[verb := |t.nodes|], t.nodes + [RootNode()]);
      WellFormed(u) && Grows(t, u)
  {
    var u := Trie(t.trees[verb := |t.nodes|], t.nodes + [RootNode()]);
    forall i | 0 <= i < |t.nodes| ensures u.nodes[i].typ == t.nodes[i].typ && u.nodes[i].path == t.nodes[i].path {
    }
    forall i | 0 <= i < |u.nodes| ensures NodeOk(u.nodes, u.nodes[i]) {
      if i < |t.nodes| {
        assert NodeOk(t.nodes, t.nodes[i]);
        NodeOkExtend(t.nodes, u.nodes, t.nodes[i]);
      }
    }
    forall i | 0 <= i < |u.nodes| ensures Bounded(u.nodes[i], |u.nodes|) {
      if i < |t.nodes| {
        assert Bounded(t.nodes[i], |t.nodes|);
      }
    }
    forall i | 0 <= i < |t.nodes| ensures NodeGrows(t.nodes[i], u.nodes[i]) {
    }
  }

  /** The root for method `verb`, allocated (and entered in `trees`) when missing. */
  function RootFor<H, M>(t: Trie<H, M>, verb: string): (r: (Trie<H, M>, nat))
    requires WellFormed(t)
    ensures WellFormed(r.0) && Grows(t, r.0)
    ensures verb in r.0.trees && r.0.trees[verb] == r.1 && r.1 < |r.0.nodes|
    ensures verb in t.trees ==> r == (t, t.trees[verb])
  {
    if verb in t.trees then (t, t.trees[verb])
    else
      AddRootWellFormed(t, verb);
      (Trie(t.trees[verb := |t.nodes|], t.nodes + [RootNode()]), |t.nodes|)
  }

  /** The node after a registration sets the handler (if given) and appends middleware. */
  function Bind<H, M>(x: Node<H, M>, handler: Option<H>, mdls: seq<M>): Node<H, M>
  {
    x.(handler := if handler.Some? then handler else x.handler, mdls := x.mdls + mdls)
  }

  function SetNode<H, M>(t: Trie<H, M>, i: nat, x: Node<H, M>): Trie<H, M>
    requires i < |t.nodes|
  {
    Trie(t.trees, t.nodes[i := x])
  }

  lemma BindWellFormed<H, M>(t: Trie<H, M>, i: nat, x: Node<H, M>)
    requires WellFormed(t) && i < |t.nodes|
    requires SameLinks(x, t.nodes[i])
    requires t.nodes[i].handler.Some? ==> x.handler == t.nodes[i].handler
    requires t.nodes[i].mdls <= x.mdls
    ensures WellFormed(SetNode(t, i, x)) && Grows(t, SetNode(t, i, x))
  {
    var N' := SetNode(t, i, x).nodes;
    forall j | 0 <= j < |N'| ensures NodeOk(N', N'[j]) {
      SetNodeOk(t, i, x, j);
    }
    BindGrows(t, i, x);
  }

  /** Kind, tokens and children: what `NodeOk` looks at in a node itself. */
  predicate SameLinks<H, M>(x: Node<H, M>, y: Node<H, M>)
  {
    && x.typ == y.typ && x.path == y.path && x.paramName == y.paramName
    && x.children == y.children && x.starChild == y.starChild
    && x.paramChild == y.paramChild && x.regChild == y.regChild
  }

  lemma SetNodeOk<H, M>(t: Trie<H, M>, i: nat, x: Node<H, M>, j: nat)
    requires WellFormed(t) && i < |t.nodes| && SameLinks(x, t.nodes[i]) && j < |t.nodes|
    ensures var N' := SetNode(t, i, x).nodes; NodeOk(N', N'[j])
  {
    var N' := SetNode(t, i, x).nodes;
    forall k | 0 <= k < |t.nodes| ensures N'[k].typ == t.nodes[k].typ && N'[k].path == t.nodes[k].path {
    }
    assert NodeOk(t.nodes, t.nodes[j]);
    NodeOkExtend(t.nodes, N', t.nodes[j]);
    if j == i {
      assert Exclusive(x) && Shape(x);
    }
  }

  lemma BindGrows<H, M>(t: Trie<H, M>, i: nat, x: Node<H, M>)
    requires i < |t.nodes|
    requires SameLinks(x, t.nodes[i])
    requires t.nodes[i].handler.Some? ==> x.handler == t.nodes[i].handler
    requires t.nodes[i].mdls <= x.mdls
    ensures Grows(t, SetNode(t, i, x))
  {
    var N' := SetNode(t, i, x).nodes;
    forall j | 0 <= j < |t.nodes| ensures NodeGrows(t.nodes[j], N'[j]) {
      if j != i {
        assert N'[j] == t.nodes[j];
      }
    }
  }

  /** The result of `addRoute`: the trie afterwards, and the panic it raised, if any. */
  datatype Outcome<H, M> = Outcome(trie: Trie<H, M>, err: Option<RouteError>)

  /**
   * `addRoute(method, path, handler, mdls...)` with the HTTP method `verb`. A `None` handler is the
   * middleware-only registration of `Use`. Validation failures leave the
   * trie untouched; later failures keep what was built before them.
   */
  function Register<H, M>(t: Trie<H, M>, verb: string, path: string, handler: Option<H>, mdls: seq<M>): (o: Outcome<H, M>)
    requires WellFormed(t)
    ensures WellFormed(o.trie) && Grows(t, o.trie)
  {
    match ValidatePath(path)
    case Some(e) => Outcome(t, Some(e))
    case None =>
      var (t1, root) := RootFor(t, verb);
      var o := RegisterAt(t1, root, path, handler, mdls);
      GrowsTrans(t, t1, o.trie);
      o
  }

  /** `addRoute` once the path is valid and the verb's root `root` exists. */
  function RegisterAt<H, M>(t: Trie<H, M>, root: nat, path: string, handler: Option<H>, mdls: seq<M>): (o: Outcome<H, M>)
    requires WellFormed(t) && root < |t.nodes|
    ensures WellFormed(o.trie) && Grows(t, o.trie)
  {
    if path == "/" then
      if handler.Some? && t.nodes[root].handler.Some? then Outcome(t, Some(DuplicateRoute))
      else
        var x := Bind(t.nodes[root], handler, mdls);
        BindWellFormed(t, root, x);
        Outcome(SetNode(t, root, x), None)
    else
      var w := InsertSegs(t, root, Segs(path));
      if w.err.Some? then Outcome(w.trie, w.err)
      else if handler.Some? && w.trie.nodes[w.node].handler.Some? then Outcome(w.trie, Some(DuplicateRoute))
      else
        var x := Bind(w.trie.nodes[w.node], handler, mdls).(route := path);
        BindWellFormed(w.trie, w.node, x);
        GrowsTrans(t, w.trie, SetNode(w.trie, w.node, x));
        Outcome(SetNode(w.trie, w.node, x), None)
  }
}
