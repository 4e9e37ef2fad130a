/**
 * Lookup in the routing trie of web/route.go: the non-backtracking walk of
 * `findRoute`, with its star fallback and captured parameters, and the
 * layered middleware collection of `findMdls`. Everything here reads the
 * trie and changes nothing.
 */
module Lookup {
  import opened Wrappers
  import opened RouteKinds
  import opened Tokens
  import opened Paths
  import opened RouteTrie

  /** `matchInfo`: the node reached, the parameters captured, the middleware collected. */
  datatype MatchInfo<M> = MatchInfo(node: nat, pathParams: map<string, string>, mdls: seq<M>)

  /** `matchInfo.addValue`: record one path parameter, replacing an earlier value. */
  function AddValue<M>(m: MatchInfo<M>, key: string, value: string): (r: MatchInfo<M>)
    ensures key in r.pathParams && r.pathParams[key] == value
    ensures forall k :: k != key ==> (k in r.pathParams <==> k in m.pathParams)
    ensures forall k :: k != key && k in m.pathParams ==> r.pathParams[k] == m.pathParams[k]
    ensures r.node == m.node && r.mdls == m.mdls
  {
    m.(pathParams := m.pathParams[key := value])
  }

  /** All indices of `ns` are nodes of `t`. */
  predicate InArena<H, M>(t: Trie<H, M>, ns: seq<nat>)
  {
    forall i :: 0 <= i < |ns| ==> ns[i] < |t.nodes|
  }

  // ---------------------------------------------------------------------
  // findRoute
  // ---------------------------------------------------------------------

  /**
   * The variables of the loop of `findRoute`: the current node (`root`),
   * the last star node passed (`anyNode`), and the captured parameters.
   */
  datatype Step = Step(node: nat, anchor: Option<nat>, params: map<string, string>)

  predicate StepOk<H, M>(t: Trie<H, M>, s: Step)
  {
    s.node < |t.nodes| && (s.anchor.Some? ==> s.anchor.value < |t.nodes|)
  }

  /** Node `c` captures parameter `key`: it is a regex or param node named `key`. */
  predicate Captures<H, M>(t: Trie<H, M>, c: nat, key: string)
  {
    c < |t.nodes| && (t.nodes[c].typ == Reg || t.nodes[c].typ == Param) && t.nodes[c].paramName == key
  }

  /** The parameters after stepping onto `c` for segment `seg`. */
  function Capture<H, M>(t: Trie<H, M>, p: map<string, string>, c: nat, seg: string): map<string, string>
    requires c < |t.nodes|
  {
    var y := t.nodes[c];
    if y.typ == Reg || y.typ == Param then p[y.paramName := seg] else p
  }

  /**
   * One iteration of the loop: step to `childOf(seg)`, remember it when it is
   * a star node, and capture the segment when it is a regex or param node.
   * `None` when `childOf` finds nothing.
   */
  function Advance<H, M>(t: Trie<H, M>, rx: RegexOracle, s: Step, seg: string): (r: Option<Step>)
    requires WellFormed(t) && StepOk(t, s)
    ensures r.Some? ==> StepOk(t, r.value)
    ensures r.Some? <==> ChildOf(t, rx, s.node, seg).Some?
  {
    match ChildOf(t, rx, s.node, seg)
    case None => None
    case Some(c) =>
      var anchor := if t.nodes[c].typ == Any then Some(c) else s.anchor;
      Some(Step(c, anchor, Capture(t, s.params, c, seg)))
  }

  /**
   * The loop of `findRoute` over the remaining segments: the node and
   * parameters it returns, or `None` for "not found". When a step fails the
   * last star node passed is the answer, if there is one.
   */
  function Walk<H, M>(t: Trie<H, M>, rx: RegexOracle, s: Step, segs: seq<string>): (r: Option<(nat, map<string, string>)>)
    requires WellFormed(t) && StepOk(t, s)
    ensures r.Some? ==> r.value.0 < |t.nodes|
    decreases |segs|
  {
    if segs == [] then Some((s.node, s.params))
    else match Advance(t, rx, s, segs[0])
      case None => if s.anchor.Some? then Some((s.anchor.value, s.params)) else None
      case Some(s') => Walk(t, rx, s', segs[1..])
  }

  /** The node a trail out of `n` ends at. */
  function Reached(n: nat, tr: seq<nat>): nat
  {
    if tr == [] then n else tr[|tr| - 1]
  }

  /**
   * The nodes `childOf` leads to from `n`, one per segment, as far as it
   * finds a child: a reference for the walk that ignores its fallback.
   */
  function Trail<H, M>(t: Trie<H, M>, rx: RegexOracle, n: nat, segs: seq<string>): (tr: seq<nat>)
    requires WellFormed(t) && n < |t.nodes|
    ensures |tr| <= |segs| && InArena(t, tr)
    decreases |segs|
  {
    if segs == [] then []
    else match ChildOf(t, rx, n, segs[0])
      case None => []
      case Some(c) => [c] + Trail(t, rx, c, segs[1..])
  }

  /** The trail is as long as it can be: it stops only where `childOf` finds nothing. */
  lemma {:induction false} TrailStops<H, M>(t: Trie<H, M>, rx: RegexOracle, n: nat, segs: seq<string>)
    requires WellFormed(t) && n < |t.nodes|
    ensures var tr := Trail(t, rx, n, segs);
      |tr| < |segs| ==> ChildOf(t, rx, Reached(n, tr), segs[|tr|]).None?
    decreases |segs|
  {
    if segs != [] {
      match ChildOf(t, rx, n, segs[0])
      case None =>
      case Some(c) =>
        var rest := Trail(t, rx, c, segs[1..]);
        TrailStops(t, rx, c, segs[1..]);
        assert Trail(t, rx, n, segs) == [c] + rest;
        assert Reached(n, [c] + rest) == Reached(c, rest);
        if |rest| < |segs| - 1 {
          assert segs[|rest| + 1] == segs[1..][|rest|];
        }
    }
  }

  /** The position of the last star node on `tr`. */
  function LastStar<H, M>(t: Trie<H, M>, tr: seq<nat>): (r: Option<nat>)
    requires InArena(t, tr)
    ensures r.Some? ==> r.value < |tr|
  {
    if tr == [] then None
    else match LastStar(t, tr[1..])
      case Some(k) => Some(k + 1)
      case None => if t.nodes[tr[0]].typ == Any then Some(0) else None
  }

  /** `LastStar` finds a star node, and no star node comes after it. */
  lemma {:induction false} LastStarIsLast<H, M>(t: Trie<H, M>, tr: seq<nat>)
    requires InArena(t, tr)
    ensures var r := LastStar(t, tr);
      && (r.Some? ==> t.nodes[tr[r.value]].typ == Any)
      && (r.Some? ==> forall k :: r.value < k < |tr| ==> t.nodes[tr[k]].typ != Any)
      && (r.None? ==> forall k :: 0 <= k < |tr| ==> t.nodes[tr[k]].typ != Any)
    decreases |tr|
  {
    if tr != [] {
      LastStarIsLast(t, tr[1..]);
      assert forall k :: 0 < k < |tr| ==> tr[k] == tr[1..][k - 1];
    }
  }

  /** The position of the last node on `tr` that captures `key`. */
  function LastCapture<H, M>(t: Trie<H, M>, tr: seq<nat>, key: string): (r: Option<nat>)
    ensures r.Some? ==> r.value < |tr| && Captures(t, tr[r.value], key)
    ensures r.Some? ==> forall k :: r.value < k < |tr| ==> !Captures(t, tr[k], key)
    ensures r.None? ==> forall k :: 0 <= k < |tr| ==> !Captures(t, tr[k], key)
  {
    if tr == [] then None
    else match LastCapture(t, tr[1..], key)
      case Some(k) => Some(k + 1)
      case None => if Captures(t, tr[0], key) then Some(0) else None
  }

  /** The parameters captured along `tr`, starting from `p`. */
  function CaptureAll<H, M>(t: Trie<H, M>, p: map<string, string>, tr: seq<nat>, segs: seq<string>): map<string, string>
    requires InArena(t, tr) && |tr| <= |segs|
    decreases |tr|
  {
    if tr == [] then p else CaptureAll(t, Capture(t, p, tr[0], segs[0]), tr[1..], segs[1..])
  }

  /**
   * Captures overwrite each other: a parameter holds the segment of the
   * LAST node on the trail that captures it, and a parameter no node
   * captures keeps its earlier value.
   */
  lemma {:induction false} CaptureAllLastWins<H, M>(t: Trie<H, M>, p: map<string, string>, tr: seq<nat>, segs: seq<string>, key: string)
    requires InArena(t, tr) && |tr| <= |segs|
    ensures var r := CaptureAll(t, p, tr, segs);
      var lc := LastCapture(t, tr, key);
      && (key in r <==> lc.Some? || key in p)
      && (lc.Some? ==> r[key] == segs[lc.value])
      && (lc.None? && key in p ==> r[key] == p[key])
    decreases |tr|
  {
    if tr != [] {
      var p' := Capture(t, p, tr[0], segs[0]);
      CaptureAllLastWins(t, p', tr[1..], segs[1..], key);
      assert Captures(t, tr[0], key) ==> key in p' && p'[key] == segs[0];
      assert !Captures(t, tr[0], key) ==> (key in p' <==> key in p);
      assert !Captures(t, tr[0], key) && key in p ==> p'[key] == p[key];
    }
  }

  /**
   * The walk, characterised by its trail: when every segment has a child it
   * ends at the trail's last node; otherwise it answers with the last star
   * node on the trail, or failing that the star node it started with, or
   * "not found". The parameters are those captured along the trail.
   */
  lemma {:induction false} WalkByTrail<H, M>(t: Trie<H, M>, rx: RegexOracle, s: Step, segs: seq<string>)
    requires WellFormed(t) && StepOk(t, s)
    ensures Walk(t, rx, s, segs) == TrailAnswer(t, s, Trail(t, rx, s.node, segs), segs)
    decreases |segs|
  {
    if segs != [] {
      match ChildOf(t, rx, s.node, segs[0])
      case None =>
      case Some(c) =>
        var s' := Advance(t, rx, s, segs[0]).value;
        TrailCons(t, rx, s.node, segs);
        WalkByTrail(t, rx, s', segs[1..]);
        TrailAnswerCons(t, s, Trail(t, rx, s.node, segs), segs, s');
    }
  }

  /**
   * What the walk answers, read off the trail `tr` it followed: the trail's
   * end when it consumed every segment, otherwise the last star node on the
   * trail, or the star node it started with, or nothing; the parameters are
   * those captured along the trail.
   */
  function TrailAnswer<H, M>(t: Trie<H, M>, s: Step, tr: seq<nat>, segs: seq<string>): Option<(nat, map<string, string>)>
    requires InArena(t, tr) && |tr| <= |segs|
  {
    var ps := CaptureAll(t, s.params, tr, segs);
    if |tr| == |segs| then Some((Reached(s.node, tr), ps))
    else match LastStar(t, tr)
      case Some(k) => Some((tr[k], ps))
      case None => if s.anchor.Some? then Some((s.anchor.value, ps)) else None
  }

  /** One step of the walk moves the answer one node along the trail. */
  lemma TrailAnswerCons<H, M>(t: Trie<H, M>, s: Step, tr: seq<nat>, segs: seq<string>, s': Step)
    requires InArena(t, tr) && |tr| <= |segs| && tr != []
    requires s'.node == tr[0]
    requires s'.anchor == if t.nodes[tr[0]].typ == Any then Some(tr[0]) else s.anchor
    requires s'.params == Capture(t, s.params, tr[0], segs[0])
    ensures TrailAnswer(t, s, tr, segs) == TrailAnswer(t, s', tr[1..], segs[1..])
  {
    var rest := tr[1..];
    if |rest| == |segs| - 1 {
      if rest != [] {
        assert tr[|tr| - 1] == rest[|rest| - 1];
      }
    } else {
      match LastStar(t, rest)
      case Some(k) =>
        assert tr[k + 1] == rest[k];
      case None =>
    }
  }

  // ---------------------------------------------------------------------
  // findMdls
  // ---------------------------------------------------------------------

  /**
   * `c` is a child of `n` that prefix matching follows for `seg`: the star
   * child, the param child, the regex child when its pattern matches, or
   * the static child keyed by `seg`.
   */
  predicate Edge<H, M>(t: Trie<H, M>, rx: RegexOracle, n: nat, seg: string, c: nat)
    requires n < |t.nodes|
  {
    var x := t.nodes[n];
    || x.starChild == Some(c)
    || x.paramChild == Some(c)
    || (x.regChild == Some(c) && c < |t.nodes| && MatchRegExpr(rx, t.nodes[c].path, seg))
    || (seg in x.children && x.children[seg] == c)
  }

  /** An optional child as a queue segment of length 0 or 1. */
  function Slot(o: Option<nat>): seq<nat>
  {
    if o.Some? then [o.value] else []
  }

  /** The regex child of `n`, when its pattern matches `seg`. */
  function MatchingReg<H, M>(t: Trie<H, M>, rx: RegexOracle, n: nat, seg: string): Option<nat>
    requires WellFormed(t) && n < |t.nodes|
  {
    var x := t.nodes[n];
    assert NodeOk(t.nodes, x);
    if x.regChild.Some? && MatchRegExpr(rx, t.nodes[x.regChild.value].path, seg) then x.regChild else None
  }

  /** The static child of `n` keyed by `seg`. */
  function StaticChild<H, M>(x: Node<H, M>, seg: string): Option<nat>
  {
    if seg in x.children then Some(x.children[seg]) else None
  }

  /**
   * The children one frontier node adds to the queue for `seg`, in the
   * order `findMdls` visits them: star, param, matching regex, static.
   */
  function Expand<H, M>(t: Trie<H, M>, rx: RegexOracle, n: nat, seg: string): (cs: seq<nat>)
    requires WellFormed(t) && n < |t.nodes|
    ensures InArena(t, cs)
  {
    var x := t.nodes[n];
    assert NodeOk(t.nodes, x);
    Slot(x.starChild) + Slot(x.paramChild) + Slot(MatchingReg(t, rx, n, seg)) + Slot(StaticChild(x, seg))
  }

  /** The children `findMdls` visits below `n` are exactly its edges for `seg`. */
  lemma ExpandEdges<H, M>(t: Trie<H, M>, rx: RegexOracle, n: nat, seg: string, c: nat)
    requires WellFormed(t) && n < |t.nodes|
    ensures c in Expand(t, rx, n, seg) <==> Edge(t, rx, n, seg, c)
  {
  }

  /** The next frontier: the children of every frontier node, node by node. */
  function Layer<H, M>(t: Trie<H, M>, rx: RegexOracle, f: seq<nat>, seg: string): (r: seq<nat>)
    requires WellFormed(t) && InArena(t, f)
    ensures InArena(t, r)
    decreases |f|
  {
    if f == [] then [] else Layer(t, rx, f[..|f| - 1], seg) + Expand(t, rx, f[|f| - 1], seg)
  }

  /** Some node of the frontier `f` has an edge labelled `seg` to `c`. */
  predicate EdgeFrom<H, M>(t: Trie<H, M>, rx: RegexOracle, f: seq<nat>, seg: string, c: nat)
    requires InArena(t, f)
  {
    exists i :: 0 <= i < |f| && Edge(t, rx, f[i], seg, c)
  }

  lemma EdgeFromSnoc<H, M>(t: Trie<H, M>, rx: RegexOracle, f: seq<nat>, seg: string, c: nat)
    requires InArena(t, f) && f != []
    ensures EdgeFrom(t, rx, f, seg, c) <==> EdgeFrom(t, rx, f[..|f| - 1], seg, c) || Edge(t, rx, f[|f| - 1], seg, c)
  {
    var init := f[..|f| - 1];
    if EdgeFrom(t, rx, f, seg, c) {
      var i :| 0 <= i < |f| && Edge(t, rx, f[i], seg, c);
      if i < |init| {
        assert init[i] == f[i];
      }
    }
    if EdgeFrom(t, rx, init, seg, c) {
      var i :| 0 <= i < |init| && Edge(t, rx, init[i], seg, c);
      assert f[i] == init[i];
    }
  }

  /** The next frontier holds exactly the children some frontier node has an edge to. */
  lemma {:induction false} LayerEdges<H, M>(t: Trie<H, M>, rx: RegexOracle, f: seq<nat>, seg: string, c: nat)
    requires WellFormed(t) && InArena(t, f)
    ensures c in Layer(t, rx, f, seg) <==> EdgeFrom(t, rx, f, seg, c)
    decreases |f|
  {
    if f != [] {
      var init := f[..|f| - 1];
      LayerEdges(t, rx, init, seg, c);
      ExpandEdges(t, rx, f[|f| - 1], seg, c);
      EdgeFromSnoc(t, rx, f, seg, c);
      assert Layer(t, rx, f, seg) == Layer(t, rx, init, seg) + Expand(t, rx, f[|f| - 1], seg);
    }
  }

  /** The layer grows node by node as the loop of `findMdls` goes down the queue. */
  lemma LayerSnoc<H, M>(t: Trie<H, M>, rx: RegexOracle, f: seq<nat>, i: nat, seg: string)
    requires WellFormed(t) && InArena(t, f) && i < |f|
    ensures Layer(t, rx, f[..i + 1], seg) == Layer(t, rx, f[..i], seg) + Expand(t, rx, f[i], seg)
  {
    assert f[..i + 1][..i] == f[..i];
  }

  /** The middleware of the nodes `ns`, in order. */
  function MdlsOf<H, M>(t: Trie<H, M>, ns: seq<nat>): seq<M>
    requires InArena(t, ns)
    decreases |ns|
  {
    if ns == [] then [] else MdlsOf(t, ns[..|ns| - 1]) + t.nodes[ns[|ns| - 1]].mdls
  }

  lemma {:induction false} MdlsOfAppend<H, M>(t: Trie<H, M>, a: seq<nat>, b: seq<nat>)
    requires InArena(t, a) && InArena(t, b)
    ensures InArena(t, a + b) && MdlsOf(t, a + b) == MdlsOf(t, a) + MdlsOf(t, b)
    decreases |b|
  {
    if b == [] {
      assert a + b == a;
    } else {
      var b' := b[..|b| - 1];
      assert (a + b)[..|a + b| - 1] == a + b';
      MdlsOfAppend(t, a, b');
    }
  }

  /**
   * The loop of `findMdls` from frontier `f`: for each segment in turn the
   * middleware of the next frontier, stopping when the segments or the
   * frontier run out.
   */
  function Collect<H, M>(t: Trie<H, M>, rx: RegexOracle, f: seq<nat>, segs: seq<string>): seq<M>
    requires WellFormed(t) && InArena(t, f)
    decreases |segs|
  {
    if segs == [] || f == [] then []
    else
      var next := Layer(t, rx, f, segs[0]);
      MdlsOf(t, next) + Collect(t, rx, next, segs[1..])
  }

  /** `findMdls(root, segs)`: the root's middleware, then the layers'. */
  function FindMdlsSpec<H, M>(t: Trie<H, M>, rx: RegexOracle, root: nat, segs: seq<string>): seq<M>
    requires WellFormed(t) && root < |t.nodes|
  {
    t.nodes[root].mdls + Collect(t, rx, [root], segs)
  }

  /** The frontier after following every segment of `segs` from `f`. */
  function Frontier<H, M>(t: Trie<H, M>, rx: RegexOracle, f: seq<nat>, segs: seq<string>): (r: seq<nat>)
    requires WellFormed(t) && InArena(t, f)
    ensures InArena(t, r)
    decreases |segs|
  {
    if segs == [] then f else Frontier(t, rx, Layer(t, rx, f, segs[0]), segs[1..])
  }

  lemma {:induction false} FrontierOfEmpty<H, M>(t: Trie<H, M>, rx: RegexOracle, segs: seq<string>)
    requires WellFormed(t)
    ensures Frontier(t, rx, [], segs) == []
    decreases |segs|
  {
    if segs != [] {
      FrontierOfEmpty(t, rx, segs[1..]);
    }
  }

  /**
   * One more segment adds exactly the middleware of the frontier it leads
   * to: the result grows layer by layer and an earlier layer's part never
   * changes. The early exit on an empty frontier loses nothing.
   */
  lemma {:induction false} CollectExtend<H, M>(t: Trie<H, M>, rx: RegexOracle, f: seq<nat>, segs: seq<string>, seg: string)
    requires WellFormed(t) && InArena(t, f)
    ensures Collect(t, rx, f, segs + [seg]) == Collect(t, rx, f, segs) + MdlsOf(t, Frontier(t, rx, f, segs + [seg]))
    decreases |segs|
  {
    if f == [] {
      FrontierOfEmpty(t, rx, segs + [seg]);
    } else if segs == [] {
      assert Frontier(t, rx, Layer(t, rx, f, seg), []) == Layer(t, rx, f, seg);
      assert [seg][1..] == [];
    } else {
      var next := Layer(t, rx, f, segs[0]);
      var segs' := segs + [seg];
      SnocTail(segs, seg);
      CollectCons(t, rx, f, segs');
      FrontierCons(t, rx, f, segs');
      CollectCons(t, rx, f, segs);
      CollectExtend(t, rx, next, segs[1..], seg);
      Assoc(MdlsOf(t, next), Collect(t, rx, next, segs[1..]), MdlsOf(t, Frontier(t, rx, f, segs')));
    }
  }

  lemma CollectCons<H, M>(t: Trie<H, M>, rx: RegexOracle, f: seq<nat>, segs: seq<string>)
    requires WellFormed(t) && InArena(t, f) && f != [] && segs != []
    ensures Collect(t, rx, f, segs) == MdlsOf(t, Layer(t, rx, f, segs[0])) + Collect(t, rx, Layer(t, rx, f, segs[0]), segs[1..])
  {
  }

  // ---------------------------------------------------------------------
  // findRoute, whole
  // ---------------------------------------------------------------------

  /**
   * `findRoute(method, path)`: `None` is "not found". An unknown method is
   * not found; "/" is the root with the root's middleware and no
   * parameters; any other path is walked segment by segment.
   */
  function FindRouteSpec<H, M>(t: Trie<H, M>, rx: RegexOracle, verb: string, path: string): (r: Option<MatchInfo<M>>)
    requires WellFormed(t)
    ensures r.Some? ==> r.value.node < |t.nodes|
  {
    if verb !in t.trees then None
    else
      var root := t.trees[verb];
      if path == "/" then Some(MatchInfo(root, map[], t.nodes[root].mdls))
      else
        var segs := Split(path)[1..];
        match Walk(t, rx, Step(root, None, map[]), segs)
        case None => None
        case Some((n, ps)) => Some(MatchInfo(n, ps, FindMdlsSpec(t, rx, root, segs)))
  }

  /**
   * The whole of `findRoute` for a path other than "/", by its trail from
   * the method's root: the trail's end when every segment found a child,
   * else the last star node on the trail, else not found; the parameters
   * are those captured along the trail and the middleware is `findMdls`'s.
   * The node returned need not carry a handler.
   */
  lemma FindRouteByTrail<H, M>(t: Trie<H, M>, rx: RegexOracle, verb: string, path: string)
    requires WellFormed(t) && verb in t.trees && path != "/"
    ensures var root := t.trees[verb];
      var segs := Split(path)[1..];
      var tr := Trail(t, rx, root, segs);
      var ps := CaptureAll(t, map[], tr, segs);
      var ms := FindMdlsSpec(t, rx, root, segs);
      FindRouteSpec(t, rx, verb, path) ==
        if |tr| == |segs| then Some(MatchInfo(Reached(root, tr), ps, ms))
        else match LastStar(t, tr)
          case Some(k) => Some(MatchInfo(tr[k], ps, ms))
          case None => None
  {
    WalkByTrail(t, rx, Step(t.trees[verb], None, map[]), Split(path)[1..]);
  }

  /**
   * The parameters `findRoute` reports are exactly the names captured on
   * its trail, each holding the segment of its last capture.
   */
  lemma FindRouteParams<H, M>(t: Trie<H, M>, rx: RegexOracle, verb: string, path: string, key: string)
    requires WellFormed(t) && FindRouteSpec(t, rx, verb, path).Some? && path != "/"
    ensures var segs := Split(path)[1..];
      var tr := Trail(t, rx, t.trees[verb], segs);
      var ps := FindRouteSpec(t, rx, verb, path).value.pathParams;
      var lc := LastCapture(t, tr, key);
      && (key in ps <==> lc.Some?)
      && (lc.Some? ==> ps[key] == segs[lc.value])
  {
    var segs := Split(path)[1..];
    FindRouteByTrail(t, rx, verb, path);
    CaptureAllLastWins(t, map[], Trail(t, rx, t.trees[verb], segs), segs, key);
  }

  /** A step of the lookup walk is an edge the middleware collection follows. */
  lemma ChildOfIsEdge<H, M>(t: Trie<H, M>, rx: RegexOracle, n: nat, seg: string)
    requires WellFormed(t) && n < |t.nodes| && ChildOf(t, rx, n, seg).Some?
    ensures Edge(t, rx, n, seg, ChildOf(t, rx, n, seg).value)
  {
    assert NodeOk(t.nodes, t.nodes[n]);
  }

  /** A non-empty trail starts with the child the first segment selects. */
  lemma TrailCons<H, M>(t: Trie<H, M>, rx: RegexOracle, n: nat, segs: seq<string>)
    requires WellFormed(t) && n < |t.nodes| && Trail(t, rx, n, segs) != []
    ensures segs != [] && Trail(t, rx, n, segs)[0] < |t.nodes|
    ensures ChildOf(t, rx, n, segs[0]) == Some(Trail(t, rx, n, segs)[0])
    ensures Trail(t, rx, n, segs)[1..] == Trail(t, rx, Trail(t, rx, n, segs)[0], segs[1..])
  {
  }

  /**
   * Every node the lookup walk passes through for the first `k + 1`
   * segments is in the frontier `findMdls` reaches after those segments.
   */
  lemma {:induction false} TrailInFrontier<H, M>(t: Trie<H, M>, rx: RegexOracle, f: seq<nat>, i: nat, segs: seq<string>, k: nat)
    requires WellFormed(t) && InArena(t, f) && i < |f|
    requires k < |Trail(t, rx, f[i], segs)|
    ensures Trail(t, rx, f[i], segs)[k] in Frontier(t, rx, f, segs[..k + 1])
    decreases |segs|, 1
  {
    var j := TrailHeadInLayer(t, rx, f, i, segs);
    FrontierPrefix(t, rx, f, segs, k);
    if k == 0 {
      var next := Layer(t, rx, f, segs[0]);
      assert segs[1..][..0] == [];
      assert next[j] in Frontier(t, rx, next, []);
    } else {
      TrailInFrontierDeeper(t, rx, f, i, segs, k, j);
    }
  }

  /** The inductive step of `TrailInFrontier`: the walk continues from the next layer's `j`-th node. */
  lemma {:induction false} TrailInFrontierDeeper<H, M>(t: Trie<H, M>, rx: RegexOracle, f: seq<nat>, i: nat, segs: seq<string>, k: nat, j: nat)
    requires WellFormed(t) && InArena(t, f) && i < |f|
    requires 0 < k < |Trail(t, rx, f[i], segs)|
    requires segs != [] && j < |Layer(t, rx, f, segs[0])|
    requires Layer(t, rx, f, segs[0])[j] == Trail(t, rx, f[i], segs)[0]
    ensures Trail(t, rx, f[i], segs)[k] in Frontier(t, rx, Layer(t, rx, f, segs[0]), segs[1..][..k])
    decreases |segs|, 0
  {
    var next, rest := Layer(t, rx, f, segs[0]), segs[1..];
    TrailStep(t, rx, f[i], segs, k);
    TrailInFrontier(t, rx, next, j, rest, k - 1);
    assert Trail(t, rx, f[i], segs)[k] == Trail(t, rx, next[j], rest)[k - 1];
    assert rest[..k - 1 + 1] == rest[..k];
  }

  /** Past its first node, a trail is the trail from that node over the remaining segments. */
  lemma TrailStep<H, M>(t: Trie<H, M>, rx: RegexOracle, n: nat, segs: seq<string>, k: nat)
    requires WellFormed(t) && n < |t.nodes| && 0 < k < |Trail(t, rx, n, segs)|
    ensures segs != [] && Trail(t, rx, n, segs)[0] < |t.nodes|
    ensures k - 1 < |Trail(t, rx, Trail(t, rx, n, segs)[0], segs[1..])|
    ensures Trail(t, rx, n, segs)[k] == Trail(t, rx, Trail(t, rx, n, segs)[0], segs[1..])[k - 1]
  {
    TrailCons(t, rx, n, segs);
  }

  /** The frontier after `k + 1` segments is the one `k` segments past the first layer. */
  lemma FrontierPrefix<H, M>(t: Trie<H, M>, rx: RegexOracle, f: seq<nat>, segs: seq<string>, k: nat)
    requires WellFormed(t) && InArena(t, f) && k < |segs|
    ensures Frontier(t, rx, f, segs[..k + 1]) == Frontier(t, rx, Layer(t, rx, f, segs[0]), segs[1..][..k])
  {
    PrefixTail(segs, k);
    FrontierCons(t, rx, f, segs[..k + 1]);
  }

  /** The first node of a trail from a frontier node is in the next layer, at `j`. */
  lemma TrailHeadInLayer<H, M>(t: Trie<H, M>, rx: RegexOracle, f: seq<nat>, i: nat, segs: seq<string>) returns (j: nat)
    requires WellFormed(t) && InArena(t, f) && i < |f|
    requires Trail(t, rx, f[i], segs) != []
    ensures segs != [] && j < |Layer(t, rx, f, segs[0])|
    ensures Layer(t, rx, f, segs[0])[j] == Trail(t, rx, f[i], segs)[0]
  {
    var c := Trail(t, rx, f[i], segs)[0];
    ChildOfIsEdge(t, rx, f[i], segs[0]);
    assert Edge(t, rx, f[i], segs[0], c);
    assert EdgeFrom(t, rx, f, segs[0], c);
    LayerEdges(t, rx, f, segs[0], c);
    var next := Layer(t, rx, f, segs[0]);
    j :| 0 <= j < |next| && next[j] == c;
  }

  lemma FrontierCons<H, M>(t: Trie<H, M>, rx: RegexOracle, f: seq<nat>, segs: seq<string>)
    requires WellFormed(t) && InArena(t, f) && segs != []
    ensures Frontier(t, rx, f, segs) == Frontier(t, rx, Layer(t, rx, f, segs[0]), segs[1..])
  {
  }

  /** Adding segments only extends what `Collect` returns. */
  lemma {:induction false} CollectPrefix<H, M>(t: Trie<H, M>, rx: RegexOracle, f: seq<nat>, segs: seq<string>, k: nat)
    requires WellFormed(t) && InArena(t, f) && k <= |segs|
    ensures Collect(t, rx, f, segs[..k]) <= Collect(t, rx, f, segs)
    decreases |segs|
  {
    if k < |segs| {
      var init := segs[..|segs| - 1];
      assert segs == init + [segs[|segs| - 1]];
      CollectExtend(t, rx, f, init, segs[|segs| - 1]);
      assert init[..k] == segs[..k];
      CollectPrefix(t, rx, f, init, k);
    } else {
      assert segs[..k] == segs;
    }
  }

  /** `b[lo..hi]` is `a`. */
  ghost predicate InfixAt<T>(a: seq<T>, b: seq<T>, lo: int)
  {
    0 <= lo && lo + |a| <= |b| && b[lo..lo + |a|] == a
  }

  /** A node's middleware appears, contiguously, in the middleware of any node list holding it. */
  lemma {:induction false} MdlsOfHolds<H, M>(t: Trie<H, M>, ns: seq<nat>, m: nat)
    requires InArena(t, ns) && m in ns
    ensures exists lo :: InfixAt(t.nodes[m].mdls, MdlsOf(t, ns), lo)
    decreases |ns|
  {
    var init := ns[..|ns| - 1];
    var whole := MdlsOf(t, ns);
    if ns[|ns| - 1] == m {
      assert InfixAt(t.nodes[m].mdls, whole, |MdlsOf(t, init)|);
    } else {
      assert m in init;
      MdlsOfHolds(t, init, m);
      var lo :| InfixAt(t.nodes[m].mdls, MdlsOf(t, init), lo);
      assert whole[lo..lo + |t.nodes[m].mdls|] == MdlsOf(t, init)[lo..lo + |t.nodes[m].mdls|];
      assert InfixAt(t.nodes[m].mdls, whole, lo);
    }
  }

  lemma InfixShift<T>(a: seq<T>, mid: seq<T>, pre: seq<T>, w: seq<T>, lo: int)
    requires InfixAt(a, mid, lo) && pre + mid <= w
    ensures InfixAt(a, w, |pre| + lo)
  {
    assert w[|pre| + lo..|pre| + lo + |a|] == (pre + mid)[|pre| + lo..|pre| + lo + |a|];
  }

  lemma PrefixTail<T>(s: seq<T>, k: nat)
    requires k < |s|
    ensures s[..k + 1][0] == s[0] && s[..k + 1][1..] == s[1..][..k]
  {
  }

  lemma SnocTail<T>(s: seq<T>, x: T)
    requires s != []
    ensures (s + [x])[0] == s[0] && (s + [x])[1..] == s[1..] + [x]
  {
  }

  lemma SuffixTail<T>(s: seq<T>, k: nat)
    requires k < |s|
    ensures s[k..][0] == s[k] && s[k..][1..] == s[k + 1..]
  {
  }

  lemma Assoc<T>(a: seq<T>, b: seq<T>, c: seq<T>)
    ensures a + b + c == a + (b + c)
  {
  }

  lemma SliceSnoc<T>(s: seq<T>, k: nat)
    requires k < |s|
    ensures s[..k + 1] == s[..k] + [s[k]]
  {
  }

  lemma PrefixUnder<T>(p: seq<T>, a: seq<T>, b: seq<T>, w: seq<T>)
    requires a + b <= w
    ensures p + a + b <= p + w
  {
    assert p + a + b == p + (a + b);
  }

  /**
   * The middleware of every node the lookup walk passes through appears,
   * in its registered order, in what `findMdls` collects for the same
   * segments.
   */
  lemma WalkMdlsCollected<H, M>(t: Trie<H, M>, rx: RegexOracle, root: nat, segs: seq<string>, k: nat)
    requires WellFormed(t) && root < |t.nodes|
    requires k < |Trail(t, rx, root, segs)|
    ensures exists lo :: InfixAt(t.nodes[Trail(t, rx, root, segs)[k]].mdls, FindMdlsSpec(t, rx, root, segs), lo)
  {
    var m := Trail(t, rx, root, segs)[k];
    var f := [root];
    TrailInFrontier(t, rx, f, 0, segs, k);
    SliceSnoc(segs, k);
    var front := Frontier(t, rx, f, segs[..k + 1]);
    MdlsOfHolds(t, front, m);
    var lo :| InfixAt(t.nodes[m].mdls, MdlsOf(t, front), lo);
    CollectExtend(t, rx, f, segs[..k], segs[k]);
    CollectPrefix(t, rx, f, segs, k + 1);
    var pre := t.nodes[root].mdls + Collect(t, rx, f, segs[..k]);
    PrefixUnder(t.nodes[root].mdls, Collect(t, rx, f, segs[..k]), MdlsOf(t, front), Collect(t, rx, f, segs));
    InfixShift(t.nodes[m].mdls, MdlsOf(t, front), pre, FindMdlsSpec(t, rx, root, segs), lo);
  }
}
