/**
 * The `router` of web/route.go as an object whose state the operations
 * update in place: `trees` maps each HTTP method to its root, `nodes` is
 * the arena whose indices stand for `*node` references. Each method does what the Go method
 * does, step by step, and is proved to end in the state (and with the
 * result) the specification functions of trie.dfy and lookup.dfy give.
 */
module Routing {
  import opened Wrappers
  import opened RouteKinds
  import opened Tokens
  import opened Paths
  import opened RouteTrie
  import opened Lookup

  class Router<H, M> {
    var trees: map<string, nat>
    var nodes: seq<Node<H, M>>

    /** The router's state as a value. */
    function Model(): Trie<H, M>
      reads this
    {
      Trie(trees, nodes)
    }

    ghost predicate Valid()
      reads this
    {
      WellFormed(Model())
    }

    /** `newRouter`: no method has a tree yet. */
    constructor ()
      ensures Valid() && Model() == EmptyTrie()
    {
      trees := map[];
      nodes := [];
    }

    /** `node.childOrCreate(seg)` on node `n`. */
    method ChildOrCreate(n: nat, seg: string) returns (r: Result<nat, RouteError>)
      requires Valid() && n < |nodes| && seg != ""
      modifies this
      ensures Valid()
      ensures match RouteTrie.ChildOrCreate(old(Model()), n, seg)
        case Ok((u, c)) => r == Ok(c) && Model() == u
        case Err(e) => r == Err(e) && Model() == old(Model())
    {
      ghost var t := Model();
      ghost var spec := RouteTrie.ChildOrCreate(t, n, seg);
      var x := nodes[n];
      var next := |nodes|;
      if seg == "*" {
        assert Classify(seg) == StarTok;
        if x.regChild.Some? {
          return Err(KindConflict(Reg, Any));
        }
        if x.paramChild.Some? {
          return Err(KindConflict(Param, Any));
        }
        if x.starChild.None? {
          nodes := nodes[n := x.(starChild := Some(next))] + [NewNode(Any, seg, "")];
          assert Model() == Grow(t, n, Any, seg, "") && spec == Ok((Model(), next));
        }
        return Ok(nodes[n].starChild.value);
      }
      var reg := RegName(seg);
      if reg.Some? {
        assert Classify(seg) == RegTok(reg.value);
        if x.starChild.Some? {
          return Err(KindConflict(Any, Reg));
        }
        if x.paramChild.Some? {
          return Err(KindConflict(Param, Reg));
        }
        if x.regChild.None? {
          nodes := nodes[n := x.(regChild := Some(next))] + [NewNode(Reg, seg, reg.value)];
          assert Model() == Grow(t, n, Reg, seg, reg.value) && spec == Ok((Model(), next));
        }
        return Ok(nodes[n].regChild.value);
      }
      if seg[0] == ':' {
        assert Classify(seg) == ParamTok(seg[1..]);
        if x.starChild.Some? {
          return Err(KindConflict(Any, Param));
        }
        if x.regChild.Some? {
          return Err(KindConflict(Reg, Param));
        }
        if x.paramChild.None? {
          nodes := nodes[n := x.(paramChild := Some(next))] + [NewNode(Param, seg, seg[1..])];
          assert Model() == Grow(t, n, Param, seg, seg[1..]) && spec == Ok((Model(), next));
        } else if nodes[x.paramChild.value].path != seg {
          return Err(ParamNameConflict(nodes[x.paramChild.value].path, seg));
        }
        return Ok(nodes[n].paramChild.value);
      }
      assert Classify(seg) == StaticTok;
      if seg !in x.children {
        nodes := nodes[n := x.(children := x.children[seg := next])] + [NewNode(Static, seg, "")];
        assert Model() == Grow(t, n, Static, seg, "") && spec == Ok((Model(), next));
      }
      return Ok(nodes[n].children[seg]);
    }

    /**
     * `addRoute(verb, path, handler, mdls...)`; the error is the panic it
     * raises, if any, and the state is what it leaves behind either way.
     */
    method AddRoute(verb: string, path: string, handler: Option<H>, mdls: seq<M>) returns (err: Option<RouteError>)
      requires Valid()
      modifies this
      ensures Valid()
      ensures Outcome(Model(), err) == Register(old(Model()), verb, path, handler, mdls)
    {
      ghost var t0 := Model();
      err := ValidatePath(path);
      if err.Some? {
        return;
      }
      var root: nat;
      if verb in trees {
        root := trees[verb];
      } else {
        root := |nodes|;
        nodes := nodes + [RootNode()];
        trees := trees[verb := root];
      }
      assert (Model(), root) == RootFor(t0, verb);
      err := AddRouteAt(root, path, handler, mdls);
    }

    /** `addRoute` once the path is valid and the verb's root `root` exists. */
    method AddRouteAt(root: nat, path: string, handler: Option<H>, mdls: seq<M>) returns (err: Option<RouteError>)
      requires Valid() && root < |nodes|
      modifies this
      ensures Valid()
      ensures Outcome(Model(), err) == RegisterAt(old(Model()), root, path, handler, mdls)
    {
      ghost var t1 := Model();
      if path == "/" {
        err := SetHandler(root, handler);
        if err.Some? {
          assert RegisterAt(t1, root, path, handler, mdls) == Outcome(Model(), err);
          return;
        }
        ghost var n1 := nodes;
        AppendMdls(root, mdls);
        UpdateTwice(t1.nodes, root, n1[root], nodes[root]);
        assert nodes[root] == Bind(t1.nodes[root], handler, mdls);
        assert RegisterAt(t1, root, path, handler, mdls) == Outcome(Model(), None);
        return None;
      }
      var segs := Split(path)[1..];
      var cur: nat, walkErr := InsertPath(root, segs);
      if walkErr.Some? {
        assert RegisterAt(t1, root, path, handler, mdls) == Outcome(Model(), walkErr);
        return walkErr;
      }
      ghost var tw := Model();
      assert InsertSegs(t1, root, segs) == Walked(tw, cur, None);
      err := SetHandler(cur, handler);
      if err.Some? {
        assert RegisterAt(t1, root, path, handler, mdls) == Outcome(Model(), err);
        return;
      }
      ghost var n1 := nodes;
      nodes := nodes[cur := nodes[cur].(route := path)];
      ghost var n2 := nodes;
      AppendMdls(cur, mdls);
      UpdateTwice(tw.nodes, cur, n1[cur], n2[cur]);
      UpdateTwice(tw.nodes, cur, n2[cur], nodes[cur]);
      assert nodes[cur] == Bind(tw.nodes[cur], handler, mdls).(route := path);
      assert RegisterAt(t1, root, path, handler, mdls) == Outcome(Model(), None);
      return None;
    }

    /**
     * The handler step of `addRoute`: a node that already has a handler
     * refuses a second one; a missing handler leaves the node's alone.
     */
    method SetHandler(c: nat, handler: Option<H>) returns (err: Option<RouteError>)
      requires c < |nodes|
      modifies this
      ensures trees == old(trees)
      ensures handler.Some? && old(nodes[c].handler).Some? ==> err == Some(DuplicateRoute) && nodes == old(nodes)
      ensures !(handler.Some? && old(nodes[c].handler).Some?) ==>
        err == None && nodes == old(nodes)[c := old(nodes[c]).(handler := if handler.Some? then handler else old(nodes[c].handler))]
    {
      if handler.Some? {
        if nodes[c].handler.Some? {
          return Some(DuplicateRoute);
        }
        nodes := nodes[c := nodes[c].(handler := handler)];
      }
      return None;
    }

    /**
     * The loop of `addRoute` over the segments below `root`: an empty
     * segment stops it, so does a failing `childOrCreate`; the node reached
     * is returned together with the error, if any.
     */
    method InsertPath(root: nat, segs: seq<string>) returns (cur: nat, err: Option<RouteError>)
      requires Valid() && root < |nodes|
      modifies this
      ensures Valid() && cur < |nodes|
      ensures InsertSegs(old(Model()), root, segs) == Walked(Model(), cur, err)
    {
      ghost var t1 := Model();
      cur := root;
      for i := 0 to |segs|
        invariant Valid() && cur < |nodes|
        invariant InsertSegs(t1, root, segs) == InsertSegs(Model(), cur, segs[i..])
      {
        SuffixTail(segs, i);
        if segs[i] == "" {
          return cur, Some(EmptySegment);
        }
        var r := ChildOrCreate(cur, segs[i]);
        if r.Err? {
          return cur, Some(r.error);
        }
        cur := r.value;
      }
      return cur, None;
    }

    /** The loop at the end of `addRoute` appending the middleware one by one to node `c`. */
    method AppendMdls(c: nat, mdls: seq<M>)
      requires c < |nodes|
      modifies this
      ensures trees == old(trees)
      ensures nodes == old(nodes)[c := old(nodes)[c].(mdls := old(nodes)[c].mdls + mdls)]
    {
      ghost var x0 := nodes[c];
      assert x0.(mdls := x0.mdls + mdls[..0]) == x0;
      for j := 0 to |mdls|
        invariant trees == old(trees)
        invariant nodes == old(nodes)[c := x0.(mdls := x0.mdls + mdls[..j])]
      {
        SliceSnoc(mdls, j);
        assert x0.mdls + mdls[..j] + [mdls[j]] == x0.mdls + mdls[..j + 1];
        nodes := nodes[c := nodes[c].(mdls := nodes[c].mdls + [mdls[j]])];
      }
      assert mdls[..|mdls|] == mdls;
    }

    /** `findRoute(verb, path)`, with `None` for "not found"; the router is not changed. */
    method FindRoute(rx: RegexOracle, verb: string, path: string) returns (r: Option<MatchInfo<M>>)
      requires Valid()
      ensures r == FindRouteSpec(Model(), rx, verb, path)
    {
      if verb !in trees {
        return None;
      }
      var root := trees[verb];
      if path == "/" {
        return Some(MatchInfo(root, map[], nodes[root].mdls));
      }
      var params: map<string, string> := map[];
      var anyNode: Option<nat> := None;
      var segs := Split(path)[1..];
      var cur := root;
      for i := 0 to |segs|
        invariant StepOk(Model(), Step(cur, anyNode, params))
        invariant Walk(Model(), rx, Step(root, None, map[]), segs) == Walk(Model(), rx, Step(cur, anyNode, params), segs[i..])
      {
        SuffixTail(segs, i);
        var child := ChildOf(Model(), rx, cur, segs[i]);
        if child.None? {
          if anyNode.Some? {
            var ms := FindMdls(rx, root, segs);
            return Some(MatchInfo(anyNode.value, params, ms));
          }
          return None;
        }
        var c := child.value;
        if nodes[c].typ == Any {
          anyNode := Some(c);
        }
        if nodes[c].typ == Reg || nodes[c].typ == Param {
          params := params[nodes[c].paramName := segs[i]];
        }
        cur := c;
      }
      var ms := FindMdls(rx, root, segs);
      return Some(MatchInfo(cur, params, ms));
    }

    /** A child `findMdls` visits: its middleware is appended and it joins the queue. */
    method Visit(o: Option<nat>, queue: seq<nat>, ms: seq<M>) returns (queue': seq<nat>, ms': seq<M>)
      requires o.Some? ==> o.value < |nodes|
      ensures InArena(Model(), Slot(o))
      ensures queue' == queue + Slot(o) && ms' == ms + MdlsOf(Model(), Slot(o))
    {
      queue', ms' := queue, ms;
      if o.Some? {
        ms' := ms' + nodes[o.value].mdls;
        queue' := queue' + [o.value];
        assert Slot(o)[..0] == [];
      }
    }

    /**
     * One pass of the inner loop of `findMdls` over frontier node `n`: the
     * star, param, matching regex and static child, in that order, join the
     * queue and contribute their middleware.
     */
    method VisitChildren(rx: RegexOracle, n: nat, seg: string, queue: seq<nat>, ms: seq<M>) returns (queue': seq<nat>, ms': seq<M>)
      requires Valid() && n < |nodes|
      ensures queue' == queue + Expand(Model(), rx, n, seg)
      ensures ms' == ms + MdlsOf(Model(), Expand(Model(), rx, n, seg))
    {
      ghost var t := Model();
      var x := nodes[n];
      assert NodeOk(t.nodes, x);
      var reg: Option<nat> := None;
      if x.regChild.Some? && MatchRegExpr(rx, nodes[x.regChild.value].path, seg) {
        reg := x.regChild;
      }
      var child := if seg in x.children then Some(x.children[seg]) else None;
      ghost var s1, s2, s3, s4 := Slot(x.starChild), Slot(x.paramChild), Slot(reg), Slot(child);
      queue', ms' := Visit(x.starChild, queue, ms);
      queue', ms' := Visit(x.paramChild, queue', ms');
      Assoc(queue, s1, s2);
      Assoc(ms, MdlsOf(t, s1), MdlsOf(t, s2));
      MdlsOfAppend(t, s1, s2);
      queue', ms' := Visit(reg, queue', ms');
      Assoc(queue, s1 + s2, s3);
      Assoc(ms, MdlsOf(t, s1 + s2), MdlsOf(t, s3));
      MdlsOfAppend(t, s1 + s2, s3);
      queue', ms' := Visit(child, queue', ms');
      Assoc(queue, s1 + s2 + s3, s4);
      Assoc(ms, MdlsOf(t, s1 + s2 + s3), MdlsOf(t, s4));
      MdlsOfAppend(t, s1 + s2 + s3, s4);
      assert Expand(t, rx, n, seg) == s1 + s2 + s3 + s4;
    }

    /**
     * The inner loop of `findMdls` for one segment: every node of the
     * frontier `queue`, front to back, appends its children to the queue and
     * their middleware to `ms`.
     */
    method VisitLayer(rx: RegexOracle, seg: string, q0: seq<nat>, ms0: seq<M>) returns (queue: seq<nat>, ms: seq<M>)
      requires Valid() && InArena(Model(), q0)
      ensures queue == q0 + Layer(Model(), rx, q0, seg)
      ensures ms == ms0 + MdlsOf(Model(), Layer(Model(), rx, q0, seg))
    {
      ghost var t := Model();
      queue, ms := q0, ms0;
      var l := |queue|;
      assert q0[..0] == [];
      for i := 0 to l
        invariant queue == q0 + Layer(t, rx, q0[..i], seg)
        invariant ms == ms0 + MdlsOf(t, Layer(t, rx, q0[..i], seg))
      {
        var n := queue[i];
        assert n == q0[i];
        ghost var li := Layer(t, rx, q0[..i], seg);
        ghost var e := Expand(t, rx, n, seg);
        queue, ms := VisitChildren(rx, n, seg, queue, ms);
        LayerSnoc(t, rx, q0, i, seg);
        Assoc(q0, li, e);
        Assoc(ms0, MdlsOf(t, li), MdlsOf(t, e));
        MdlsOfAppend(t, li, e);
      }
      assert q0[..l] == q0;
    }

    /** One round of the outer loop of `findMdls`: the layer below `q0`, its middleware appended to `ms0`. */
    method NextLayer(rx: RegexOracle, seg: string, q0: seq<nat>, ms0: seq<M>) returns (queue: seq<nat>, ms: seq<M>)
      requires Valid() && InArena(Model(), q0)
      ensures queue == Layer(Model(), rx, q0, seg)
      ensures ms == ms0 + MdlsOf(Model(), queue)
    {
      var l := |q0|;
      queue, ms := VisitLayer(rx, seg, q0, ms0);
      queue := queue[l..];
    }

    /** `findMdls(root, segs)`: the breadth-first frontier loop; the router is not changed. */
    method FindMdls(rx: RegexOracle, root: nat, segs: seq<string>) returns (ms: seq<M>)
      requires Valid() && root < |nodes|
      ensures ms == FindMdlsSpec(Model(), rx, root, segs)
    {
      ghost var t := Model();
      ms := nodes[root].mdls;
      var queue := [root];
      assert segs[0..] == segs;
      for s := 0 to |segs|
        invariant InArena(t, queue)
        invariant FindMdlsSpec(t, rx, root, segs) == ms + Collect(t, rx, queue, segs[s..])
      {
        if |queue| == 0 {
          assert Collect(t, rx, queue, segs[s..]) == [];
          assert ms + [] == ms;
          break;
        }
        var seg := segs[s];
        SuffixTail(segs, s);
        ghost var ms0 := ms;
        ghost var next := Layer(t, rx, queue, seg);
        assert Collect(t, rx, queue, segs[s..]) == MdlsOf(t, next) + Collect(t, rx, next, segs[s + 1..]);
        Assoc(ms0, MdlsOf(t, next), Collect(t, rx, next, segs[s + 1..]));
        queue, ms := NextLayer(rx, seg, queue, ms);
      }
      assert Collect(t, rx, queue, []) == [];
    }
  }

  lemma UpdateTwice<T>(s: seq<T>, i: nat, a: T, b: T)
    requires i < |s|
    ensures s[i := a][i := b] == s[i := b]
  {
  }
}
