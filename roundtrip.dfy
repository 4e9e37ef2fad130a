/**
 * Registration and lookup together: a route `addRoute` registered is what
 * `findRoute` returns for the same method and path, with the handler and
 * the middleware registered there, in the trie registration left and in
 * every trie later registrations grow it into.
 */
module RoundTrip {
  import opened Wrappers
  import opened RouteKinds
  import opened Tokens
  import opened Paths
  import opened RouteTrie
  import opened Registration
  import opened Lookup

  /** No segment is a regex token, so no lookup step depends on a pattern matching. */
  predicate NoRegexSegs(segs: seq<string>)
  {
    forall k :: 0 <= k < |segs| ==> RegName(segs[k]).None?
  }

  /**
   * For a segment that is not a regex token, `childOf` selects the very
   * child `childOrCreate` returned for it, in the trie it left and in any
   * trie that grows from there.
   */
  lemma ChildOfFindsCreated<H, M>(t: Trie<H, M>, rx: RegexOracle, n: nat, seg: string, u: Trie<H, M>)
    requires WellFormed(t) && n < |t.nodes| && seg != "" && RegName(seg).None?
    requires ChildOrCreate(t, n, seg).Ok?
    requires WellFormed(u) && Grows(ChildOrCreate(t, n, seg).value.0, u)
    ensures n < |u.nodes| && ChildOf(u, rx, n, seg) == Some(ChildOrCreate(t, n, seg).value.1)
  {
    var (t1, c) := ChildOrCreate(t, n, seg).value;
    ChildOrCreateSlot(t, n, seg);
    assert NodeGrows(t1.nodes[n], u.nodes[n]);
    assert NodeOk(u.nodes, u.nodes[n]);
  }

  /**
   * The segments a successful walk of `addRoute` inserted, none of them a
   * regex token, are followed to the end by the lookup walk, which stops
   * at the node the insertion ended at.
   */
  lemma {:induction false} InsertSegsFound<H, M>(t: Trie<H, M>, rx: RegexOracle, n: nat, segs: seq<string>, u: Trie<H, M>)
    requires WellFormed(t) && n < |t.nodes| && NoRegexSegs(segs)
    requires InsertSegs(t, n, segs).err.None?
    requires WellFormed(u) && Grows(InsertSegs(t, n, segs).trie, u)
    ensures n < |u.nodes|
    ensures |Trail(u, rx, n, segs)| == |segs|
    ensures Reached(n, Trail(u, rx, n, segs)) == InsertSegs(t, n, segs).node
    decreases |segs|
  {
    if segs != [] {
      var (t1, c) := ChildOrCreate(t, n, segs[0]).value;
      var w := InsertSegs(t1, c, segs[1..]);
      assert NoRegexSegs(segs[1..]) by {
        forall k | 0 <= k < |segs[1..]| ensures RegName(segs[1..][k]).None? {
          assert segs[1..][k] == segs[k + 1];
        }
      }
      InsertSegsFound(t1, rx, c, segs[1..], u);
      GrowsTrans(t1, w.trie, u);
      ChildOfFindsCreated(t, rx, n, segs[0], u);
      var rest := Trail(u, rx, c, segs[1..]);
      assert Trail(u, rx, n, segs) == [c] + rest;
      assert Reached(n, [c] + rest) == Reached(c, rest);
    }
  }

  /**
   * A successful registration is found again: looking up the same method
   * and path, now or after any later registrations, reaches the node it
   * bound, without the star fallback, and that node holds the handler
   * given. Paths with a regex segment are excluded: whether those match is
   * up to the regex engine.
   */
  lemma RegisteredRouteFound<H, M>(t: Trie<H, M>, rx: RegexOracle, verb: string, path: string, handler: Option<H>, mdls: seq<M>, u: Trie<H, M>)
    requires WellFormed(t) && WellFormed(u) && NoRegexSegs(Segs(path))
    requires Register(t, verb, path, handler, mdls).err.None?
    requires Grows(Register(t, verb, path, handler, mdls).trie, u)
    ensures var r := FindRouteSpec(u, rx, verb, path);
      && r.Some? && r.value.node == Target(t, verb, path)
      && (handler.Some? ==> u.nodes[r.value.node].handler == handler)
  {
    var o := Register(t, verb, path, handler, mdls);
    var (t1, root) := RootFor(t, verb);
    var c := Target(t, verb, path);
    RegisterBinds(t, verb, path, handler, mdls);
    RegisterTargetPersists(t, verb, path, handler, mdls, u);
    assert NodeGrows(o.trie.nodes[c], u.nodes[c]);
    if path != "/" {
      assert ValidatePath(path).None? && o == RegisterAt(t1, root, path, handler, mdls);
      RegisterAfterWalk(t1, root, path, handler, mdls);
      var w := InsertSegs(t1, root, Segs(path));
      GrowsTrans(w.trie, o.trie, u);
      InsertSegsFound(t1, rx, root, Segs(path), u);
      FindRouteByTrail(u, rx, verb, path);
    }
  }

  /**
   * The middleware a registration attached is applied when its route is
   * looked up: it appears, contiguously and in argument order, in the
   * middleware `findRoute` collects for the same method and path, now or
   * after any later registrations.
   */
  lemma RegisteredMdlsApplied<H, M>(t: Trie<H, M>, rx: RegexOracle, verb: string, path: string, handler: Option<H>, mdls: seq<M>, u: Trie<H, M>)
    requires WellFormed(t) && WellFormed(u) && NoRegexSegs(Segs(path))
    requires Register(t, verb, path, handler, mdls).err.None?
    requires Grows(Register(t, verb, path, handler, mdls).trie, u)
    ensures var r := FindRouteSpec(u, rx, verb, path);
      r.Some? && exists lo :: InfixAt(mdls, r.value.mdls, lo)
  {
    var c := Target(t, verb, path);
    RegisteredRouteFound(t, rx, verb, path, handler, mdls, u);
    RegisteredMdlsHeld(t, verb, path, handler, mdls, u);
    if path == "/" {
      assert InfixAt(mdls, FindRouteSpec(u, rx, verb, path).value.mdls, |MdlsAt(t, c)|);
    } else {
      RegisteredTrailEnds(t, rx, verb, path, handler, mdls, u);
      MdlsThroughWalk(u, rx, u.trees[verb], Segs(path), c, mdls, |MdlsAt(t, c)|);
    }
  }

  /**
   * Middleware held, contiguously, by the node a lookup trail ends at is
   * held, contiguously, by what `findMdls` collects along those segments.
   */
  lemma MdlsThroughWalk<H, M>(u: Trie<H, M>, rx: RegexOracle, root: nat, segs: seq<string>, c: nat, mdls: seq<M>, pre: int)
    requires WellFormed(u) && root < |u.nodes| && c < |u.nodes|
    requires var tr := Trail(u, rx, root, segs); |tr| > 0 && tr[|tr| - 1] == c
    requires InfixAt(mdls, u.nodes[c].mdls, pre)
    ensures exists lo :: InfixAt(mdls, FindMdlsSpec(u, rx, root, segs), lo)
  {
    WalkMdlsCollected(u, rx, root, segs, |Trail(u, rx, root, segs)| - 1);
    InfixWithin(mdls, u.nodes[c].mdls, FindMdlsSpec(u, rx, root, segs), pre);
  }

  /** The registered node keeps the middleware attached to it, after what it held before. */
  lemma RegisteredMdlsHeld<H, M>(t: Trie<H, M>, verb: string, path: string, handler: Option<H>, mdls: seq<M>, u: Trie<H, M>)
    requires WellFormed(t) && WellFormed(u)
    requires Register(t, verb, path, handler, mdls).err.None?
    requires Grows(Register(t, verb, path, handler, mdls).trie, u)
    ensures var c := Target(t, verb, path);
      c < |u.nodes| && InfixAt(mdls, u.nodes[c].mdls, |MdlsAt(t, c)|)
  {
    var o := Register(t, verb, path, handler, mdls);
    var c := Target(t, verb, path);
    RegisterBinds(t, verb, path, handler, mdls);
    assert NodeGrows(o.trie.nodes[c], u.nodes[c]);
    InfixShift(mdls, mdls, MdlsAt(t, c), u.nodes[c].mdls, 0);
  }

  /** For a path other than "/", the lookup trail covers every segment and ends at the registered node. */
  lemma RegisteredTrailEnds<H, M>(t: Trie<H, M>, rx: RegexOracle, verb: string, path: string, handler: Option<H>, mdls: seq<M>, u: Trie<H, M>)
    requires WellFormed(t) && WellFormed(u) && NoRegexSegs(Segs(path)) && path != "/"
    requires Register(t, verb, path, handler, mdls).err.None?
    requires Grows(Register(t, verb, path, handler, mdls).trie, u)
    ensures verb in u.trees && u.trees[verb] < |u.nodes|
    ensures var tr := Trail(u, rx, u.trees[verb], Segs(path));
      && |tr| == |Segs(path)| > 0 && tr[|tr| - 1] == Target(t, verb, path)
      && FindRouteSpec(u, rx, verb, path).Some?
      && FindRouteSpec(u, rx, verb, path).value.mdls == FindMdlsSpec(u, rx, u.trees[verb], Segs(path))
  {
    var o := Register(t, verb, path, handler, mdls);
    var (t1, root) := RootFor(t, verb);
    RegisterTargetPersists(t, verb, path, handler, mdls, u);
    assert ValidatePath(path).None? && o == RegisterAt(t1, root, path, handler, mdls);
    ValidPathPieces(path);
    RegisterAfterWalk(t1, root, path, handler, mdls);
    var w := InsertSegs(t1, root, Segs(path));
    GrowsTrans(w.trie, o.trie, u);
    InsertSegsFound(t1, rx, root, Segs(path), u);
    FindRouteByTrail(u, rx, verb, path);
  }

  /** An infix of something that is an infix at some offset is an infix at some offset. */
  lemma InfixWithin<T>(a: seq<T>, b: seq<T>, c: seq<T>, i: int)
    requires InfixAt(a, b, i) && exists lo :: InfixAt(b, c, lo)
    ensures exists lo :: InfixAt(a, c, lo)
  {
    var j :| InfixAt(b, c, j);
    InfixTrans(a, b, c, i, j);
  }

  /** An infix of an infix is an infix. */
  lemma InfixTrans<T>(a: seq<T>, b: seq<T>, c: seq<T>, i: int, j: int)
    requires InfixAt(a, b, i) && InfixAt(b, c, j)
    ensures InfixAt(a, c, i + j)
  {
    forall k | 0 <= k < |a| ensures c[i + j..i + j + |a|][k] == a[k] {
      assert a[k] == b[i + k] == c[j + i + k];
    }
  }
}
