/** The router (`Router`): one trie per request method, registration of patterns and
    resolution of request paths, writing route parameters into the request context. */
module Routing {
  import opened Optional
  import opened Http
  import opened Paths
  import opened Trie
  import opened Contexts

  /** The invariant of the root map: every tree is well formed and rooted at a static "" node. */
  ghost predicate ValidRoots<H>(roots: map<Method, Node<H>>)
  {
    forall m :: m in roots ==> WellFormed(roots[m]) && roots[m].part == "" && !roots[m].isWild
  }

  /** The root for `m`, or a fresh one when `m` has none yet. */
  function RootFor<H>(roots: map<Method, Node<H>>, m: Method): Node<H>
  {
    if m in roots then roots[m] else Root()
  }

  /** The root map after registering `pattern` under `m` with handler `h`. */
  function Register<H>(roots: map<Method, Node<H>>, m: Method, pattern: string, h: H)
    : (r: map<Method, Node<H>>)
    ensures r.Keys == roots.Keys + {m}
    ensures forall m' :: m' in roots && m' != m ==> r[m'] == roots[m']
  {
    roots[m := Insert(RootFor(roots, m), ParsePath(pattern), h)]
  }

  /** The lookup walk for `path` under `m`; no root means nothing reached, nothing written. */
  function Resolve<H>(roots: map<Method, Node<H>>, m: Method, path: string): Walked<H>
  {
    if m !in roots then Walked(None, []) else Walk(roots[m], ParsePath(path))
  }

  /** The handler `getRoute` returns. */
  function Lookup<H>(roots: map<Method, Node<H>>, m: Method, path: string): Option<H>
  {
    Resolve(roots, m, path).Handler()
  }

  /** Registration keeps the root map valid. */
  lemma RegisterValid<H>(roots: map<Method, Node<H>>, m: Method, pattern: string, h: H)
    requires ValidRoots(roots)
    ensures ValidRoots(Register(roots, m, pattern, h))
  {
    InsertWellFormed(RootFor(roots, m), ParsePath(pattern), h);
  }

  /** Registration under `m` sets the handler of the one node for the pattern's segments, and
      every other segment list under `m` keeps its handler: registering the same pattern again
      replaces the handler. */
  lemma RegisterReplaces<H>(roots: map<Method, Node<H>>, m: Method, pattern: string, h: H,
                            q: seq<string>)
    ensures HandlerAt(RootFor(Register(roots, m, pattern, h), m), q)
         == if q == ParsePath(pattern) then Some(h) else HandlerAt(RootFor(roots, m), q)
  {
    InsertHandlerAt(RootFor(roots, m), ParsePath(pattern), h, q);
  }

  /** Registration under one method leaves the resolution of every other method unchanged. */
  lemma RegisterOtherMethod<H>(roots: map<Method, Node<H>>, m: Method, pattern: string, h: H,
                               m': Method, path: string)
    requires m' != m
    ensures Resolve(Register(roots, m, pattern, h), m', path) == Resolve(roots, m', path)
  {
  }

  /** A registered route is found by any path with the same segments (extra slashes are
      ignored), with no parameter written, as long as no node along the pattern's path has a
      parameter or wildcard child; routes elsewhere in the tree may be dynamic. */
  lemma StaticRoute<H>(roots: map<Method, Node<H>>, m: Method, pattern: string, h: H, path: string)
    requires StaticAlong(Insert(RootFor(roots, m), ParsePath(pattern), h), ParsePath(pattern))
    requires ParsePath(path) == ParsePath(pattern)
    ensures Lookup(Register(roots, m, pattern, h), m, path) == Some(h)
    ensures Resolve(Register(roots, m, pattern, h), m, path).binds == []
  {
    StaticRegistered(RootFor(roots, m), ParsePath(pattern), h);
  }

  /** The path "/" (and "") resolves to the root's own handler. */
  lemma RootPath<H>(roots: map<Method, Node<H>>, m: Method)
    ensures Lookup(roots, m, "/") == Lookup(roots, m, "")
    ensures Lookup(roots, m, "/") == if m in roots then roots[m].handler else None
  {
    ParsePathRoot();
  }

  /** With one route registered, a path resolves to its handler exactly when it matches the
      pattern segment by segment, a `:name` or `*` segment standing for exactly one path
      segment; the parameters written are then those of the `:name` segments. */
  lemma OnlyRoute<H>(m: Method, pattern: string, h: H, path: string)
    ensures var roots := Register(map[], m, pattern, h);
            && (Lookup(roots, m, path) == Some(h) <==> Matches(ParsePath(pattern), ParsePath(path)))
            && (Matches(ParsePath(pattern), ParsePath(path)) ==>
                  Resolve(roots, m, path).binds == Bindings(ParsePath(pattern), ParsePath(path)))
  {
    SingleRoute("", ParsePath(pattern), ParsePath(path), h);
  }

  /** The first candidate child for `segment`, found by visiting the children in order. */
  method FindCandidate<H>(children: seq<Node<H>>, segment: string) returns (r: Option<nat>)
    ensures r == FirstCandidate(children, segment)
  {
    var j := 0;
    while j < |children|
      invariant 0 <= j <= |children|
      invariant forall k :: 0 <= k < j ==> !IsCandidate(children[k], segment)
    {
      if children[j].part == segment || children[j].isWild {
        r := Some(j);
        var f := FirstCandidate(children, segment);
        assert f.Some? && !(f.value < j) && !(j < f.value);
        return;
      }
      j := j + 1;
    }
    r := None;
  }

  /** The walk's total writes, seen at segment `i`: the writes made so far followed by those
      of the rest of the walk. */
  function Pending<H>(node: Node<H>, parts: seq<string>, i: nat, written: seq<(string, string)>)
    : Walked<H>
    requires i <= |parts|
  {
    var w := Walk(node, parts[i..]);
    Walked(w.reached, written + w.binds)
  }

  /** A segment with no candidate child ends the walk with no node and no further write. */
  lemma WalkStops<H>(node: Node<H>, parts: seq<string>, i: nat, written: seq<(string, string)>)
    requires i < |parts| && FirstCandidate(node.children, parts[i]).None?
    ensures Pending(node, parts, i, written) == Walked(None, written)
  {
    assert written + [] == written;
  }

  /** Entering the chosen child makes its write, if any, and continues the walk from it. */
  lemma WalkStep<H>(node: Node<H>, parts: seq<string>, i: nat, j: nat,
                    written: seq<(string, string)>)
    requires i < |parts| && FirstCandidate(node.children, parts[i]) == Some(j)
    ensures j < |node.children|
    ensures Pending(node, parts, i, written)
         == Pending(node.children[j], parts, i + 1, written + Binding(node.children[j], parts[i]))
  {
    var c := node.children[j];
    assert parts[i..][0] == parts[i] && parts[i..][1..] == parts[i + 1..];
    var rest := Walk(c, parts[i + 1..]);
    assert Walk(node, parts[i..]) == Walked(rest.reached, Binding(c, parts[i]) + rest.binds);
    assert written + (Binding(c, parts[i]) + rest.binds) == written + Binding(c, parts[i]) + rest.binds;
  }

  /** Once every segment is consumed the walk has reached the current node. */
  lemma WalkDone<H>(node: Node<H>, parts: seq<string>, written: seq<(string, string)>)
    ensures Pending(node, parts, |parts|, written) == Walked(Some(node), written)
  {
    assert parts[|parts|..] == [];
    assert written + [] == written;
  }

  class Router<H> {
    /** One trie per method, created on the first registration for that method. */
    var roots: map<Method, Node<H>>

    ghost predicate Valid()
      reads this
    {
      ValidRoots(roots)
    }

    constructor ()
      ensures Valid() && roots == map[]
    {
      roots := map[];
    }

    /** Registers `pattern` under method `m` with `handler`. */
    method AddRoute(m: Method, pattern: string, handler: H)
      requires Valid()
      modifies this
      ensures Valid()
      ensures roots == Register(old(roots), m, pattern, handler)
    {
      RegisterValid(roots, m, pattern, handler);
      var parts := ParsePath(pattern);
      if m !in roots {
        roots := roots[m := Root()];
      }
      roots := roots[m := Insert(roots[m], parts, handler)];
    }

    /** Resolves `path` under `m`: the handler of the node the greedy walk reaches (None when no
        root exists for `m`, some segment has no candidate child, or the node has no handler),
        with every parameter met on the way written into `ctx`, also when the walk fails. */
    method GetRoute(m: Method, path: string, ctx: Context) returns (h: Option<H>)
      modifies ctx
      ensures h == Lookup(roots, m, path)
      ensures ctx.params == ApplyBinds(old(ctx.params), Resolve(roots, m, path).binds)
      ensures ctx.path == old(ctx.path) && ctx.attributes == old(ctx.attributes)
      ensures ctx.response == old(ctx.response)
    {
      var parts := ParsePath(path);
      if m !in roots {
        return None;
      }
      var node := roots[m];
      ghost var target := Walk(node, parts);
      ghost var written: seq<(string, string)> := [];
      var i := 0;
      assert parts[0..] == parts;
      assert target == Pending(node, parts, 0, written);
      while i < |parts|
        invariant 0 <= i <= |parts|
        invariant target == Pending(node, parts, i, written)
        invariant ctx.params == ApplyBinds(old(ctx.params), written)
        invariant ctx.path == old(ctx.path) && ctx.attributes == old(ctx.attributes)
        invariant ctx.response == old(ctx.response)
      {
        var part := parts[i];
        var found := FindCandidate(node.children, part);
        if found.None? {
          WalkStops(node, parts, i, written);
          return None;
        }
        WalkStep(node, parts, i, found.value, written);
        var child := node.children[found.value];
        if child.isWild && child.param != "" {
          ctx.SetParam(child.param, part);
        }
        ApplyBindsStep(old(ctx.params), written, child, part);
        written := written + Binding(child, part);
        node := child;
        i := i + 1;
      }
      WalkDone(node, parts, written);
      h := node.handler;
    }
  }
}
