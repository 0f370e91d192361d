/** The prefix tree behind `Router`: one node per path segment, a handler on the nodes that end
    a registered pattern, and the greedy first-candidate walk used to resolve a request path. */
module Trie {
  import opened Optional
  import opened Paths

  /** A segment is wild when it is a named parameter (`:name`) or the wildcard `*`. */
  predicate IsWildPart(part: string)
  {
    (|part| > 0 && part[0] == ':') || part == "*"
  }

  /** The parameter name a node binds: the text after the first character of a wild segment
      (so "" for `*` and for a bare `:`), and "" for a static one. */
  function ParamName(part: string): string
  {
    if IsWildPart(part) then part[1..] else ""
  }

  /** A trie node. `children` is the node's child map: child `c` is stored under key `c.part`,
      and the order of the sequence is the order in which lookup visits the children. */
  datatype Node<H> = Node(part: string, param: string, isWild: bool,
                          children: seq<Node<H>>, handler: Option<H>)

  /** The node invariant: `isWild` and `param` are derived from `part`, children have
      distinct keys, and all descendants satisfy it too. */
  ghost predicate WellFormed<H>(n: Node<H>)
  {
    && n.isWild == IsWildPart(n.part)
    && n.param == ParamName(n.part)
    && (forall i, j :: 0 <= i < j < |n.children| ==> n.children[i].part != n.children[j].part)
    && (forall i :: 0 <= i < |n.children| ==> WellFormed(n.children[i]))
  }

  /** A fresh node for `part`, with no children and no handler. */
  function NewNode<H>(part: string): (n: Node<H>)
    ensures WellFormed(n)
    ensures n.part == part && n.children == [] && n.handler == None
  {
    Node(part, ParamName(part), IsWildPart(part), [], None)
  }

  /** A named parameter segment binds its name. */
  lemma NamedParameterNode<H>(name: string)
    requires name != []
    ensures var n: Node<H> := NewNode(":" + name); n.isWild && n.param == name
  {
  }

  /** The wildcard is wild and binds nothing. */
  lemma WildcardNode<H>()
    ensures var n: Node<H> := NewNode("*"); n.isWild && n.param == ""
  {
  }

  /** The root of every method's tree. */
  function Root<H>(): (n: Node<H>)
    ensures WellFormed(n) && !n.isWild && n.children == [] && n.handler == None
  {
    NewNode("")
  }

  // ---------------------------------------------------------------------------------------
  // Registration

  /** Index of the child stored under `key`, as the child map's `get` finds it. */
  function ChildIndex<H>(cs: seq<Node<H>>, key: string): (r: Option<nat>)
    ensures r.Some? ==> r.value < |cs| && cs[r.value].part == key
    ensures r.Some? ==> forall k :: 0 <= k < r.value ==> cs[k].part != key
    ensures r.None? ==> forall k :: 0 <= k < |cs| ==> cs[k].part != key
  {
    if cs == [] then None
    else if cs[0].part == key then Some(0)
    else match ChildIndex(cs[1..], key)
      case None => None
      case Some(i) => Some(i + 1)
  }

  /** Adds the route `parts` below `n` with `h` as handler: walks the child stored under each
      segment, creating it (as the last child) when absent, and sets the handler of the node
      reached by the last segment. Every other node keeps its handler. */
  function Insert<H>(n: Node<H>, parts: seq<string>, h: H): (r: Node<H>)
    ensures r.part == n.part && r.param == n.param && r.isWild == n.isWild
    ensures parts != [] ==> r.handler == n.handler
    decreases |parts|
  {
    if parts == [] then n.(handler := Some(h))
    else match ChildIndex(n.children, parts[0])
      case Some(k) => n.(children := n.children[k := Insert(n.children[k], parts[1..], h)])
      case None => n.(children := n.children + [Insert(NewNode(parts[0]), parts[1..], h)])
  }

  /** The node registered for exactly the segments `parts`, following children by key. */
  function Find<H>(n: Node<H>, parts: seq<string>): Option<Node<H>>
    decreases |parts|
  {
    if parts == [] then Some(n)
    else match ChildIndex(n.children, parts[0])
      case None => None
      case Some(k) => Find(n.children[k], parts[1..])
  }

  /** The handler registered for exactly the segments `parts`, if any. */
  function HandlerAt<H>(n: Node<H>, parts: seq<string>): Option<H>
  {
    match Find(n, parts)
    case None => None
    case Some(m) => m.handler
  }

  lemma ChildIndexUpdate<H>(cs: seq<Node<H>>, k: nat, c: Node<H>, key: string)
    requires k < |cs| && c.part == cs[k].part
    ensures ChildIndex(cs[k := c], key) == ChildIndex(cs, key)
  {
    var cs' := cs[k := c];
    assert forall i :: 0 <= i < |cs| ==> cs'[i].part == cs[i].part;
    var a, b := ChildIndex(cs', key), ChildIndex(cs, key);
    if a.Some? {
      assert cs[a.value].part == key;
    }
    if b.Some? {
      assert cs'[b.value].part == key;
    }
    if a.Some? && b.Some? {
      assert !(a.value < b.value);
      assert !(b.value < a.value);
    }
  }

  lemma ChildIndexAppend<H>(cs: seq<Node<H>>, c: Node<H>, key: string)
    requires ChildIndex(cs, c.part).None?
    ensures ChildIndex(cs + [c], key) == if c.part == key then Some(|cs|) else ChildIndex(cs, key)
  {
    var cs' := cs + [c];
    assert forall i :: 0 <= i < |cs| ==> cs'[i] == cs[i];
    var a, b := ChildIndex(cs', key), ChildIndex(cs, key);
    assert cs'[|cs|] == c;
    if b.Some? {
      assert cs'[b.value].part == key;
      assert a.Some? && !(b.value < a.value);
      assert c.part != key;
    } else if c.part == key {
      assert a.Some?;
    }
  }

  /** Looking up a non-empty segment list goes through the child stored under its first
      segment. */
  lemma HandlerAtChild<H>(n: Node<H>, q: seq<string>)
    requires q != []
    ensures HandlerAt(n, q) == match ChildIndex(n.children, q[0])
                               case None => None
                               case Some(k) => HandlerAt(n.children[k], q[1..])
  {
  }

  /** Registration replaces the handler of exactly one node, the one for `parts`: every other
      segment list keeps the handler it had (none, for the scaffolding nodes created on the way). */
  lemma {:induction false} InsertHandlerAt<H>(n: Node<H>, parts: seq<string>, h: H, q: seq<string>)
    ensures HandlerAt(Insert(n, parts, h), q) == if q == parts then Some(h) else HandlerAt(n, q)
    decreases |parts|
  {
    var r := Insert(n, parts, h);
    if parts == [] || q == [] {
      if parts == [] && q != [] {
        assert r.children == n.children;
        HandlerAtChild(r, q);
        HandlerAtChild(n, q);
      }
    } else {
      HandlerAtChild(r, q);
      HandlerAtChild(n, q);
      assert q == parts <==> q[0] == parts[0] && q[1..] == parts[1..];
      match ChildIndex(n.children, parts[0])
      case Some(k) =>
        var c := Insert(n.children[k], parts[1..], h);
        assert r.children == n.children[k := c];
        ChildIndexUpdate(n.children, k, c, q[0]);
        if q[0] == parts[0] {
          InsertHandlerAt(n.children[k], parts[1..], h, q[1..]);
        } else {
          var k2 := ChildIndex(n.children, q[0]);
          assert k2 != Some(k);
          if k2.Some? {
            assert r.children[k2.value] == n.children[k2.value];
          }
        }
      case None =>
        var c := Insert(NewNode<H>(parts[0]), parts[1..], h);
        assert r.children == n.children + [c];
        ChildIndexAppend(n.children, c, q[0]);
        if q[0] == parts[0] {
          assert r.children[|n.children|] == c;
          InsertHandlerAt(NewNode<H>(parts[0]), parts[1..], h, q[1..]);
          EmptyHandlerAt<H>(parts[0], q[1..]);
        } else {
          var k2 := ChildIndex(n.children, q[0]);
          if k2.Some? {
            assert r.children[k2.value] == n.children[k2.value];
          }
        }
    }
  }

  /** A fresh node has no handler anywhere below it. */
  lemma EmptyHandlerAt<H>(part: string, q: seq<string>)
    ensures HandlerAt(NewNode<H>(part), q) == None
  {
  }

  /** Registration keeps the node invariant. */
  lemma {:induction false} InsertWellFormed<H>(n: Node<H>, parts: seq<string>, h: H)
    requires WellFormed(n)
    ensures WellFormed(Insert(n, parts, h))
    decreases |parts|
  {
    if parts != [] {
      match ChildIndex(n.children, parts[0])
      case Some(k) =>
        InsertWellFormed(n.children[k], parts[1..], h);
      case None =>
        InsertWellFormed(NewNode<H>(parts[0]), parts[1..], h);
    }
  }

  // ---------------------------------------------------------------------------------------
  // Resolution

  /** A child is a candidate for a segment when its key equals the segment or it is wild. */
  predicate IsCandidate<H>(c: Node<H>, segment: string)
  {
    c.part == segment || c.isWild
  }

  /** The first candidate child in visiting order. */
  function FirstCandidate<H>(cs: seq<Node<H>>, segment: string): (r: Option<nat>)
    ensures r.Some? ==> r.value < |cs| && IsCandidate(cs[r.value], segment)
    ensures r.Some? ==> forall k :: 0 <= k < r.value ==> !IsCandidate(cs[k], segment)
    ensures r.None? ==> forall k :: 0 <= k < |cs| ==> !IsCandidate(cs[k], segment)
  {
    if cs == [] then None
    else if IsCandidate(cs[0], segment) then Some(0)
    else match FirstCandidate(cs[1..], segment)
      case None => None
      case Some(i) => Some(i + 1)
  }

  /** What entering child `c` on `segment` writes into the request's parameters. */
  function Binding<H>(c: Node<H>, segment: string): seq<(string, string)>
  {
    if c.isWild && c.param != "" then [(c.param, segment)] else []
  }

  /** The outcome of a walk: the node reached (None when some segment had no candidate) and the
      parameter writes made on the way, in order; the writes are made even when the walk fails. */
  datatype Walked<H> = Walked(reached: Option<Node<H>>, binds: seq<(string, string)>)
  {
    /** The handler the lookup returns: that of the reached node, if any. */
    function Handler(): Option<H>
    {
      match reached
      case None => None
      case Some(n) => n.handler
    }
  }

  /** The router's lookup walk: at each segment commit to the first candidate child, never
      coming back to a sibling. */
  function Walk<H>(n: Node<H>, parts: seq<string>): (r: Walked<H>)
    ensures |r.binds| <= |parts|
    ensures forall i :: 0 <= i < |r.binds| ==> r.binds[i].0 != "" && r.binds[i].1 in parts
    decreases |parts|
  {
    if parts == [] then Walked(Some(n), [])
    else match FirstCandidate(n.children, parts[0])
      case None => Walked(None, [])
      case Some(j) =>
        var c := n.children[j];
        var rest := Walk(c, parts[1..]);
        Walked(rest.reached, Binding(c, parts[0]) + rest.binds)
  }

  /** No wild child at any node the exact path `parts` visits. */
  ghost predicate StaticAlong<H>(n: Node<H>, parts: seq<string>)
    decreases |parts|
  {
    && (forall i :: 0 <= i < |n.children| ==> !n.children[i].isWild)
    && (parts != [] && ChildIndex(n.children, parts[0]).Some? ==>
          StaticAlong(n.children[ChildIndex(n.children, parts[0]).value], parts[1..]))
  }

  /** Where a segment never has a wild sibling to compete with, the greedy walk finds exactly the
      registered node and binds nothing. */
  lemma {:induction false} StaticWalk<H>(n: Node<H>, parts: seq<string>)
    requires StaticAlong(n, parts)
    ensures Walk(n, parts) == Walked(Find(n, parts), [])
    decreases |parts|
  {
    if parts != [] {
      var a, b := FirstCandidate(n.children, parts[0]), ChildIndex(n.children, parts[0]);
      if a.Some? && b.Some? {
        assert !(a.value < b.value) && !(b.value < a.value);
        StaticWalk(n.children[b.value], parts[1..]);
      }
    }
  }

  /** No wild node anywhere below `n`. */
  ghost predicate AllStatic<H>(n: Node<H>)
  {
    forall i :: 0 <= i < |n.children| ==> !n.children[i].isWild && AllStatic(n.children[i])
  }

  lemma {:induction false} AllStaticAlong<H>(n: Node<H>, parts: seq<string>)
    requires AllStatic(n)
    ensures StaticAlong(n, parts)
    decreases |parts|
  {
    if parts != [] && ChildIndex(n.children, parts[0]).Some? {
      AllStaticAlong(n.children[ChildIndex(n.children, parts[0]).value], parts[1..]);
    }
  }

  /** Registering a pattern without wild segments keeps a tree free of wild nodes. */
  lemma {:induction false} InsertAllStatic<H>(n: Node<H>, parts: seq<string>, h: H)
    requires AllStatic(n)
    requires forall i :: 0 <= i < |parts| ==> !IsWildPart(parts[i])
    ensures AllStatic(Insert(n, parts, h))
    decreases |parts|
  {
    if parts != [] {
      match ChildIndex(n.children, parts[0])
      case Some(k) =>
        InsertAllStatic(n.children[k], parts[1..], h);
      case None =>
        InsertAllStatic(NewNode<H>(parts[0]), parts[1..], h);
    }
  }

  /** In a tree of static routes, looking up a registered pattern returns its handler, and an
      unregistered one returns none; no parameter is ever written. */
  lemma StaticResolve<H>(n: Node<H>, parts: seq<string>, h: H, q: seq<string>)
    requires AllStatic(n)
    requires forall i :: 0 <= i < |parts| ==> !IsWildPart(parts[i])
    ensures var w := Walk(Insert(n, parts, h), q);
            w.binds == [] && w.Handler() == if q == parts then Some(h) else HandlerAt(n, q)
  {
    InsertAllStatic(n, parts, h);
    AllStaticAlong(Insert(n, parts, h), q);
    StaticWalk(Insert(n, parts, h), q);
    InsertHandlerAt(n, parts, h, q);
  }

  /** A newly registered route is found by its own segments, without any parameter write,
      whenever no node along that path has a wild child: the rest of the tree may hold
      parameter and wildcard routes. */
  lemma StaticRegistered<H>(n: Node<H>, parts: seq<string>, h: H)
    requires StaticAlong(Insert(n, parts, h), parts)
    ensures Walk(Insert(n, parts, h), parts).Handler() == Some(h)
    ensures Walk(Insert(n, parts, h), parts).binds == []
  {
    StaticWalk(Insert(n, parts, h), parts);
    InsertHandlerAt(n, parts, h, parts);
  }

  // ---------------------------------------------------------------------------------------
  // Resolution against a single registered pattern

  /** Pattern segment `p` accepts request segment `s`: a wild segment accepts any one segment,
      a static one only itself. */
  predicate SegmentMatches(p: string, s: string)
  {
    IsWildPart(p) || p == s
  }

  /** The request path has as many segments as the pattern and each is accepted. */
  ghost predicate Matches(pattern: seq<string>, path: seq<string>)
  {
    |pattern| == |path| && forall i :: 0 <= i < |pattern| ==> SegmentMatches(pattern[i], path[i])
  }

  /** The parameter writes a match makes: one per `:name` segment with a non-empty name. */
  function Bindings(pattern: seq<string>, path: seq<string>): seq<(string, string)>
    requires |pattern| == |path|
  {
    if pattern == [] then []
    else
      var p := pattern[0];
      (if |p| > 1 && p[0] == ':' then [(p[1..], path[0])] else []) + Bindings(pattern[1..], path[1..])
  }

  /** With a single route registered below a fresh node, a path resolves to its handler exactly
      when it matches the pattern segment by segment (so `*` stands for exactly one segment), and
      then the parameters written are those of the `:name` segments. */
  lemma {:induction false} SingleRoute<H>(x: string, pattern: seq<string>, path: seq<string>, h: H)
    ensures var w := Walk(Insert(NewNode<H>(x), pattern, h), path);
            (w.Handler() == Some(h) <==> Matches(pattern, path))
            && (Matches(pattern, path) ==> w.binds == Bindings(pattern, path))
    decreases |pattern|
  {
    var t := Insert(NewNode<H>(x), pattern, h);
    if pattern == [] {
      assert !Matches(pattern, path) ==> path != [];
    } else if path == [] {
    } else {
      var c := Insert(NewNode<H>(pattern[0]), pattern[1..], h);
      assert t.children == [c];
      SingleRoute(pattern[0], pattern[1..], path[1..], h);
      if SegmentMatches(pattern[0], path[0]) {
        assert FirstCandidate(t.children, path[0]) == Some(0);
        assert Matches(pattern, path) <==> Matches(pattern[1..], path[1..]) by {
          if Matches(pattern[1..], path[1..]) {
            forall i | 0 <= i < |pattern| ensures SegmentMatches(pattern[i], path[i]) {
              if i > 0 { assert pattern[i] == pattern[1..][i - 1] && path[i] == path[1..][i - 1]; }
            }
          }
          if Matches(pattern, path) {
            forall i | 0 <= i < |pattern[1..]| ensures SegmentMatches(pattern[1..][i], path[1..][i]) {
              assert pattern[1..][i] == pattern[i + 1] && path[1..][i] == path[i + 1];
            }
          }
        }
      } else {
        assert FirstCandidate(t.children, path[0]) == None;
        assert !SegmentMatches(pattern[0], path[0]);
      }
    }
  }

  // ---------------------------------------------------------------------------------------
  // Precedence and backtracking

  /** The lookup takes the child stored under `segment` exactly when no wild child is visited
      before it: whether a static route wins over a parameter or wildcard sibling depends only
      on the order in which the children are visited. */
  lemma StaticChosenIffFirst<H>(cs: seq<Node<H>>, segment: string)
    requires ChildIndex(cs, segment).Some?
    ensures FirstCandidate(cs, segment).Some?
    ensures FirstCandidate(cs, segment) == ChildIndex(cs, segment)
        <==> forall j :: 0 <= j < ChildIndex(cs, segment).value ==> !cs[j].isWild
  {
    var k := ChildIndex(cs, segment).value;
    var f := FirstCandidate(cs, segment);
    assert IsCandidate(cs[k], segment);
    if forall j :: 0 <= j < k ==> !cs[j].isWild {
      assert !IsCandidate(cs[f.value], segment) || !(f.value < k);
      assert f.value == k;
    } else {
      var j :| 0 <= j < k && cs[j].isWild;
      assert IsCandidate(cs[j], segment);
      assert f.value <= j;
    }
  }

  /** When no wild child is visited before the child stored under the static segment `x`, a path
      starting with `x` goes on from that child and writes nothing for `x`. */
  lemma StaticVisitedFirst<H>(n: Node<H>, x: string, rest: seq<string>)
    requires WellFormed(n) && !IsWildPart(x)
    requires ChildIndex(n.children, x).Some?
    requires forall j :: 0 <= j < ChildIndex(n.children, x).value ==> !n.children[j].isWild
    ensures Walk(n, [x] + rest) == Walk(n.children[ChildIndex(n.children, x).value], rest)
  {
    StaticChosenIffFirst(n.children, x);
    var c := n.children[ChildIndex(n.children, x).value];
    assert WellFormed(c) && c.part == x && !c.isWild;
    assert ([x] + rest)[0] == x && ([x] + rest)[1..] == rest;
  }

  /** When a wild child is visited before the child stored under `x`, a path starting with `x`
      is resolved through the first such wild child, which binds `x` when it is named; the
      route below the child stored under `x` is not consulted. */
  lemma WildVisitedFirst<H>(n: Node<H>, x: string, rest: seq<string>)
    requires ChildIndex(n.children, x).Some?
    requires exists j :: 0 <= j < ChildIndex(n.children, x).value && n.children[j].isWild
    ensures FirstCandidate(n.children, x).Some?
    ensures var j := FirstCandidate(n.children, x).value;
            var c := n.children[j];
            && j < ChildIndex(n.children, x).value && c.isWild
            && Walk(n, [x] + rest) == Walked(Walk(c, rest).reached, Binding(c, x) + Walk(c, rest).binds)
  {
    StaticChosenIffFirst(n.children, x);
    var k := ChildIndex(n.children, x).value;
    var j := FirstCandidate(n.children, x).value;
    var w :| 0 <= w < k && n.children[w].isWild;
    assert IsCandidate(n.children[w], x);
    assert j <= w;
    assert n.children[j].part != x;
    assert ([x] + rest)[0] == x && ([x] + rest)[1..] == rest;
  }

  /** The walk never backtracks. Let `/s/y` be registered below `n`, let a wild child be visited
      before the child stored under `s`, and let no wild child have a candidate child for `y`.
      Then `/s/y` resolves to nothing although it is registered, and the write made on entering
      the wild child is left behind (a `:name` child writes `s`; a `*` child writes nothing). */
  lemma NoBacktracking<H>(n: Node<H>, s: string, y: string)
    requires HandlerAt(n, [s, y]).Some?
    requires ChildIndex(n.children, s).Some?
    requires exists j :: 0 <= j < ChildIndex(n.children, s).value && n.children[j].isWild
    requires forall j :: 0 <= j < |n.children| && n.children[j].isWild ==>
               FirstCandidate(n.children[j].children, y).None?
    ensures FirstCandidate(n.children, s).Some?
    ensures Walk(n, [s, y]).reached == None
    ensures Walk(n, [s, y]).binds == Binding(n.children[FirstCandidate(n.children, s).value], s)
  {
    assert [s, y] == [s] + [y];
    WildVisitedFirst(n, s, [y]);
    var c := n.children[FirstCandidate(n.children, s).value];
    assert Walk(c, [y]) == Walked(None, []);
  }

  // ---------------------------------------------------------------------------------------
  // Parameter writes

  /** Applies the writes in order to a parameter table; a later write to a key wins. */
  function ApplyBinds(m: map<string, string>, bs: seq<(string, string)>): map<string, string>
  {
    if bs == [] then m
    else ApplyBinds(m, bs[..|bs| - 1])[bs[|bs| - 1].0 := bs[|bs| - 1].1]
  }

  /** Entering child `c` on `segment` adds its one write, if any, to the table. */
  lemma ApplyBindsStep<H>(m: map<string, string>, written: seq<(string, string)>, c: Node<H>,
                          segment: string)
    ensures ApplyBinds(m, written + Binding(c, segment))
         == if c.isWild && c.param != "" then ApplyBinds(m, written)[c.param := segment]
            else ApplyBinds(m, written)
  {
    if c.isWild && c.param != "" {
      assert (written + Binding(c, segment))[..|written|] == written;
    } else {
      assert written + Binding(c, segment) == written;
    }
  }

  /** After the writes, a key that was written holds the value of its last write. */
  lemma {:induction false} ApplyBindsWritten(m: map<string, string>, bs: seq<(string, string)>,
                                             k: string)
    requires exists i :: 0 <= i < |bs| && bs[i].0 == k
    ensures k in ApplyBinds(m, bs)
    ensures exists i :: 0 <= i < |bs| && bs[i].0 == k && ApplyBinds(m, bs)[k] == bs[i].1 &&
                        forall j :: i < j < |bs| ==> bs[j].0 != k
  {
    var init := bs[..|bs| - 1];
    if bs[|bs| - 1].0 != k {
      var i :| 0 <= i < |bs| && bs[i].0 == k;
      assert init[i].0 == k;
      ApplyBindsWritten(m, init, k);
      var i' :| 0 <= i' < |init| && init[i'].0 == k && ApplyBinds(m, init)[k] == init[i'].1
                && forall j :: i' < j < |init| ==> init[j].0 != k;
      assert bs[i'] == init[i'];
    }
  }

  /** A key never written keeps its old value, or stays absent: no other key is set. */
  lemma {:induction false} ApplyBindsUnwritten(m: map<string, string>, bs: seq<(string, string)>,
                                               k: string)
    requires forall i :: 0 <= i < |bs| ==> bs[i].0 != k
    ensures k in ApplyBinds(m, bs) <==> k in m
    ensures k in m ==> ApplyBinds(m, bs)[k] == m[k]
  {
    if bs != [] {
      var init := bs[..|bs| - 1];
      forall i | 0 <= i < |init| ensures init[i].0 != k { assert init[i] == bs[i]; }
      ApplyBindsUnwritten(m, init, k);
    }
  }
}
