/**
 * The route trie of tree.go.
 *
 * A Go `*Tree` is a node that owns a slice of child pointers. Here the nodes of
 * one trie live in a node table `nodes` held by a `Tree` object: a node pointer
 * is an index into that table, node 0 is the root, and a node's `children` are
 * the indices of its children in insertion order. `Put` appends nodes to the
 * table and children to a node, `Get` overwrites `routerName` fields, exactly
 * the in-place updates the Go code makes through its pointers.
 */
module RouteTree {
  import opened Wrappers
  import opened Utils

  /** One trie node: its segment name, its children, the route name `Get` last stamped on it, and `IsEnd`. */
  datatype Node = Node(name: string, children: seq<nat>, routerName: string, isEnd: bool)

  /** How a child's name is compared with a path segment. */
  datatype Rule =
    | Exact    // Put: same name
    | Pattern  // Get: same name, "*", or a name containing ':'
    | Star     // Get's fallback: a child named "*"

  predicate Accepts(rule: Rule, name: string, seg: string)
  {
    match rule
    case Exact => name == seg
    case Pattern => name == seg || name == "*" || ':' in name
    case Star => name == "*"
  }

  /** Every child index names a later node of the table, so the table is a forest below node 0. */
  predicate WellFormed(nodes: seq<Node>)
  {
    && |nodes| > 0
    && forall i, k :: 0 <= i < |nodes| && 0 <= k < |nodes[i].children| ==> i < nodes[i].children[k] < |nodes|
  }

  /** The table with every `routerName` blanked: what `Get` reads and never changes. */
  function Shape(nodes: seq<Node>): (s: seq<Node>)
    ensures |s| == |nodes|
  {
    seq(|nodes|, i requires 0 <= i < |nodes| => nodes[i].(routerName := ""))
  }

  /** The position of the first child in `kids` whose name `rule` accepts, or |kids| when there is none. */
  function FirstAccepted(nodes: seq<Node>, kids: seq<nat>, rule: Rule, seg: string): (k: nat)
    requires forall j :: 0 <= j < |kids| ==> kids[j] < |nodes|
    ensures k <= |kids|
    ensures k < |kids| ==> Accepts(rule, nodes[kids[k]].name, seg)
    ensures forall j :: 0 <= j < k ==> !Accepts(rule, nodes[kids[j]].name, seg)
    decreases |kids|
  {
    if kids == [] then 0
    else if Accepts(rule, nodes[kids[0]].name, seg) then 0
    else 1 + FirstAccepted(nodes, kids[1..], rule, seg)
  }

  /** The first child of `cur`, in insertion order, whose name `rule` accepts. */
  function Child(nodes: seq<Node>, cur: nat, rule: Rule, seg: string): (c: Option<nat>)
    requires WellFormed(nodes) && cur < |nodes|
    ensures c.None? <==> forall j :: 0 <= j < |nodes[cur].children| ==> !Accepts(rule, nodes[nodes[cur].children[j]].name, seg)
    ensures c.Some? ==> cur < c.value < |nodes| && c.value in nodes[cur].children && Accepts(rule, nodes[c.value].name, seg)
  {
    var kids := nodes[cur].children;
    var k := FirstAccepted(nodes, kids, rule, seg);
    if k < |kids| then Some(kids[k]) else None
  }

  // ---------------------------------------------------------------- Put

  /** Where a `Put` leaves the table, and the node it ends at. */
  datatype Placed = Placed(nodes: seq<Node>, at: nat)

  /** The table after Put appends a child `n` named `seg` to `cur`, where no child of `cur` had that name. */
  function Grow(nodes: seq<Node>, cur: nat, seg: string, isEnd: bool): (grown: seq<Node>)
    requires WellFormed(nodes) && cur < |nodes|
    ensures WellFormed(grown) && |grown| == |nodes| + 1
  {
    var n := |nodes|;
    nodes[cur := nodes[cur].(children := nodes[cur].children + [n])] + [Node(seg, [], "", isEnd)]
  }

  /**
   * Put's walk from node `cur` over the remaining segments: follow the first child
   * with the segment's name, or append a new child named after it, which is an
   * end node exactly when it is made for the last segment.
   */
  function PutFrom(nodes: seq<Node>, cur: nat, segs: seq<string>): (p: Placed)
    requires WellFormed(nodes) && cur < |nodes|
    ensures WellFormed(p.nodes) && cur <= p.at < |p.nodes| && |nodes| <= |p.nodes|
    ensures |segs| > 0 ==> cur < p.at
    decreases |segs|
  {
    if segs == [] then
      Placed(nodes, cur)
    else
      match Child(nodes, cur, Exact, segs[0])
      case Some(c) => PutFrom(nodes, c, segs[1..])
      case None =>
        PutFrom(Grow(nodes, cur, segs[0], |segs| == 1), |nodes|, segs[1..])
  }

  /** Follows the first exactly-named child for every segment; None when some segment has no such child. */
  function ExactWalk(nodes: seq<Node>, cur: nat, segs: seq<string>): (e: Option<nat>)
    requires WellFormed(nodes) && cur < |nodes|
    ensures e.Some? ==> cur <= e.value < |nodes|
    ensures e.Some? && |segs| > 0 ==> nodes[e.value].name == segs[|segs| - 1]
    decreases |segs|
  {
    if segs == [] then Some(cur)
    else
      match Child(nodes, cur, Exact, segs[0])
      case Some(c) => ExactWalk(nodes, c, segs[1..])
      case None => None
  }

  // ---------------------------------------------------------------- Get

  /** What a `Get` returns (the node, and the route name on it) and the table it leaves behind. */
  datatype Lookup = Lookup(node: Option<nat>, routerName: string, nodes: seq<Node>)

  /**
   * Get's walk from node `cur` with the route name `acc` accumulated so far: the
   * first child the segment matches is stamped with `acc + "/" + name` and becomes
   * the current node (and is the result at the last segment); an unmatched segment
   * leaves the walk where it is, after the fallback scan for a "*" child.
   */
  function GetFrom(nodes: seq<Node>, cur: nat, segs: seq<string>, acc: string): (l: Lookup)
    requires WellFormed(nodes) && cur < |nodes|
    ensures WellFormed(l.nodes) && |l.nodes| == |nodes|
    ensures l.node.Some? ==> l.node.value < |l.nodes| && l.nodes[l.node.value].routerName == l.routerName
    decreases |segs|
  {
    if segs == [] then
      Lookup(None, "", nodes)
    else
      match Child(nodes, cur, Pattern, segs[0])
      case Some(c) =>
        var name := acc + "/" + nodes[c].name;
        var stamped := nodes[c := nodes[c].(routerName := name)];
        if |segs| == 1 then Lookup(Some(c), name, stamped)
        else GetFrom(stamped, c, segs[1..], name)
      case None =>
        match Child(nodes, cur, Star, segs[0])
        case Some(c) => Lookup(Some(c), nodes[c].routerName, nodes)
        case None => GetFrom(nodes, cur, segs[1..], acc)
  }

  /** The route name `Get` builds from the names it matched: "/" before each one. */
  function RouteName(names: seq<string>): string
  {
    if names == [] then "" else "/" + names[0] + RouteName(names[1..])
  }

  /**
   * No earlier sibling captures a segment: along the exactly-named path of `segs`,
   * the first child Get's matching accepts is that exactly-named child.
   */
  predicate NoCapture(nodes: seq<Node>, cur: nat, segs: seq<string>)
    requires WellFormed(nodes) && cur < |nodes|
    decreases |segs|
  {
    if segs == [] then true
    else
      var c := Child(nodes, cur, Exact, segs[0]);
      c.Some? && Child(nodes, cur, Pattern, segs[0]) == c && NoCapture(nodes, c.value, segs[1..])
  }

  // ---------------------------------------------------------------- properties

  /** The child scan sees only the children list of `cur` and the names of those children. */
  lemma ChildAgrees(a: seq<Node>, b: seq<Node>, cur: nat, rule: Rule, seg: string)
    requires WellFormed(a) && WellFormed(b) && cur < |a| && cur < |b|
    requires a[cur].children == b[cur].children
    requires forall j :: 0 <= j < |a[cur].children| ==> a[a[cur].children[j]].name == b[a[cur].children[j]].name
    ensures Child(a, cur, rule, seg) == Child(b, cur, rule, seg)
  {
  }

  /** Of the route names, Get's matching only reads names and children. */
  lemma ChildShape(a: seq<Node>, b: seq<Node>, cur: nat, rule: Rule, seg: string)
    requires WellFormed(a) && WellFormed(b) && cur < |a| && Shape(a) == Shape(b)
    ensures Child(a, cur, rule, seg) == Child(b, cur, rule, seg)
  {
    assert a[cur].children == Shape(a)[cur].children == b[cur].children;
    forall j | 0 <= j < |a[cur].children|
      ensures a[a[cur].children[j]].name == b[a[cur].children[j]].name
    {
      var i := a[cur].children[j];
      assert Shape(a)[i].name == Shape(b)[i].name;
    }
    ChildAgrees(a, b, cur, rule, seg);
  }

  /**
   * Put keeps every existing node's name, end flag and route name, only appends to
   * children lists (so existing children keep their order), never touches nodes
   * before `cur`, adds at most one node per segment, and a new node is an end node
   * exactly when it is the node the path ends at.
   */
  lemma {:induction false} PutFrame(nodes: seq<Node>, cur: nat, segs: seq<string>)
    requires WellFormed(nodes) && cur < |nodes|
    ensures var p := PutFrom(nodes, cur, segs);
      && |p.nodes| <= |nodes| + |segs|
      && (forall i :: 0 <= i < |nodes| ==>
            && p.nodes[i].name == nodes[i].name
            && p.nodes[i].isEnd == nodes[i].isEnd
            && p.nodes[i].routerName == nodes[i].routerName
            && nodes[i].children <= p.nodes[i].children)
      && (forall i :: 0 <= i < cur ==> p.nodes[i].children == nodes[i].children)
      && (forall i :: |nodes| <= i < |p.nodes| ==> p.nodes[i].routerName == "" && (p.nodes[i].isEnd <==> i == p.at))
    decreases |segs|
  {
    if segs != [] {
      match Child(nodes, cur, Exact, segs[0])
      case Some(c) =>
        PutFrame(nodes, c, segs[1..]);
      case None =>
        var n := |nodes|;
        var grown := Grow(nodes, cur, segs[0], |segs| == 1);
        PutFrame(grown, n, segs[1..]);
        var p := PutFrom(grown, n, segs[1..]);
        assert PutFrom(nodes, cur, segs) == p;
        forall i | 0 <= i < |nodes| ensures nodes[i].children <= p.nodes[i].children {
          assert nodes[i].children <= grown[i].children <= p.nodes[i].children;
        }
        assert grown[n].isEnd <==> n == p.at;
    }
  }

  /** The appended child is the one Put's scan finds next time. */
  lemma GrowFinds(nodes: seq<Node>, cur: nat, seg: string, isEnd: bool)
    requires WellFormed(nodes) && cur < |nodes| && Child(nodes, cur, Exact, seg).None?
    ensures Child(Grow(nodes, cur, seg, isEnd), cur, Exact, seg) == Some(|nodes|)
  {
    var grown := Grow(nodes, cur, seg, isEnd);
    var kids := nodes[cur].children;
    assert grown[cur].children == kids + [|nodes|];
    forall j | 0 <= j < |kids| ensures !Accepts(Exact, grown[grown[cur].children[j]].name, seg) {
      assert grown[cur].children[j] == kids[j] && grown[kids[j]] == nodes[kids[j]];
    }
    assert grown[grown[cur].children[|kids|]].name == seg;
  }

  /** Put's later steps, which start below `cur`, leave the scan at `cur` as it was. */
  lemma PutKeepsChild(nodes: seq<Node>, cur: nat, c: nat, segs: seq<string>, seg: string)
    requires WellFormed(nodes) && cur < c < |nodes|
    ensures Child(PutFrom(nodes, c, segs).nodes, cur, Exact, seg) == Child(nodes, cur, Exact, seg)
  {
    PutFrame(nodes, c, segs);
    ChildAgrees(nodes, PutFrom(nodes, c, segs).nodes, cur, Exact, seg);
  }

  /** After Put, following exactly-named children along the same segments ends at the node Put ended at. */
  lemma {:induction false} PutWalk(nodes: seq<Node>, cur: nat, segs: seq<string>)
    requires WellFormed(nodes) && cur < |nodes|
    ensures ExactWalk(PutFrom(nodes, cur, segs).nodes, cur, segs) == Some(PutFrom(nodes, cur, segs).at)
    decreases |segs|
  {
    if segs != [] {
      var found := Child(nodes, cur, Exact, segs[0]);
      if found.Some? {
        var c := found.value;
        var p := PutFrom(nodes, c, segs[1..]);
        assert PutFrom(nodes, cur, segs) == p;
        PutWalk(nodes, c, segs[1..]);
        PutKeepsChild(nodes, cur, c, segs[1..], segs[0]);
        assert ExactWalk(p.nodes, cur, segs) == ExactWalk(p.nodes, c, segs[1..]);
      } else {
        var n := |nodes|;
        var grown := Grow(nodes, cur, segs[0], |segs| == 1);
        var p := PutFrom(grown, n, segs[1..]);
        assert PutFrom(nodes, cur, segs) == p;
        GrowFinds(nodes, cur, segs[0], |segs| == 1);
        PutWalk(grown, n, segs[1..]);
        PutKeepsChild(grown, cur, n, segs[1..], segs[0]);
        assert ExactWalk(p.nodes, cur, segs) == ExactWalk(p.nodes, n, segs[1..]);
      }
    }
  }

  /** Put of a path that is already present adds no node and changes nothing (so no IsEnd flag either). */
  lemma {:induction false} PutExisting(nodes: seq<Node>, cur: nat, segs: seq<string>)
    requires WellFormed(nodes) && cur < |nodes| && ExactWalk(nodes, cur, segs).Some?
    ensures PutFrom(nodes, cur, segs) == Placed(nodes, ExactWalk(nodes, cur, segs).value)
    decreases |segs|
  {
    if segs != [] {
      PutExisting(nodes, Child(nodes, cur, Exact, segs[0]).value, segs[1..]);
    }
  }

  /** Putting the same path twice is the same as putting it once. */
  lemma PutIdempotent(nodes: seq<Node>, path: string)
    requires WellFormed(nodes)
    ensures var once := PutFrom(nodes, 0, Split(path)[1..]);
            PutFrom(once.nodes, 0, Split(path)[1..]) == once
  {
    var segs := Split(path)[1..];
    PutWalk(nodes, 0, segs);
    PutExisting(PutFrom(nodes, 0, segs).nodes, 0, segs);
  }

  lemma {:induction false} ExactWalkShape(a: seq<Node>, b: seq<Node>, cur: nat, segs: seq<string>)
    requires WellFormed(a) && WellFormed(b) && cur < |a| && Shape(a) == Shape(b)
    ensures ExactWalk(a, cur, segs) == ExactWalk(b, cur, segs)
    decreases |segs|
  {
    if segs != [] {
      ChildShape(a, b, cur, Exact, segs[0]);
      if Child(a, cur, Exact, segs[0]).Some? {
        ExactWalkShape(a, b, Child(a, cur, Exact, segs[0]).value, segs[1..]);
      }
    }
  }

  lemma {:induction false} NoCaptureShape(a: seq<Node>, b: seq<Node>, cur: nat, segs: seq<string>)
    requires WellFormed(a) && WellFormed(b) && cur < |a| && Shape(a) == Shape(b)
    ensures NoCapture(a, cur, segs) == NoCapture(b, cur, segs)
    decreases |segs|
  {
    if segs != [] {
      ChildShape(a, b, cur, Exact, segs[0]);
      ChildShape(a, b, cur, Pattern, segs[0]);
      if Child(a, cur, Exact, segs[0]).Some? {
        NoCaptureShape(a, b, Child(a, cur, Exact, segs[0]).value, segs[1..]);
      }
    }
  }

  /** Stamping a route name on a node leaves the shape of the table alone. */
  lemma StampShape(nodes: seq<Node>, c: nat, name: string)
    requires c < |nodes|
    ensures Shape(nodes[c := nodes[c].(routerName := name)]) == Shape(nodes)
  {
  }

  /** Get writes nothing but route names: names, children and end flags are as they were. */
  lemma {:induction false} GetKeepsShape(nodes: seq<Node>, cur: nat, segs: seq<string>, acc: string)
    requires WellFormed(nodes) && cur < |nodes|
    ensures Shape(GetFrom(nodes, cur, segs, acc).nodes) == Shape(nodes)
    decreases |segs|
  {
    if segs != [] {
      match Child(nodes, cur, Pattern, segs[0])
      case Some(c) =>
        var name := acc + "/" + nodes[c].name;
        var stamped := nodes[c := nodes[c].(routerName := name)];
        StampShape(nodes, c, name);
        if |segs| > 1 {
          GetKeepsShape(stamped, c, segs[1..], name);
        }
      case None =>
        if Child(nodes, cur, Star, segs[0]).None? {
          GetKeepsShape(nodes, cur, segs[1..], acc);
        }
    }
  }

  /** One matched step of Get: stamp the matched child and go on from it (or stop at the last segment). */
  lemma GetMatchStep(nodes: seq<Node>, cur: nat, segs: seq<string>, acc: string, c: nat)
    requires WellFormed(nodes) && cur < |nodes| && |segs| > 0
    requires Child(nodes, cur, Pattern, segs[0]) == Some(c)
    ensures var name := acc + "/" + nodes[c].name;
            var stamped := nodes[c := nodes[c].(routerName := name)];
            GetFrom(nodes, cur, segs, acc) ==
              if |segs| == 1 then Lookup(Some(c), name, stamped) else GetFrom(stamped, c, segs[1..], name)
  {
  }

  /** Accumulating one more matched name is prepending "/" + name to the rest of the route name. */
  lemma RouteNameStep(acc: string, names: seq<string>)
    requires |names| > 0
    ensures acc + "/" + names[0] + RouteName(names[1..]) == acc + RouteName(names)
  {
    ConcatAssoc(acc, "/", names[0]);
    ConcatAssoc(acc, "/" + names[0], RouteName(names[1..]));
  }

  /** Where no sibling captures a segment, Get follows the exactly-named path and names the route after it. */
  lemma {:induction false} GetExact(nodes: seq<Node>, cur: nat, segs: seq<string>, acc: string)
    requires WellFormed(nodes) && cur < |nodes| && |segs| > 0 && NoCapture(nodes, cur, segs)
    ensures var l := GetFrom(nodes, cur, segs, acc);
            l.node.Some? && l.node == ExactWalk(nodes, cur, segs) && l.routerName == acc + RouteName(segs)
    decreases |segs|
  {
    var c := Child(nodes, cur, Exact, segs[0]).value;
    assert Child(nodes, cur, Pattern, segs[0]) == Some(c);
    var name := acc + "/" + nodes[c].name;
    assert nodes[c].name == segs[0];
    assert ExactWalk(nodes, cur, segs) == ExactWalk(nodes, c, segs[1..]);
    var stamped := nodes[c := nodes[c].(routerName := name)];
    GetMatchStep(nodes, cur, segs, acc, c);
    if |segs| > 1 {
      StampShape(nodes, c, name);
      NoCaptureShape(nodes, stamped, c, segs[1..]);
      ExactWalkShape(nodes, stamped, c, segs[1..]);
      GetExact(stamped, c, segs[1..], name);
      RouteNameStep(acc, segs);
      assert name == acc + "/" + segs[0];
      assert name + RouteName(segs[1..]) == acc + RouteName(segs);
    }
  }

  /** "/" before each of a non-empty list of names spells the names joined by '/' after a leading '/'. */
  lemma {:induction false} RouteNameJoin(names: seq<string>)
    requires |names| > 0
    ensures RouteName(names) == "/" + Join(names)
    decreases |names|
  {
    if |names| > 1 {
      RouteNameJoin(names[1..]);
    }
  }

  lemma SplitLeadingSlash(path: string)
    requires |path| > 0 && path[0] == '/'
    ensures Split(path) == [""] + Split(path[1..])
  {
  }

  /** The route name built from the segments of a path that starts with '/' is the path itself. */
  lemma RouteNameOfPath(path: string)
    requires |path| > 0 && path[0] == '/'
    ensures |Split(path)| > 1 && RouteName(Split(path)[1..]) == path
  {
    SplitLeadingSlash(path);
    var segs := Split(path)[1..];
    RouteNameJoin(segs);
    assert Join(segs) == path[1..];
    assert path == "/" + path[1..];
  }

  /**
   * Put then Get: after Put(path), Get(path) returns the node Put ended at, named
   * after the last segment, with route name `path` -- provided `path` starts with
   * '/' and no earlier wildcard sibling captures one of its segments.
   */
  lemma PutThenGet(nodes: seq<Node>, path: string)
    requires WellFormed(nodes) && |path| > 0 && path[0] == '/'
    requires NoCapture(PutFrom(nodes, 0, Split(path)[1..]).nodes, 0, Split(path)[1..])
    ensures var segs := Split(path)[1..];
            var p := PutFrom(nodes, 0, segs);
            var l := GetFrom(p.nodes, 0, segs, "");
            && l.node == Some(p.at)
            && p.nodes[p.at].name == segs[|segs| - 1]
            && l.routerName == path
            && l.nodes[p.at].routerName == path
  {
    var segs := Split(path)[1..];
    RouteNameOfPath(path);
    var p := PutFrom(nodes, 0, segs);
    PutWalk(nodes, 0, segs);
    GetExact(p.nodes, 0, segs, "");
    assert "" + RouteName(segs) == RouteName(segs);
  }

  /** Get's fallback scan for a "*" child never finds one: such a child would have matched already. */
  lemma StarFallbackDead(nodes: seq<Node>, cur: nat, seg: string)
    requires WellFormed(nodes) && cur < |nodes|
    requires Child(nodes, cur, Pattern, seg).None?
    ensures Child(nodes, cur, Star, seg).None?
  {
  }

  /** A segment that matches no child is skipped: Get goes on from the same node with the same route name. */
  lemma GetSkips(nodes: seq<Node>, cur: nat, segs: seq<string>, acc: string)
    requires WellFormed(nodes) && cur < |nodes| && |segs| > 0
    requires Child(nodes, cur, Pattern, segs[0]).None?
    ensures GetFrom(nodes, cur, segs, acc) == GetFrom(nodes, cur, segs[1..], acc)
  {
    StarFallbackDead(nodes, cur, segs[0]);
  }

  /** Get("") finds nothing: the empty path has no segment after the first. */
  lemma GetEmptyPath(nodes: seq<Node>)
    requires WellFormed(nodes)
    ensures GetFrom(nodes, 0, Split("")[1..], "").node == None
  {
  }

  // ---------------------------------------------------------------- what Get matches

  /**
   * Get's walk one entry per segment: Some(c) where the segment matched the child
   * `c` of the current node, which becomes the current node, and None where it
   * matched no child and was skipped. Get reads only names and children, so the
   * walk is taken over the table as it was before Get stamped anything.
   */
  function Trail(nodes: seq<Node>, cur: nat, segs: seq<string>): (t: seq<Option<nat>>)
    requires WellFormed(nodes) && cur < |nodes|
    ensures |t| == |segs|
    ensures forall k :: 0 <= k < |t| && t[k].Some? ==>
              cur < t[k].value < |nodes| && Accepts(Pattern, nodes[t[k].value].name, segs[k])
    decreases |segs|
  {
    if segs == [] then []
    else
      match Child(nodes, cur, Pattern, segs[0])
      case Some(c) => [Some(c)] + Trail(nodes, c, segs[1..])
      case None => [None] + Trail(nodes, cur, segs[1..])
  }

  /** The Some entries of a trail, in order. */
  function Somes(t: seq<Option<nat>>): (m: seq<nat>)
    ensures forall x :: x in m ==> Some(x) in t
  {
    if t == [] then []
    else (if t[0].Some? then [t[0].value] else []) + Somes(t[1..])
  }

  /** The nodes Get matches, in the order it matches them. */
  function Matched(nodes: seq<Node>, cur: nat, segs: seq<string>): (m: seq<nat>)
    requires WellFormed(nodes) && cur < |nodes|
    ensures forall i :: 0 <= i < |m| ==> cur < m[i] < |nodes|
  {
    var t := Trail(nodes, cur, segs);
    var m := Somes(t);
    assert forall i :: 0 <= i < |m| ==> exists k :: 0 <= k < |t| && t[k] == Some(m[i]);
    m
  }

  /** The names of some nodes of the table. */
  function Names(nodes: seq<Node>, m: seq<nat>): seq<string>
    requires forall i :: 0 <= i < |m| ==> m[i] < |nodes|
  {
    if m == [] then [] else [nodes[m[0]].name] + Names(nodes, m[1..])
  }

  /** One segment of the walk: a matched segment puts its node in front of the rest, a skipped one adds nothing. */
  lemma MatchedStep(nodes: seq<Node>, cur: nat, segs: seq<string>)
    requires WellFormed(nodes) && cur < |nodes| && |segs| > 0
    ensures Child(nodes, cur, Pattern, segs[0]).Some? ==>
              var c := Child(nodes, cur, Pattern, segs[0]).value;
              Trail(nodes, cur, segs) == [Some(c)] + Trail(nodes, c, segs[1..]) &&
              Matched(nodes, cur, segs) == [c] + Matched(nodes, c, segs[1..])
    ensures Child(nodes, cur, Pattern, segs[0]).None? ==>
              Trail(nodes, cur, segs) == [None] + Trail(nodes, cur, segs[1..]) &&
              Matched(nodes, cur, segs) == Matched(nodes, cur, segs[1..])
  {
    var t := Trail(nodes, cur, segs);
    assert t[1..] == Trail(nodes, if t[0].Some? then t[0].value else cur, segs[1..]);
  }

  lemma {:induction false} TrailShape(a: seq<Node>, b: seq<Node>, cur: nat, segs: seq<string>)
    requires WellFormed(a) && WellFormed(b) && cur < |a| && Shape(a) == Shape(b)
    ensures Trail(a, cur, segs) == Trail(b, cur, segs)
    decreases |segs|
  {
    if segs != [] {
      ChildShape(a, b, cur, Pattern, segs[0]);
      match Child(a, cur, Pattern, segs[0])
      case Some(c) => TrailShape(a, b, c, segs[1..]);
      case None => TrailShape(a, b, cur, segs[1..]);
    }
  }

  lemma {:induction false} NamesShape(a: seq<Node>, b: seq<Node>, m: seq<nat>)
    requires Shape(a) == Shape(b) && forall i :: 0 <= i < |m| ==> m[i] < |a|
    ensures Names(a, m) == Names(b, m)
    decreases |m|
  {
    if m != [] {
      assert Shape(a)[m[0]].name == Shape(b)[m[0]].name;
      NamesShape(a, b, m[1..]);
    }
  }

  /**
   * The nodes Get matches form a path down the trie: the first is a child of the
   * node the walk starts at, and each next one is a child of the one before.
   */
  lemma {:induction false} MatchedIsPath(nodes: seq<Node>, cur: nat, segs: seq<string>)
    requires WellFormed(nodes) && cur < |nodes|
    ensures var m := Matched(nodes, cur, segs);
            && (|m| > 0 ==> m[0] in nodes[cur].children)
            && (forall i :: 0 <= i < |m| - 1 ==> m[i + 1] in nodes[m[i]].children)
    decreases |segs|
  {
    if segs != [] {
      MatchedStep(nodes, cur, segs);
      match Child(nodes, cur, Pattern, segs[0])
      case Some(c) => MatchedIsPath(nodes, c, segs[1..]);
      case None => MatchedIsPath(nodes, cur, segs[1..]);
    }
  }

  /**
   * What Get does, read off its walk: the result is what the last segment matched
   * -- nothing when it matched no child, otherwise the last node matched, whose
   * route name is built from all the names matched.
   */
  predicate ResultMatched(nodes: seq<Node>, cur: nat, segs: seq<string>, acc: string)
    requires WellFormed(nodes) && cur < |nodes|
  {
    var l := GetFrom(nodes, cur, segs, acc);
    var m := Matched(nodes, cur, segs);
    && l.node == (if segs == [] then None else Trail(nodes, cur, segs)[|segs| - 1])
    && (l.node.Some? ==> |m| > 0 && l.node.value == m[|m| - 1] && l.routerName == acc + RouteName(Names(nodes, m)))
  }

  /**
   * Every node Get matches is stamped with the route name built from the names
   * matched up to and including that node, and no other node changes.
   */
  predicate StampsMatched(nodes: seq<Node>, cur: nat, segs: seq<string>, acc: string)
    requires WellFormed(nodes) && cur < |nodes|
  {
    var l := GetFrom(nodes, cur, segs, acc);
    var m := Matched(nodes, cur, segs);
    && (forall i :: 0 <= i < |m| ==> l.nodes[m[i]].routerName == acc + RouteName(Names(nodes, m[..i + 1])))
    && (forall n :: 0 <= n < |nodes| && n !in m ==> l.nodes[n] == nodes[n])
  }

  /** Get's result and stamps are those its walk determines, for every table, start node and path. */
  lemma {:induction false} GetStamps(nodes: seq<Node>, cur: nat, segs: seq<string>, acc: string)
    requires WellFormed(nodes) && cur < |nodes|
    ensures ResultMatched(nodes, cur, segs, acc) && StampsMatched(nodes, cur, segs, acc)
    decreases |segs|
  {
    if segs != [] {
      match Child(nodes, cur, Pattern, segs[0])
      case Some(c) =>
        if |segs| == 1 {
          StampsLast(nodes, cur, segs, acc, c);
        } else {
          var name := acc + "/" + nodes[c].name;
          GetStamps(nodes[c := nodes[c].(routerName := name)], c, segs[1..], name);
          ResultStep(nodes, cur, segs, acc, c);
          StampsStep(nodes, cur, segs, acc, c);
        }
      case None =>
        GetStamps(nodes, cur, segs[1..], acc);
        SkipStep(nodes, cur, segs, acc);
    }
  }

  /** A segment that matches no child: Get's result and stamps are those of the rest of the path. */
  lemma SkipStep(nodes: seq<Node>, cur: nat, segs: seq<string>, acc: string)
    requires WellFormed(nodes) && cur < |nodes| && |segs| > 0
    requires Child(nodes, cur, Pattern, segs[0]).None?
    requires ResultMatched(nodes, cur, segs[1..], acc) && StampsMatched(nodes, cur, segs[1..], acc)
    ensures ResultMatched(nodes, cur, segs, acc) && StampsMatched(nodes, cur, segs, acc)
  {
    MatchedStep(nodes, cur, segs);
    GetSkips(nodes, cur, segs, acc);
  }

  /** A one-name route name. */
  lemma RouteNameOne(acc: string, name: string)
    ensures acc + RouteName([name]) == acc + "/" + name
  {
    RouteNameStep(acc, [name]);
    assert acc + "/" + name + RouteName([]) == acc + "/" + name;
  }

  /** Prepending a node prepends its name. */
  lemma NamesCons(nodes: seq<Node>, c: nat, m: seq<nat>)
    requires c < |nodes| && forall j :: 0 <= j < |m| ==> m[j] < |nodes|
    ensures Names(nodes, [c] + m) == [nodes[c].name] + Names(nodes, m)
  {
    assert ([c] + m)[1..] == m;
  }

  /** The last segment matches child `c`: Get stamps `c` alone and returns it. */
  lemma StampsLast(nodes: seq<Node>, cur: nat, segs: seq<string>, acc: string, c: nat)
    requires WellFormed(nodes) && cur < |nodes| && |segs| == 1
    requires Child(nodes, cur, Pattern, segs[0]) == Some(c)
    ensures ResultMatched(nodes, cur, segs, acc) && StampsMatched(nodes, cur, segs, acc)
  {
    MatchedStep(nodes, cur, segs);
    var m := Matched(nodes, cur, segs);
    assert m == [c] && m[..1] == [c];
    NamesCons(nodes, c, []);
    RouteNameOne(acc, nodes[c].name);
  }

  /** A matched segment that is not the last: Get goes on from `c` and returns what it returns below `c`. */
  lemma ResultStep(nodes: seq<Node>, cur: nat, segs: seq<string>, acc: string, c: nat)
    requires WellFormed(nodes) && cur < |nodes| && |segs| > 1
    requires Child(nodes, cur, Pattern, segs[0]) == Some(c)
    requires ResultMatched(nodes[c := nodes[c].(routerName := acc + "/" + nodes[c].name)], c, segs[1..], acc + "/" + nodes[c].name)
    ensures ResultMatched(nodes, cur, segs, acc)
  {
    var name := acc + "/" + nodes[c].name;
    var stamped := nodes[c := nodes[c].(routerName := name)];
    MatchedStep(nodes, cur, segs);
    StampShape(nodes, c, name);
    TrailShape(stamped, nodes, c, segs[1..]);
    var l := GetFrom(stamped, c, segs[1..], name);
    assert l == GetFrom(nodes, cur, segs, acc);
    var m := Matched(nodes, cur, segs);
    var rest := Matched(nodes, c, segs[1..]);
    assert Matched(stamped, c, segs[1..]) == rest;
    if l.node.Some? {
      NamesShape(stamped, nodes, rest);
      NamesCons(nodes, c, rest);
      RouteNameStep(acc, Names(nodes, m));
    }
  }

  /** A matched segment that is not the last: Get's stamps below `c` extend by the stamp on `c`. */
  lemma StampsStep(nodes: seq<Node>, cur: nat, segs: seq<string>, acc: string, c: nat)
    requires WellFormed(nodes) && cur < |nodes| && |segs| > 1
    requires Child(nodes, cur, Pattern, segs[0]) == Some(c)
    requires StampsMatched(nodes[c := nodes[c].(routerName := acc + "/" + nodes[c].name)], c, segs[1..], acc + "/" + nodes[c].name)
    ensures StampsMatched(nodes, cur, segs, acc)
  {
    var name := acc + "/" + nodes[c].name;
    var stamped := nodes[c := nodes[c].(routerName := name)];
    var rest := Matched(nodes, c, segs[1..]);
    MatchedBelow(nodes, cur, segs, acc, c);
    GetMatchStep(nodes, cur, segs, acc, c);
    var after := GetFrom(stamped, c, segs[1..], name).nodes;
    StampsOnPath(nodes, stamped, after, acc, c, rest);
  }

  /** Below a matched `c`, the walk over the stamped table matches what it matches over the table, none of it `c`. */
  lemma MatchedBelow(nodes: seq<Node>, cur: nat, segs: seq<string>, acc: string, c: nat)
    requires WellFormed(nodes) && cur < |nodes| && |segs| > 1
    requires Child(nodes, cur, Pattern, segs[0]) == Some(c)
    ensures var stamped := nodes[c := nodes[c].(routerName := acc + "/" + nodes[c].name)];
            && WellFormed(stamped) && c < |stamped|
            && Matched(stamped, c, segs[1..]) == Matched(nodes, c, segs[1..])
            && Matched(nodes, cur, segs) == [c] + Matched(nodes, c, segs[1..])
            && c !in Matched(nodes, c, segs[1..])
  {
    var name := acc + "/" + nodes[c].name;
    var stamped := nodes[c := nodes[c].(routerName := name)];
    MatchedStep(nodes, cur, segs);
    StampShape(nodes, c, name);
    TrailShape(stamped, nodes, c, segs[1..]);
  }

  /** The stamps on the matched nodes `c` and then `rest`, given the stamps below `c`. */
  lemma StampsOnPath(nodes: seq<Node>, stamped: seq<Node>, after: seq<Node>, acc: string, c: nat, rest: seq<nat>)
    requires c < |nodes| && stamped == nodes[c := nodes[c].(routerName := acc + "/" + nodes[c].name)]
    requires |after| == |nodes| && after[c] == stamped[c]
    requires forall j :: 0 <= j < |rest| ==> rest[j] < |nodes|
    requires forall j :: 0 <= j < |rest| ==>
               after[rest[j]].routerName == acc + "/" + nodes[c].name + RouteName(Names(stamped, rest[..j + 1]))
    ensures forall i :: 0 <= i < |[c] + rest| ==>
              after[([c] + rest)[i]].routerName == acc + RouteName(Names(nodes, ([c] + rest)[..i + 1]))
  {
    var m := [c] + rest;
    forall i | 0 <= i < |m|
      ensures after[m[i]].routerName == acc + RouteName(Names(nodes, m[..i + 1]))
    {
      if i == 0 {
        StampedFirst(nodes, acc, c, rest);
      } else {
        assert m[i] == rest[i - 1];
        StampedBelow(nodes, stamped, acc, c, rest, i);
      }
    }
  }

  /** The stamp on the first matched node `c`. */
  lemma StampedFirst(nodes: seq<Node>, acc: string, c: nat, rest: seq<nat>)
    requires c < |nodes| && forall j :: 0 <= j < |rest| ==> rest[j] < |nodes|
    ensures ([c] + rest)[..1] == [c]
    ensures acc + "/" + nodes[c].name == acc + RouteName(Names(nodes, ([c] + rest)[..1]))
  {
    assert ([c] + rest)[..1] == [c];
    NamesCons(nodes, c, []);
    RouteNameOne(acc, nodes[c].name);
  }

  /** The stamp on the i-th matched node, counted from `c`, read through the stamps below `c`. */
  lemma StampedBelow(nodes: seq<Node>, stamped: seq<Node>, acc: string, c: nat, rest: seq<nat>, i: nat)
    requires c < |nodes| && stamped == nodes[c := nodes[c].(routerName := acc + "/" + nodes[c].name)]
    requires 0 < i <= |rest| && forall j :: 0 <= j < |rest| ==> rest[j] < |nodes|
    ensures ([c] + rest)[..i + 1] == [c] + rest[..i]
    ensures acc + "/" + nodes[c].name + RouteName(Names(stamped, rest[..i])) == acc + RouteName(Names(nodes, ([c] + rest)[..i + 1]))
  {
    var name := acc + "/" + nodes[c].name;
    assert ([c] + rest)[..i + 1] == [c] + rest[..i];
    StampShape(nodes, c, name);
    NamesShape(stamped, nodes, rest[..i]);
    NamesCons(nodes, c, rest[..i]);
    RouteNameStep(acc, Names(nodes, [c] + rest[..i]));
  }

  // ---------------------------------------------------------------- the trie object

  class Tree {
    var nodes: seq<Node>

    ghost predicate Valid()
      reads this
    {
      WellFormed(nodes)
    }

    /** A trie holding only its root, named `name`, with no children yet. */
    constructor (name: string)
      ensures Valid() && nodes == [Node(name, [], "", false)]
    {
      nodes := [Node(name, [], "", false)];
    }

    /** The scan over `t.Children` shared by Put and Get: the first child `rule` accepts. */
    method FindChild(cur: nat, rule: Rule, seg: string) returns (c: Option<nat>)
      requires Valid() && cur < |nodes|
      ensures c == Child(nodes, cur, rule, seg)
    {
      var children := nodes[cur].children;
      var k := 0;
      while k < |children|
        invariant 0 <= k <= |children|
        invariant forall j :: 0 <= j < k ==> !Accepts(rule, nodes[children[j]].name, seg)
      {
        if Accepts(rule, nodes[children[k]].name, seg) {
          return Some(children[k]);
        }
        k := k + 1;
      }
      return None;
    }

    /** Put(path): insert the segments of `path` after the first, reusing exactly-named children. */
    method Put(path: string)
      requires Valid()
      modifies this
      ensures Valid()
      ensures nodes == PutFrom(old(nodes), 0, Split(path)[1..]).nodes
    {
      var strs := Split(path);
      var t: nat := 0;
      var index := 1;
      while index < |strs|
        invariant 1 <= index <= |strs|
        invariant Valid() && t < |nodes|
        invariant PutFrom(nodes, t, strs[index..]).nodes == PutFrom(old(nodes), 0, strs[1..]).nodes
      {
        var name := strs[index];
        assert strs[index..][0] == name && strs[index..][1..] == strs[index + 1..];
        var found := FindChild(t, Exact, name);
        if found.Some? {
          t := found.value;
        } else {
          var isEnd := index == |strs| - 1;
          var n := |nodes|;
          ghost var before := nodes;
          nodes := nodes[t := nodes[t].(children := nodes[t].children + [n])] + [Node(name, [], "", isEnd)];
          assert nodes == Grow(before, t, name, isEnd);
          t := n;
        }
        index := index + 1;
      }
    }

    /**
     * One turn of Get's loop, for segment `seg` at node `t` with the route
     * name `acc` so far, where `rest` are the segments after it: either the
     * lookup ends here (`stop`, with result `found`), or it goes on from node
     * `next` with route name `name`.
     */
    method GetStep(t: nat, seg: string, last: bool, acc: string, ghost rest: seq<string>)
      returns (next: nat, name: string, found: Option<nat>, stop: bool)
      requires Valid() && t < |nodes| && last == (rest == [])
      modifies this
      ensures Valid() && next < |nodes|
      ensures var l := GetFrom(old(nodes), t, [seg] + rest, acc);
              if stop then l.node == found && l.nodes == nodes else l == GetFrom(nodes, next, rest, name)
    {
      assert ([seg] + rest)[0] == seg && ([seg] + rest)[1..] == rest;
      var matched := FindChild(t, Pattern, seg);
      if matched.Some? {
        var node := matched.value;
        name := acc + "/" + nodes[node].name;
        nodes := nodes[node := nodes[node].(routerName := name)];
        next := node;
        if last {
          return next, name, Some(node), true;
        }
        return next, name, None, false;
      }
      var star := FindChild(t, Star, seg);
      if star.Some? {
        return t, acc, star, true;
      }
      return t, acc, None, false;
    }

    /** Get(path): the node matched at the last segment of `path`, stamping route names on the way. */
    method Get(path: string) returns (r: Option<nat>)
      requires Valid()
      modifies this
      ensures Valid()
      ensures var l := GetFrom(old(nodes), 0, Split(path)[1..], ""); r == l.node && nodes == l.nodes
    {
      var strs := Split(path);
      var t: nat := 0;
      var routerName := "";
      var index := 1;
      while index < |strs|
        invariant 1 <= index <= |strs|
        invariant Valid() && t < |nodes|
        invariant GetFrom(nodes, t, strs[index..], routerName) == GetFrom(old(nodes), 0, strs[1..], "")
      {
        assert strs[index..] == [strs[index]] + strs[index + 1..];
        var found, stop;
        t, routerName, found, stop := GetStep(t, strs[index], index == |strs| - 1, routerName, strs[index + 1..]);
        if stop {
          return found;
        }
        index := index + 1;
      }
      return None;
    }
  }
}
