/**
 * Route registration and the dispatch decision of route.go.
 *
 * A Router holds its RouterGroups in creation order.  Each group keeps three
 * nested maps (handlers, route middlewares, routes per method), a list of
 * group middlewares and its own route trie.  Handlers and middlewares are
 * opaque callables in the framework; here they are ids, and the value a
 * middleware returns is recorded as a `Wrapped` layer, so that the order of
 * composition can be stated.  Dispatch returns its outcome instead of
 * writing a status to the response.
 */
module Route {
  import opened Wrappers
  import opened Utils
  import opened RouteTree

  type HandlerId = int
  type MiddlewareId = int

  /** The method strings the per-method registration helpers use. */
  const MethodAny := "Any"
  const MethodGet := "GET"
  const MethodPost := "POST"
  const MethodDelete := "DELETE"
  const MethodPut := "PUT"
  const MethodPatch := "PATCH"
  const MethodOptions := "OPTIONS"
  const MethodHead := "HEAD"

  // ---------------------------------------------------------------- middleware composition

  /** A handler: a registered one, or what a middleware made of an inner handler. */
  datatype Handler = Base(id: HandlerId) | Wrapped(mw: MiddlewareId, inner: Handler)

  /** Each middleware in turn wraps the handler built so far, so the last one ends up outermost. */
  function Chain(h: Handler, mws: seq<MiddlewareId>): Handler
    decreases |mws|
  {
    if mws == [] then h else Wrapped(mws[|mws| - 1], Chain(h, mws[..|mws| - 1]))
  }

  /** The middlewares around a handler, innermost first. */
  function Layers(h: Handler): seq<MiddlewareId>
  {
    match h
    case Base(_) => []
    case Wrapped(m, inner) => Layers(inner) + [m]
  }

  /** The registered handler at the centre of a composed one. */
  function Core(h: Handler): HandlerId
  {
    match h
    case Base(id) => id
    case Wrapped(_, inner) => Core(inner)
  }

  /** Composing adds exactly the given middlewares, innermost first, around the same handler. */
  lemma {:induction false} ChainLayers(h: Handler, mws: seq<MiddlewareId>)
    ensures Layers(Chain(h, mws)) == Layers(h) + mws
    ensures Core(Chain(h, mws)) == Core(h)
    decreases |mws|
  {
    if mws != [] {
      var init := mws[..|mws| - 1];
      ChainLayers(h, init);
      assert init + [mws[|mws| - 1]] == mws;
      ConcatAssoc(Layers(h), init, [mws[|mws| - 1]]);
    }
  }

  /** Composing with two lists in a row is composing with their concatenation. */
  lemma {:induction false} ChainAppend(h: Handler, a: seq<MiddlewareId>, b: seq<MiddlewareId>)
    ensures Chain(Chain(h, a), b) == Chain(h, a + b)
    decreases |b|
  {
    if b != [] {
      var init := b[..|b| - 1];
      ChainAppend(h, a, init);
      assert a + b != [];
      assert (a + b)[..|a + b| - 1] == a + init;
      assert (a + b)[|a + b| - 1] == b[|b| - 1];
    } else {
      assert a + b == a;
    }
  }

  // ---------------------------------------------------------------- a group's registry

  /** The three maps of a RouterGroup. */
  datatype Registry = Registry(
    handlerMap: map<string, map<string, HandlerId>>,
    middlewaresFuncMap: map<string, map<string, seq<MiddlewareId>>>,
    handlerMethodMap: map<string, seq<string>>)

  const EmptyRegistry := Registry(map[], map[], map[])

  /** The handler stored for a route and method, looked up with comma-ok: a missing inner map reads as absent. */
  function HandlerOf(r: Registry, name: string, verb: string): (o: Option<HandlerId>)
    ensures o.Some? <==> name in r.handlerMap && verb in r.handlerMap[name]
    ensures o.Some? ==> o.value == r.handlerMap[name][verb]
  {
    if name in r.handlerMap && verb in r.handlerMap[name] then Some(r.handlerMap[name][verb]) else None
  }

  /** The middlewares stored for a route and method; a missing list reads as the empty list. */
  function RouteMiddlewares(r: Registry, name: string, verb: string): (mws: seq<MiddlewareId>)
    ensures name in r.middlewaresFuncMap && verb in r.middlewaresFuncMap[name] ==>
              mws == r.middlewaresFuncMap[name][verb]
    ensures !(name in r.middlewaresFuncMap && verb in r.middlewaresFuncMap[name]) ==> mws == []
  {
    if name in r.middlewaresFuncMap && verb in r.middlewaresFuncMap[name] then r.middlewaresFuncMap[name][verb] else []
  }

  /** The route names recorded for a method; a missing list reads as the empty list. */
  function MethodRoutes(r: Registry, verb: string): (names: seq<string>)
    ensures verb in r.handlerMethodMap ==> names == r.handlerMethodMap[verb]
    ensures verb !in r.handlerMethodMap ==> names == []
  {
    if verb in r.handlerMethodMap then r.handlerMethodMap[verb] else []
  }

  /** Every route with handlers also has a middleware map, and the other way round. */
  predicate KeysAgree(r: Registry)
  {
    r.handlerMap.Keys == r.middlewaresFuncMap.Keys
  }

  /**
   * The three map updates of `handle`: a route seen for the first time gets
   * fresh inner maps; the handler is stored (overwriting); the name is
   * appended to the method's route list; the middlewares are appended to the
   * route's list.
   */
  function Register(r: Registry, name: string, verb: string, h: HandlerId, mws: seq<MiddlewareId>): Registry
  {
    var isNew := name !in r.handlerMap;
    var hm := if isNew then map[] else r.handlerMap[name];
    var mm := if isNew || name !in r.middlewaresFuncMap then map[] else r.middlewaresFuncMap[name];
    var old_mws := if verb in mm then mm[verb] else [];
    Registry(
      r.handlerMap[name := hm[verb := h]],
      r.middlewaresFuncMap[name := mm[verb := old_mws + mws]],
      r.handlerMethodMap[verb := MethodRoutes(r, verb) + [name]])
  }

  /** After registering, the route's handler for the method is the new one; every other lookup is unchanged. */
  lemma RegisterHandler(r: Registry, name: string, verb: string, h: HandlerId, mws: seq<MiddlewareId>,
                        n: string, m: string)
    ensures var r' := Register(r, name, verb, h, mws);
            HandlerOf(r', n, m) == if n == name && m == verb then Some(h) else HandlerOf(r, n, m)
  {
  }

  /** Registering keeps the two maps keyed by the same routes. */
  lemma RegisterKeepsKeys(r: Registry, name: string, verb: string, h: HandlerId, mws: seq<MiddlewareId>)
    requires KeysAgree(r)
    ensures KeysAgree(Register(r, name, verb, h, mws))
  {
  }

  /** Route middlewares accumulate over registrations; other routes' lists are unchanged. */
  lemma RegisterMiddlewares(r: Registry, name: string, verb: string, h: HandlerId, mws: seq<MiddlewareId>,
                            n: string, m: string)
    requires KeysAgree(r)
    ensures var r' := Register(r, name, verb, h, mws);
            RouteMiddlewares(r', n, m) ==
              if n == name && m == verb then RouteMiddlewares(r, n, m) + mws else RouteMiddlewares(r, n, m)
  {
  }

  /** The method's route list gains the name at its end, duplicates kept; other methods' lists are unchanged. */
  lemma RegisterMethodRoutes(r: Registry, name: string, verb: string, h: HandlerId, mws: seq<MiddlewareId>,
                             m: string)
    ensures var r' := Register(r, name, verb, h, mws);
            MethodRoutes(r', m) == if m == verb then MethodRoutes(r, m) + [name] else MethodRoutes(r, m)
  {
  }

  // ---------------------------------------------------------------- dispatch, as a function of the groups

  /** What a group holds that dispatch reads. */
  datatype GroupView = GroupView(groupName: string, registry: Registry, middlewares: seq<MiddlewareId>,
                                 nodes: seq<Node>)

  /** The outcome of a request: the composed handler to call, 405, or 404. */
  datatype Outcome =
    | Handled(group: nat, route: string, verb: string, handler: Handler)
    | MethodNotAllowed(group: nat, route: string)
    | NotFound

  /** The handler `methodHandle` calls: group middlewares first, then the route's, around `h`. */
  function Composed(v: GroupView, route: string, verb: string, h: HandlerId): Handler
  {
    Chain(Chain(Base(h), v.middlewares), RouteMiddlewares(v.registry, route, verb))
  }

  /** The part of a group's route the trie sees: what follows the first "/"+groupName. */
  function RoutePart(v: GroupView, path: string): string
  {
    SubStringLast(path, "/" + v.groupName)
  }

  /** The trie lookup a group makes for a request path. */
  function Probe(v: GroupView, path: string): Lookup
    requires WellFormed(v.nodes)
  {
    GetFrom(v.nodes, 0, Split(RoutePart(v, path))[1..], "")
  }

  /** One group's decision: None when its trie finds nothing, so the next group is tried. */
  function Decide(v: GroupView, g: nat, path: string, verb: string): (d: Option<Outcome>)
    requires WellFormed(v.nodes)
    ensures d.None? <==> Probe(v, path).node.None?
    ensures d.Some? ==> !d.value.NotFound? && d.value.group == g && d.value.route == Probe(v, path).routerName
  {
    var l := Probe(v, path);
    if l.node.None? then None
    else
      var route := l.routerName;
      match HandlerOf(v.registry, route, MethodAny)
      case Some(h) => Some(Handled(g, route, MethodAny, Composed(v, route, MethodAny, h)))
      case None =>
        match HandlerOf(v.registry, route, verb)
        case Some(h) => Some(Handled(g, route, verb, Composed(v, route, verb, h)))
        case None => Some(MethodNotAllowed(g, route))
  }

  predicate AllWellFormed(views: seq<GroupView>)
  {
    forall k :: 0 <= k < |views| ==> WellFormed(views[k].nodes)
  }

  /** Each group's decision, in creation order. */
  function Decisions(views: seq<GroupView>, path: string, verb: string): (ds: seq<Option<Outcome>>)
    requires AllWellFormed(views)
    ensures |ds| == |views| && forall k :: 0 <= k < |views| ==> ds[k] == Decide(views[k], k, path, verb)
  {
    seq(|views|, k requires 0 <= k < |views| => Decide(views[k], k, path, verb))
  }

  /** Decisions as groups make them: none is a 404, and each names its own group. */
  predicate Tagged(ds: seq<Option<Outcome>>)
  {
    forall k :: 0 <= k < |ds| && ds[k].Some? ==> !ds[k].value.NotFound? && ds[k].value.group == k
  }

  /** The loop over groups with its early return: the first decision made, or 404. */
  function FirstDecided(ds: seq<Option<Outcome>>, i: nat): Outcome
    requires i <= |ds|
    decreases |ds| - i
  {
    if i == |ds| then NotFound
    else if ds[i].Some? then ds[i].value
    else FirstDecided(ds, i + 1)
  }

  /** How many groups the loop probes: up to and including the deciding one. */
  function Probed(ds: seq<Option<Outcome>>, i: nat): (n: nat)
    requires i <= |ds|
    ensures i <= n <= |ds|
    decreases |ds| - i
  {
    if i == |ds| then i
    else if ds[i].Some? then i + 1
    else Probed(ds, i + 1)
  }

  /**
   * The outcome is 404 exactly when no group decides; otherwise it is the
   * decision of the first group that decides, and that group is the last one
   * probed.
   */
  lemma {:induction false} FirstDecidedSpec(ds: seq<Option<Outcome>>, i: nat)
    requires Tagged(ds) && i <= |ds|
    ensures var o := FirstDecided(ds, i);
            (o.NotFound? <==> forall k :: i <= k < |ds| ==> ds[k].None?) &&
            (o.NotFound? ==> Probed(ds, i) == |ds|) &&
            (!o.NotFound? ==> i <= o.group < |ds| && ds[o.group] == Some(o) && Probed(ds, i) == o.group + 1 &&
                              forall k :: i <= k < o.group ==> ds[k].None?)
    decreases |ds| - i
  {
    if i < |ds| && ds[i].None? {
      FirstDecidedSpec(ds, i + 1);
    }
  }

  lemma DecisionsTagged(views: seq<GroupView>, path: string, verb: string)
    requires AllWellFormed(views)
    ensures Tagged(Decisions(views, path, verb))
  {
  }

  /**
   * Dispatch over a router's groups, as the request handler decides it: 404
   * exactly when no group decides, otherwise the decision of the first group
   * that does.
   */
  function Dispatch(views: seq<GroupView>, path: string, verb: string): (o: Outcome)
    requires AllWellFormed(views)
    ensures o.NotFound? <==> forall k :: 0 <= k < |views| ==> Decide(views[k], k, path, verb).None?
    ensures !o.NotFound? ==>
              && o.group < |views|
              && Decide(views[o.group], o.group, path, verb) == Some(o)
              && forall k :: 0 <= k < o.group ==> Decide(views[k], k, path, verb).None?
  {
    var ds := Decisions(views, path, verb);
    DecisionsTagged(views, path, verb);
    FirstDecidedSpec(ds, 0);
    FirstDecided(ds, 0)
  }

  /**
   * The dispatch decision in one place: 404 exactly when no group's trie
   * finds a node; otherwise the first group whose trie finds one decides, an
   * Any handler there beats the request method's, and a route with neither is
   * 405.
   */
  lemma DispatchOutcome(views: seq<GroupView>, path: string, verb: string)
    requires AllWellFormed(views)
    ensures var o := Dispatch(views, path, verb);
            (o.NotFound? <==> forall k :: 0 <= k < |views| ==> Probe(views[k], path).node.None?) &&
            (!o.NotFound? ==>
              0 <= o.group < |views| &&
              var v := views[o.group];
              var l := Probe(v, path);
              l.node.Some? && o.route == l.routerName &&
              (forall k :: 0 <= k < o.group ==> Probe(views[k], path).node.None?) &&
              match HandlerOf(v.registry, o.route, MethodAny)
              case Some(h) => o == Handled(o.group, o.route, MethodAny, Composed(v, o.route, MethodAny, h))
              case None =>
                match HandlerOf(v.registry, o.route, verb)
                case Some(h) => o == Handled(o.group, o.route, verb, Composed(v, o.route, verb, h))
                case None => o == MethodNotAllowed(o.group, o.route))
  {
    var ds := Decisions(views, path, verb);
    DecisionsTagged(views, path, verb);
    FirstDecidedSpec(ds, 0);
  }

  /** The handler a group decides on is its registered one, in the group's then the route's middlewares. */
  lemma DecideLayers(v: GroupView, g: nat, path: string, verb: string)
    requires WellFormed(v.nodes)
    ensures var d := Decide(v, g, path, verb);
            d.Some? && d.value.Handled? ==>
              HandlerOf(v.registry, d.value.route, d.value.verb) == Some(Core(d.value.handler)) &&
              Layers(d.value.handler) == v.middlewares + RouteMiddlewares(v.registry, d.value.route, d.value.verb)
  {
    var d := Decide(v, g, path, verb);
    if d.Some? && d.value.Handled? {
      var o := d.value;
      var h := HandlerOf(v.registry, o.route, o.verb).value;
      assert o.handler == Composed(v, o.route, o.verb, h);
      ChainLayers(Base(h), v.middlewares);
      ChainLayers(Chain(Base(h), v.middlewares), RouteMiddlewares(v.registry, o.route, o.verb));
    }
  }

  /** The handler called is the registered one, wrapped in the group's then the route's middlewares. */
  lemma HandledLayers(views: seq<GroupView>, path: string, verb: string)
    requires AllWellFormed(views)
    ensures var o := Dispatch(views, path, verb);
            o.Handled? ==>
              0 <= o.group < |views| &&
              var v := views[o.group];
              HandlerOf(v.registry, o.route, o.verb) == Some(Core(o.handler)) &&
              Layers(o.handler) == v.middlewares + RouteMiddlewares(v.registry, o.route, o.verb)
  {
    var ds := Decisions(views, path, verb);
    DecisionsTagged(views, path, verb);
    FirstDecidedSpec(ds, 0);
    var o := Dispatch(views, path, verb);
    if o.Handled? {
      DecideLayers(views[o.group], o.group, path, verb);
    }
  }

  /** A group whose "/"+name does not occur in the path finds nothing, so it never decides. */
  lemma AbsentGroupSkipped(v: GroupView, g: nat, path: string, verb: string)
    requires WellFormed(v.nodes) && !Contains(path, "/" + v.groupName)
    ensures Probe(v, path).node.None? && Decide(v, g, path, verb).None?
  {
    GetEmptyPath(v.nodes);
  }

  /** When no group's "/"+name occurs in the path the outcome is 404. */
  lemma NoGroupNotFound(views: seq<GroupView>, path: string, verb: string)
    requires AllWellFormed(views)
    requires forall k :: 0 <= k < |views| ==> !Contains(path, "/" + views[k].groupName)
    ensures Dispatch(views, path, verb) == NotFound
  {
    forall k | 0 <= k < |views| ensures Probe(views[k], path).node.None? {
      AbsentGroupSkipped(views[k], k, path, verb);
    }
    DispatchOutcome(views, path, verb);
  }

  // ---------------------------------------------------------------- the objects

  class RouterGroup {
    const groupName: string
    var handlerMap: map<string, map<string, HandlerId>>
    var middlewaresFuncMap: map<string, map<string, seq<MiddlewareId>>>
    var handlerMethodMap: map<string, seq<string>>
    const treeNode: Tree
    var middlewares: seq<MiddlewareId>

    ghost predicate Valid()
      reads this, treeNode
    {
      treeNode.Valid() && KeysAgree(State())
    }

    function State(): Registry
      reads this
    {
      Registry(handlerMap, middlewaresFuncMap, handlerMethodMap)
    }

    function View(): GroupView
      reads this, treeNode
    {
      GroupView(groupName, State(), middlewares, treeNode.nodes)
    }

    /** The group `Router.Group` builds: empty maps, no middlewares, a trie whose root is "/". */
    constructor (name: string)
      ensures Valid() && fresh(treeNode)
      ensures groupName == name && State() == EmptyRegistry && middlewares == []
      ensures treeNode.nodes == [Node("/", [], "", false)]
    {
      groupName := name;
      handlerMap := map[];
      middlewaresFuncMap := map[];
      handlerMethodMap := map[];
      treeNode := new Tree("/");
      middlewares := [];
    }

    /** Appends group middlewares. */
    method Use(mws: seq<MiddlewareId>)
      modifies this
      ensures middlewares == old(middlewares) + mws
      ensures State() == old(State())
    {
      middlewares := middlewares + mws;
    }

    /** Composes the handler `methodHandle` calls for a route and method. */
    method MethodHandle(name: string, verb: string, h: HandlerId) returns (composed: Handler)
      ensures composed == Composed(View(), name, verb, h)
    {
      var cur := Base(h);
      var i := 0;
      while i < |middlewares|
        invariant 0 <= i <= |middlewares|
        invariant cur == Chain(Base(h), middlewares[..i])
      {
        assert middlewares[..i + 1][..i] == middlewares[..i];
        cur := Wrapped(middlewares[i], cur);
        i := i + 1;
      }
      assert middlewares[..i] == middlewares;
      var base := cur;
      var funcs: seq<MiddlewareId> := [];
      if name in middlewaresFuncMap && verb in middlewaresFuncMap[name] {
        funcs := middlewaresFuncMap[name][verb];
      }
      var j := 0;
      while j < |funcs|
        invariant 0 <= j <= |funcs|
        invariant cur == Chain(base, funcs[..j])
      {
        assert funcs[..j + 1][..j] == funcs[..j];
        cur := Wrapped(funcs[j], cur);
        j := j + 1;
      }
      assert funcs[..j] == funcs;
      composed := cur;
    }

    /** The first step of `handle`: a route seen for the first time gets fresh, empty inner maps. */
    method AddRoute(name: string)
      requires name in handlerMap ==> name in middlewaresFuncMap
      modifies this`handlerMap, this`middlewaresFuncMap
      ensures name in handlerMap && name in middlewaresFuncMap
      ensures name in old(handlerMap) ==> handlerMap == old(handlerMap) && middlewaresFuncMap == old(middlewaresFuncMap)
      ensures name !in old(handlerMap) ==>
                handlerMap == old(handlerMap)[name := map[]] && middlewaresFuncMap == old(middlewaresFuncMap)[name := map[]]
    {
      if name !in handlerMap {
        handlerMap := handlerMap[name := map[]];
        middlewaresFuncMap := middlewaresFuncMap[name := map[]];
      }
    }

    /** The map updates of `handle`. */
    method Record(name: string, verb: string, h: HandlerId, mws: seq<MiddlewareId>)
      requires KeysAgree(State())
      modifies this`handlerMap, this`middlewaresFuncMap, this`handlerMethodMap
      ensures State() == Register(old(State()), name, verb, h, mws)
    {
      AddRoute(name);
      SetHandler(name, verb, h);
      AppendRoute(name, verb);
      AppendMiddlewares(name, verb, mws);
      ghost var r := Register(old(State()), name, verb, h, mws);
      assert handlerMap == r.handlerMap;
      assert handlerMethodMap == r.handlerMethodMap;
      assert middlewaresFuncMap == r.middlewaresFuncMap;
    }

    /** Stores the handler under the route and method, replacing any earlier one. */
    method SetHandler(name: string, verb: string, h: HandlerId)
      requires name in handlerMap
      modifies this`handlerMap
      ensures handlerMap == old(handlerMap)[name := old(handlerMap)[name][verb := h]]
    {
      var handlers := handlerMap[name][verb := h];
      handlerMap := handlerMap[name := handlers];
    }

    /** Appends the route name to the method's list of routes. */
    method AppendRoute(name: string, verb: string)
      modifies this`handlerMethodMap
      ensures handlerMethodMap == old(handlerMethodMap)[verb := MethodRoutes(old(State()), verb) + [name]]
    {
      var routes := if verb in handlerMethodMap then handlerMethodMap[verb] else [];
      handlerMethodMap := handlerMethodMap[verb := routes + [name]];
    }

    /** Appends the middlewares to the list kept for the route and method. */
    method AppendMiddlewares(name: string, verb: string, mws: seq<MiddlewareId>)
      requires name in middlewaresFuncMap
      modifies this`middlewaresFuncMap
      ensures var funcs := old(middlewaresFuncMap)[name];
              middlewaresFuncMap ==
                old(middlewaresFuncMap)[name := funcs[verb := (if verb in funcs then funcs[verb] else []) + mws]]
    {
      var funcs := middlewaresFuncMap[name];
      var acc := if verb in funcs then funcs[verb] else [];
      middlewaresFuncMap := middlewaresFuncMap[name := funcs[verb := acc + mws]];
    }

    /** Registers a handler and route middlewares for a route and method, and inserts the route into the trie. */
    method Handle(name: string, verb: string, h: HandlerId, mws: seq<MiddlewareId>)
      requires Valid()
      modifies this, treeNode
      ensures Valid()
      ensures State() == Register(old(State()), name, verb, h, mws)
      ensures treeNode.nodes == PutFrom(old(treeNode.nodes), 0, Split(name)[1..]).nodes
      ensures middlewares == old(middlewares)
    {
      RegisterKeepsKeys(State(), name, verb, h, mws);
      Record(name, verb, h, mws);
      treeNode.Put(name);
    }

    /**
     * One turn of the request handler's loop over groups: look the route part
     * of the path up in the trie; on a node, take its Any handler, else the
     * request method's, else 405; without a node, let the next group try.
     */
    method Attempt(g: nat, path: string, verb: string) returns (d: Option<Outcome>)
      requires treeNode.Valid()
      modifies treeNode
      ensures treeNode.Valid()
      ensures d == Decide(old(View()), g, path, verb)
      ensures treeNode.nodes == Probe(old(View()), path).nodes
    {
      var routerName := SubStringLast(path, "/" + groupName);
      var node := treeNode.Get(routerName);
      if node.None? {
        return None;
      }
      var route := treeNode.nodes[node.value].routerName;
      if route in handlerMap && MethodAny in handlerMap[route] {
        var h := MethodHandle(route, MethodAny, handlerMap[route][MethodAny]);
        return Some(Handled(g, route, MethodAny, h));
      }
      if route in handlerMap && verb in handlerMap[route] {
        var h := MethodHandle(route, verb, handlerMap[route][verb]);
        return Some(Handled(g, route, verb, h));
      }
      return Some(MethodNotAllowed(g, route));
    }

    method Any(name: string, h: HandlerId, mws: seq<MiddlewareId>)
      requires Valid()
      modifies this, treeNode
      ensures Valid() && middlewares == old(middlewares)
      ensures State() == Register(old(State()), name, MethodAny, h, mws)
      ensures treeNode.nodes == PutFrom(old(treeNode.nodes), 0, Split(name)[1..]).nodes
    {
      Handle(name, MethodAny, h, mws);
    }

    method Get(name: string, h: HandlerId, mws: seq<MiddlewareId>)
      requires Valid()
      modifies this, treeNode
      ensures Valid() && middlewares == old(middlewares)
      ensures State() == Register(old(State()), name, MethodGet, h, mws)
      ensures treeNode.nodes == PutFrom(old(treeNode.nodes), 0, Split(name)[1..]).nodes
    {
      Handle(name, MethodGet, h, mws);
    }

    method Post(name: string, h: HandlerId, mws: seq<MiddlewareId>)
      requires Valid()
      modifies this, treeNode
      ensures Valid() && middlewares == old(middlewares)
      ensures State() == Register(old(State()), name, MethodPost, h, mws)
      ensures treeNode.nodes == PutFrom(old(treeNode.nodes), 0, Split(name)[1..]).nodes
    {
      Handle(name, MethodPost, h, mws);
    }

    method Delete(name: string, h: HandlerId, mws: seq<MiddlewareId>)
      requires Valid()
      modifies this, treeNode
      ensures Valid() && middlewares == old(middlewares)
      ensures State() == Register(old(State()), name, MethodDelete, h, mws)
      ensures treeNode.nodes == PutFrom(old(treeNode.nodes), 0, Split(name)[1..]).nodes
    {
      Handle(name, MethodDelete, h, mws);
    }

    method Put(name: string, h: HandlerId, mws: seq<MiddlewareId>)
      requires Valid()
      modifies this, treeNode
      ensures Valid() && middlewares == old(middlewares)
      ensures State() == Register(old(State()), name, MethodPut, h, mws)
      ensures treeNode.nodes == PutFrom(old(treeNode.nodes), 0, Split(name)[1..]).nodes
    {
      Handle(name, MethodPut, h, mws);
    }

    method Patch(name: string, h: HandlerId, mws: seq<MiddlewareId>)
      requires Valid()
      modifies this, treeNode
      ensures Valid() && middlewares == old(middlewares)
      ensures State() == Register(old(State()), name, MethodPatch, h, mws)
      ensures treeNode.nodes == PutFrom(old(treeNode.nodes), 0, Split(name)[1..]).nodes
    {
      Handle(name, MethodPatch, h, mws);
    }

    method Options(name: string, h: HandlerId, mws: seq<MiddlewareId>)
      requires Valid()
      modifies this, treeNode
      ensures Valid() && middlewares == old(middlewares)
      ensures State() == Register(old(State()), name, MethodOptions, h, mws)
      ensures treeNode.nodes == PutFrom(old(treeNode.nodes), 0, Split(name)[1..]).nodes
    {
      Handle(name, MethodOptions, h, mws);
    }

    method Head(name: string, h: HandlerId, mws: seq<MiddlewareId>)
      requires Valid()
      modifies this, treeNode
      ensures Valid() && middlewares == old(middlewares)
      ensures State() == Register(old(State()), name, MethodHead, h, mws)
      ensures treeNode.nodes == PutFrom(old(treeNode.nodes), 0, Split(name)[1..]).nodes
    {
      Handle(name, MethodHead, h, mws);
    }
  }

  class Router {
    var groups: seq<RouterGroup>

    /** Every group has a trie of its own. */
    predicate TreesDistinct()
      reads this
    {
      forall i, j :: 0 <= i < j < |groups| ==> groups[i].treeNode != groups[j].treeNode
    }

    ghost predicate Valid()
      reads this, set g | g in groups, set g | g in groups :: g.treeNode
    {
      TreesDistinct() && forall k :: 0 <= k < |groups| ==> groups[k].Valid()
    }

    function Views(): (vs: seq<GroupView>)
      reads this, set g | g in groups, set g | g in groups :: g.treeNode
      ensures |vs| == |groups|
    {
      seq(|groups|, k reads this, set g | g in groups, set g | g in groups :: g.treeNode
                      requires 0 <= k < |groups| => groups[k].View())
    }

    constructor ()
      ensures Valid() && groups == []
    {
      groups := [];
    }

    /** Appends a new, empty group; the groups already there are untouched. */
    method Group(name: string) returns (g: RouterGroup)
      requires Valid()
      modifies this
      ensures Valid() && fresh(g) && fresh(g.treeNode)
      ensures groups == old(groups) + [g]
      ensures g.groupName == name && g.State() == EmptyRegistry && g.middlewares == []
      ensures g.treeNode.nodes == [Node("/", [], "", false)]
    {
      g := new RouterGroup(name);
      groups := groups + [g];
    }

    /**
     * The groups as `views` shows them, except that the tries of the groups
     * before `i` carry what their probes stamped.
     */
    ghost predicate ProbedUpTo(views: seq<GroupView>, path: string, i: nat)
      reads this, set g | g in groups, set g | g in groups :: g.treeNode
      requires AllWellFormed(views)
    {
      && |views| == |groups|
      && forall k :: 0 <= k < |groups| ==>
           groups[k].View() == if k < i then views[k].(nodes := Probe(views[k], path).nodes) else views[k]
    }

    /** One turn of the loop over groups: group `i` probes its trie and decides, or not. */
    method TryGroup(i: nat, path: string, verb: string, ghost views: seq<GroupView>) returns (d: Option<Outcome>)
      requires Valid() && i < |groups| && AllWellFormed(views) && ProbedUpTo(views, path, i)
      modifies groups[i].treeNode
      ensures Valid() && ProbedUpTo(views, path, i + 1)
      ensures d == Decide(views[i], i, path, verb)
    {
      var g := groups[i];
      assert g.View() == views[i];
      d := g.Attempt(i, path, verb);
      forall k | 0 <= k < |groups|
        ensures groups[k].View() == if k <= i then views[k].(nodes := Probe(views[k], path).nodes) else views[k]
        ensures groups[k].Valid()
      {
        if k != i {
          assert groups[k].treeNode != groups[i].treeNode;
        }
      }
    }

    /**
     * The decision of the request handler: groups are tried in order, and the
     * first whose trie finds a node decides; the tries it probed carry the
     * router names their lookups stamped.
     */
    method HandleRequest(path: string, verb: string) returns (o: Outcome)
      requires Valid()
      modifies set g | g in groups :: g.treeNode
      ensures Valid()
      ensures AllWellFormed(old(Views()))
      ensures o == Dispatch(old(Views()), path, verb)
      ensures ProbedUpTo(old(Views()), path, Probed(Decisions(old(Views()), path, verb), 0))
    {
      ghost var views := Views();
      assert AllWellFormed(views) by {
        forall k | 0 <= k < |views| ensures WellFormed(views[k].nodes) {
          assert groups[k].Valid();
        }
      }
      ghost var ds := Decisions(views, path, verb);
      var i := 0;
      while i < |groups|
        invariant 0 <= i <= |groups|
        invariant Valid()
        invariant FirstDecided(ds, 0) == FirstDecided(ds, i)
        invariant Probed(ds, 0) == Probed(ds, i)
        invariant ProbedUpTo(views, path, i)
      {
        var d := TryGroup(i, path, verb, views);
        if d.Some? {
          assert FirstDecided(ds, i) == d.value && Probed(ds, i) == i + 1;
          o := d.value;
          return;
        }
        i := i + 1;
      }
      o := NotFound;
    }
  }
}
