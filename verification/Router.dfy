/** The configuration tree, and how it is flattened into a router. */
module Router {
  import opened Wrappers
  import opened Sequences
  import opened PathKeys

  datatype Verb = Get | Head | Post | Put | Delete | Other(name: string)

  /** A callback, or none if an empty delegate was registered. */
  type Callback = Option<nat>

  /** `pre` tells whether the filter takes part before a request is handled, `send` whether it
      does before a response is sent. */
  datatype Filter = Filter(id: nat, pre: bool, send: bool)

  datatype Handler = Handler(mask: string, callback: Callback, options: Options)

  /** A filter with the prefix it is mounted at. */
  type Mounted = (string, Filter)

  type Handlers = map<Verb, seq<Handler>>

  // ----- the tree as a value -----

  datatype Tree = Node(handlers: Handlers, filters: seq<Mounted>, subs: seq<Sub>)

  datatype Sub = Sub(mask: string, tree: Tree)

  const EMPTY_TREE := Node(map[], [], [])

  function HandlersOf(hs: Handlers, verb: Verb): seq<Handler> {
    if verb in hs then hs[verb] else []
  }

  function WithMask(prefix: string, list: seq<Handler>): (r: seq<Handler>)
    ensures |r| == |list|
    ensures forall i :: 0 <= i < |r| ==> r[i] == list[i].(mask := prefix + list[i].mask)
  {
    seq(|list|, i requires 0 <= i < |list| => list[i].(mask := prefix + list[i].mask))
  }

  function WithPath(prefix: string, list: seq<Mounted>): (r: seq<Mounted>)
    ensures |r| == |list|
    ensures forall i :: 0 <= i < |r| ==> r[i] == (prefix + list[i].0, list[i].1)
  {
    seq(|list|, i requires 0 <= i < |list| => (prefix + list[i].0, list[i].1))
  }

  /** The nodes of a tree in preorder, each with the mask of the `append` that mounted it. */
  function Nodes(mask: string, t: Tree): seq<Sub>
    decreases t, 1
  {
    [Sub(mask, t)] + SubNodes(t.subs)
  }

  function SubNodes(subs: seq<Sub>): seq<Sub>
    decreases subs, 0
  {
    if subs == [] then [] else Nodes(subs[0].mask, subs[0].tree) + SubNodes(subs[1..])
  }

  /** The handlers of a verb over a list of nodes, each behind its node's mask. */
  function RoutesOf(nodes: seq<Sub>, verb: Verb): seq<Handler> {
    if nodes == [] then []
    else WithMask(nodes[0].mask, HandlersOf(nodes[0].tree.handlers, verb)) + RoutesOf(nodes[1..], verb)
  }

  function FiltersOf(nodes: seq<Sub>): seq<Mounted> {
    if nodes == [] then []
    else WithPath(nodes[0].mask, nodes[0].tree.filters) + FiltersOf(nodes[1..])
  }

  /** The verbs for which some node has handlers. */
  function VerbsOf(nodes: seq<Sub>): set<Verb> {
    if nodes == [] then {} else nodes[0].tree.handlers.Keys + VerbsOf(nodes[1..])
  }

  lemma {:induction false} VerbsAppend(a: seq<Sub>, b: seq<Sub>)
    ensures VerbsOf(a + b) == VerbsOf(a) + VerbsOf(b)
  {
    if a == [] {
      assert a + b == b;
    } else {
      assert (a + b)[1..] == a[1..] + b;
      VerbsAppend(a[1..], b);
    }
  }

  lemma ConsAppend(a: seq<Sub>, b: seq<Sub>)
    requires a != []
    ensures a + b != [] && (a + b)[0] == a[0] && (a + b)[1..] == a[1..] + b
  {
  }

  lemma RoutesCons(a: seq<Sub>, verb: Verb)
    ensures a == [] ==> RoutesOf(a, verb) == []
    ensures a != [] ==> RoutesOf(a, verb) ==
                          WithMask(a[0].mask, HandlersOf(a[0].tree.handlers, verb)) + RoutesOf(a[1..], verb)
  {
  }

  lemma {:induction false} RoutesAppend(a: seq<Sub>, b: seq<Sub>, verb: Verb)
    ensures RoutesOf(a + b, verb) == RoutesOf(a, verb) + RoutesOf(b, verb)
  {
    hide RoutesOf, WithMask, HandlersOf;
    RoutesCons(a, verb);
    if a == [] {
      assert a + b == b;
    } else {
      ConsAppend(a, b);
      RoutesCons(a + b, verb);
      RoutesAppend(a[1..], b, verb);
      var first := WithMask(a[0].mask, HandlersOf(a[0].tree.handlers, verb));
      Regroup(first, RoutesOf(a[1..], verb), RoutesOf(b, verb));
    }
  }

  lemma {:induction false} FiltersAppend(a: seq<Sub>, b: seq<Sub>)
    ensures FiltersOf(a + b) == FiltersOf(a) + FiltersOf(b)
  {
    if a == [] {
      assert a + b == b;
    } else {
      assert (a + b)[1..] == a[1..] + b;
      FiltersAppend(a[1..], b);
    }
  }

  lemma {:induction false} SubNodesAppend(a: seq<Sub>, b: seq<Sub>)
    ensures SubNodes(a + b) == SubNodes(a) + SubNodes(b)
  {
    if a == [] {
      assert a + b == b;
    } else {
      assert (a + b)[1..] == a[1..] + b;
      SubNodesAppend(a[1..], b);
    }
  }

  lemma SubNodesSnoc(subs: seq<Sub>, i: nat)
    requires i < |subs|
    ensures SubNodes(subs[..i + 1]) == SubNodes(subs[..i]) + Nodes(subs[i].mask, subs[i].tree)
  {
    assert subs[..i + 1] == subs[..i] + [subs[i]];
    SubNodesAppend(subs[..i], [subs[i]]);
    assert [subs[i]][1..] == [];
    assert SubNodes([subs[i]]) == Nodes(subs[i].mask, subs[i].tree) + SubNodes([]);
  }

  /** Lists that have taken over the handlers and filters of some nodes. */
  ghost predicate Grown(hs: Handlers, fs: seq<Mounted>, hs': Handlers, fs': seq<Mounted>, nodes: seq<Sub>) {
    && (forall verb :: HandlersOf(hs', verb) == HandlersOf(hs, verb) + RoutesOf(nodes, verb))
    && fs' == fs + FiltersOf(nodes)
    && hs'.Keys == hs.Keys + VerbsOf(nodes)
  }

  lemma GrownNothing(hs: Handlers, fs: seq<Mounted>)
    ensures Grown(hs, fs, hs, fs, SubNodes([]))
  {
  }

  lemma GrownFurther(hs: Handlers, fs: seq<Mounted>, hs': Handlers, fs': seq<Mounted>,
                     hs'': Handlers, fs'': seq<Mounted>, a: seq<Sub>, b: seq<Sub>)
    requires Grown(hs, fs, hs', fs', a) && Grown(hs', fs', hs'', fs'', b)
    ensures Grown(hs, fs, hs'', fs'', a + b)
  {
    hide HandlersOf, RoutesOf, FiltersOf, VerbsOf;
    forall verb
      ensures HandlersOf(hs'', verb) == HandlersOf(hs, verb) + RoutesOf(a + b, verb)
    {
      RoutesAppend(a, b, verb);
      Regroup(HandlersOf(hs, verb), RoutesOf(a, verb), RoutesOf(b, verb));
    }
    FiltersAppend(a, b);
    Regroup(fs, FiltersOf(a), FiltersOf(b));
    VerbsAppend(a, b);
  }

  // ----- the tree as objects -----

  datatype SubCfg = SubCfg(mask: string, next: Cfg)

  datatype Route = Route(mask: string, callback: Callback, options: Options)

  datatype Compiled = Compiled(routes: map<Verb, seq<Route>>, filters: seq<Mounted>)

  class Cfg {
    var handlers: Handlers
    var filters: seq<Mounted>
    var routers: seq<SubCfg>
    ghost var Repr: set<Cfg>
    ghost var tree: Tree

    /** The mounted routers are valid, inside this one, and share no object. */
    ghost predicate NextsValid()
      reads this`routers, this`Repr, Repr - {this}
      decreases Repr, 0
    {
      && this in Repr
      && (forall i :: 0 <= i < |routers| ==>
            routers[i].next in Repr && routers[i].next.Repr <= Repr - {this} && routers[i].next.Valid())
      && (forall i, j :: 0 <= i < j < |routers| ==> routers[i].next.Repr !! routers[j].next.Repr)
    }

    /** Every object belongs to this node or to a mounted router. */
    ghost predicate Covered()
      requires NextsValid()
      reads this`routers, this`Repr, Repr - {this}
      decreases Repr, 1
    {
      forall node :: node in Repr ==> node == this || exists i :: 0 <= i < |routers| && node in routers[i].next.Repr
    }

    /** `tree` tells what is mounted. */
    ghost predicate Described()
      requires NextsValid()
      reads this`routers, this`Repr, this`tree, Repr - {this}
      decreases Repr, 1
    {
      && |tree.subs| == |routers|
      && (forall i :: 0 <= i < |routers| ==>
            tree.subs[i].mask == routers[i].mask && tree.subs[i].tree == routers[i].next.tree)
    }

    ghost predicate SubsValid()
      reads this`routers, this`Repr, this`tree, Repr - {this}
      decreases Repr, 2
    {
      NextsValid() && Covered() && Described()
    }

    ghost predicate Valid()
      reads this, Repr
      ensures Valid() ==> this in Repr
      decreases Repr, 3
    {
      this in Repr && SubsValid() && tree.handlers == handlers && tree.filters == filters
    }

    /** Nothing is left to flatten. */
    predicate IsEmpty()
      reads this
    {
      handlers == map[] && filters == [] && routers == []
    }

    constructor ()
      ensures Valid() && fresh(Repr) && tree == EMPTY_TREE
    {
      handlers, filters, routers := map[], [], [];
      Repr, tree := {this}, EMPTY_TREE;
    }

    method Add(path: string, callback: Callback, verb: Verb, options: Options)
      requires Valid()
      modifies this
      ensures Valid() && Repr == old(Repr)
      ensures tree == old(tree).(handlers :=
                old(tree).handlers[verb := HandlersOf(old(tree).handlers, verb) + [Handler(path, callback, options)]])
    {
      assert NextsValid() && Covered() && Described();
      var list := if verb in handlers then handlers[verb] else [];
      handlers := handlers[verb := list + [Handler(path, callback, options)]];
      tree := tree.(handlers := handlers);
    }

    /** Registers for GET and for HEAD. */
    method Getish(path: string, callback: Callback, options: Options)
      requires Valid()
      modifies this
      ensures Valid() && Repr == old(Repr)
      ensures forall verb :: HandlersOf(tree.handlers, verb) ==
                HandlersOf(old(tree).handlers, verb) +
                if verb == Get || verb == Head then [Handler(path, callback, options)] else []
      ensures tree == old(tree).(handlers := tree.handlers)
    {
      Add(path, callback, Get, options);
      Add(path, callback, Head, options);
    }

    method Attach(path: string, sub: Cfg)
      modifies this`routers, this`Repr, this`tree
      ensures routers == old(routers) + [SubCfg(path, sub)] && Repr == old(Repr) + old(sub.Repr)
      ensures tree == old(tree).(subs := old(tree).subs + [Sub(path, old(sub.tree))])
    {
      ghost var nodes, t := sub.Repr, sub.tree;
      routers := routers + [SubCfg(path, sub)];
      Repr := Repr + nodes;
      tree := tree.(subs := tree.subs + [Sub(path, t)]);
    }

    method Append(path: string, sub: Cfg)
      requires Valid() && sub.Valid() && Repr !! sub.Repr
      modifies this
      ensures Valid() && Repr == old(Repr) + sub.Repr
      ensures tree == old(tree).(subs := old(tree).subs + [Sub(path, sub.tree)])
    {
      assert NextsValid() && Covered() && Described();
      ghost var was, nodes, subs := routers, Repr, tree.subs;
      Attach(path, sub);
      assert NextsValid() by {
        JoinedNexts(was, nodes, sub);
      }
      assert Covered() by {
        JoinedCovers(was, nodes, sub);
      }
      assert Described() by {
        JoinedDescribes(was, subs, path, sub);
      }
    }

    lemma JoinedDescribes(was: seq<SubCfg>, subs: seq<Sub>, path: string, sub: Cfg)
      requires NextsValid() && routers == was + [SubCfg(path, sub)] && tree.subs == subs + [Sub(path, sub.tree)]
      requires |subs| == |was|
      requires forall i :: 0 <= i < |was| ==> subs[i].mask == was[i].mask && subs[i].tree == was[i].next.tree
      ensures Described()
    {
    }

    lemma JoinedNexts(was: seq<SubCfg>, nodes: set<Cfg>, sub: Cfg)
      requires |routers| == |was| + 1 && routers[..|was|] == was && routers[|was|].next == sub
      requires this in nodes && Repr == nodes + sub.Repr && nodes !! sub.Repr && sub.Valid()
      requires forall i :: 0 <= i < |was| ==>
                 was[i].next in nodes && was[i].next.Repr <= nodes - {this} && was[i].next.Valid()
      requires forall i, j :: 0 <= i < j < |was| ==> was[i].next.Repr !! was[j].next.Repr
      ensures NextsValid()
    {
      var n := |was|;
      assert forall i :: 0 <= i < n ==> routers[i] == was[i];
      assert sub in sub.Repr && sub.Repr <= Repr - {this} && nodes - {this} <= Repr - {this};
      forall i, j | 0 <= i < j < |routers|
        ensures routers[i].next.Repr !! routers[j].next.Repr
      {
        if j == n {
          DisjointBelow(was[i].next.Repr, nodes, sub.Repr);
        }
      }
    }

    static lemma DisjointBelow(a: set<Cfg>, b: set<Cfg>, c: set<Cfg>)
      requires a <= b && b !! c
      ensures a !! c
    {
    }

    lemma JoinedCovers(was: seq<SubCfg>, nodes: set<Cfg>, sub: Cfg)
      requires NextsValid()
      requires |routers| == |was| + 1 && routers[..|was|] == was && routers[|was|].next == sub
      requires Repr == nodes + sub.Repr
      requires forall node :: node in nodes ==> node == this || exists i :: 0 <= i < |was| && node in was[i].next.Repr
      ensures Covered()
    {
      forall node | node in Repr && node != this
        ensures exists i :: 0 <= i < |routers| && node in routers[i].next.Repr
      {
        if node in nodes {
          var i :| 0 <= i < |was| && node in was[i].next.Repr;
          assert routers[i] == was[i];
        } else {
          assert node in routers[|was|].next.Repr;
        }
      }
    }

    /** Mounts a filter; one final slash of its path is dropped. */
    method Use(path: string, filter: Filter)
      requires Valid()
      modifies this
      ensures Valid() && Repr == old(Repr)
      ensures var at := if path == "" || path[|path| - 1] != '/' then path else path[..|path| - 1];
              tree == old(tree).(filters := old(tree).filters + [(at, filter)])
    {
      assert NextsValid() && Covered() && Described();
      filters := filters + [(if path == "" || path[|path| - 1] != '/' then path else path[..|path| - 1], filter)];
      tree := tree.(filters := filters);
    }

    /** Gives away the handlers, verb by verb. */
    method SurrenderHandlers(prefix: string, dst: Handlers) returns (grown: Handlers)
      modifies this`handlers
      ensures handlers == map[] && grown.Keys == dst.Keys + old(handlers).Keys
      ensures forall verb :: HandlersOf(grown, verb) ==
                HandlersOf(dst, verb) + WithMask(prefix, HandlersOf(old(handlers), verb))
    {
      grown := dst;
      var todo := handlers.Keys;
      while todo != {}
        invariant todo <= handlers.Keys && handlers == old(handlers)
        invariant grown.Keys == dst.Keys + (handlers.Keys - todo)
        invariant forall verb :: HandlersOf(grown, verb) ==
                    HandlersOf(dst, verb) +
                    if verb in todo then [] else WithMask(prefix, HandlersOf(handlers, verb))
        decreases todo
      {
        var key :| key in todo;
        var moved := MoveHandlers(prefix, handlers[key], if key in grown then grown[key] else []);
        grown := grown[key := moved];
        todo := todo - {key};
      }
      handlers := map[];
    }

    static method MoveHandlers(prefix: string, list: seq<Handler>, dst: seq<Handler>) returns (grown: seq<Handler>)
      ensures grown == dst + WithMask(prefix, list)
    {
      grown := dst;
      for i := 0 to |list|
        invariant grown == dst + WithMask(prefix, list[..i])
      {
        var handler := list[i].(mask := prefix + list[i].mask);
        grown := grown + [handler];
        assert WithMask(prefix, list[..i + 1]) == WithMask(prefix, list[..i]) + [handler];
      }
      assert list[..|list|] == list;
    }

    static method MoveFilters(prefix: string, list: seq<Mounted>, dst: seq<Mounted>) returns (grown: seq<Mounted>)
      ensures grown == dst + WithPath(prefix, list)
    {
      grown := dst;
      for i := 0 to |list|
        invariant grown == dst + WithPath(prefix, list[..i])
      {
        grown := grown + [(prefix + list[i].0, list[i].1)];
        assert WithPath(prefix, list[..i + 1]) == WithPath(prefix, list[..i]) + [(prefix + list[i].0, list[i].1)];
      }
      assert list[..|list|] == list;
    }

    /** Gives everything below this node away, in preorder, and leaves every node empty. */
    method Surrender(prefix: string, dstHandlers: Handlers, dstFilters: seq<Mounted>)
      returns (hs: Handlers, fs: seq<Mounted>)
      requires Valid()
      modifies Repr
      ensures Grown(dstHandlers, dstFilters, hs, fs, Nodes(prefix, old(tree)))
      ensures forall node :: node in old(Repr) ==> node.IsEmpty()
      decreases Repr, 1
    {
      ghost var t := tree;
      hs, fs := SurrenderOwn(prefix, dstHandlers, dstFilters);
      ghost var hs1, fs1 := hs, fs;
      hs, fs := SurrenderSubs(hs, fs);
      GrownFurther(dstHandlers, dstFilters, hs1, fs1, hs, fs, [Sub(prefix, t)], SubNodes(t.subs));
    }

    /** Gives away this node's own handlers and filters. */
    method SurrenderOwn(prefix: string, dstHandlers: Handlers, dstFilters: seq<Mounted>)
      returns (hs: Handlers, fs: seq<Mounted>)
      requires Valid()
      modifies this`handlers, this`filters
      ensures SubsValid() && handlers == map[] && filters == []
      ensures Grown(dstHandlers, dstFilters, hs, fs, [Sub(prefix, tree)])
    {
      hs := SurrenderHandlers(prefix, dstHandlers);
      fs := MoveFilters(prefix, filters, dstFilters);
      filters := [];
      OwnGrown(prefix, tree, dstHandlers, dstFilters, hs, fs);
    }

    /** Gives away the mounted routers, one after the other, each with its own mask only. */
    method SurrenderSubs(dstHandlers: Handlers, dstFilters: seq<Mounted>) returns (hs: Handlers, fs: seq<Mounted>)
      requires SubsValid()
      modifies Repr
      ensures Grown(dstHandlers, dstFilters, hs, fs, SubNodes(old(tree).subs))
      ensures handlers == old(handlers) && filters == old(filters) && routers == []
      ensures forall node :: node in old(Repr) && node != this ==> node.IsEmpty()
      decreases Repr, 0
    {
      hide Grown, SubNodes, Nodes;
      hs, fs := dstHandlers, dstFilters;
      GrownNothing(hs, fs);
      ghost var subs := tree.subs;
      assert subs[..0] == [];
      for i := 0 to |routers|
        invariant handlers == old(handlers) && filters == old(filters) && routers == old(routers)
        invariant Repr == old(Repr) && tree == old(tree)
        invariant Grown(dstHandlers, dstFilters, hs, fs, SubNodes(subs[..i]))
        invariant forall k, node :: 0 <= k < i && node in old(routers[k].next.Repr) ==> node.IsEmpty()
        invariant forall k :: i <= k < |routers| ==>
                    && routers[k].next.Repr == old(routers[k].next.Repr) && routers[k].next.Valid()
                    && routers[k].next.tree == subs[k].tree
      {
        ghost var hs1, fs1 := hs, fs;
        hs, fs := routers[i].next.Surrender(routers[i].mask, hs, fs);
        SubNodesSnoc(subs, i);
        GrownFurther(dstHandlers, dstFilters, hs1, fs1, hs, fs, SubNodes(subs[..i]), Nodes(subs[i].mask, subs[i].tree));
      }
      assert subs[..|routers|] == subs;
      routers := [];
    }

    /** Compiles the whole tree into a router; every node ends empty. */
    method Compile() returns (result: Compiled)
      requires Valid()
      modifies Repr
      ensures forall verb :: RouteList(result, verb) == Compiling(RoutesOf(Nodes("", old(tree)), verb))
      ensures forall verb :: SameFields(RouteList(result, verb), RoutesOf(Nodes("", old(tree)), verb))
      ensures forall verb :: RouteCalls(RouteList(result, verb)) == Registered(old(tree), verb)
      ensures result.filters == FiltersOf(Nodes("", old(tree))) && Filters(result.filters) == Used(old(tree))
      ensures result.routes.Keys == VerbsOf(Nodes("", old(tree)))
      ensures forall node :: node in old(Repr) ==> node.IsEmpty()
    {
      ghost var t, hs, fs := tree, handlers, filters;
      handlers, filters := SurrenderSubs(handlers, filters);
      OwnAtRoot(t, hs, fs);
      GrownFurther(map[], [], hs, fs, handlers, filters, [Sub("", t)], SubNodes(t.subs));
      CompiledIs(handlers, filters, Nodes("", t));
      CompilingConserves(t);
      result := Compiled(CompileAll(handlers), filters);
      handlers := map[];
      filters := [];
    }
  }

  // ----- the compiled router -----

  /** Routes keep the mask, the callback and the options their handlers were registered with. */
  predicate SameFields(routes: seq<Route>, list: seq<Handler>) {
    && |routes| == |list|
    && (forall i :: 0 <= i < |list| ==>
          && routes[i].mask == list[i].mask
          && routes[i].callback == list[i].callback
          && routes[i].options == list[i].options)
  }

  function CompileHandler(h: Handler): Route {
    Route(h.mask, h.callback, h.options)
  }

  function Compiling(list: seq<Handler>): (routes: seq<Route>)
    ensures SameFields(routes, list)
  {
    seq(|list|, i requires 0 <= i < |list| => CompileHandler(list[i]))
  }

  function CompileAll(hs: Handlers): map<Verb, seq<Route>> {
    map verb | verb in hs :: Compiling(hs[verb])
  }

  function RouteList(router: Compiled, verb: Verb): seq<Route> {
    if verb in router.routes then router.routes[verb] else []
  }

  lemma CompiledIs(hs: Handlers, fs: seq<Mounted>, nodes: seq<Sub>)
    requires Grown(map[], [], hs, fs, nodes)
    ensures fs == FiltersOf(nodes) && CompileAll(hs).Keys == VerbsOf(nodes)
    ensures forall verb :: RouteList(Compiled(CompileAll(hs), fs), verb) == Compiling(RoutesOf(nodes, verb))
  {
    var none: Handlers := map[];
    assert none.Keys + VerbsOf(nodes) == VerbsOf(nodes);
    assert forall verb :: HandlersOf(none, verb) + RoutesOf(nodes, verb) == RoutesOf(nodes, verb);
  }

  lemma OwnGrown(prefix: string, t: Tree, hs: Handlers, fs: seq<Mounted>, hs': Handlers, fs': seq<Mounted>)
    requires forall verb ::
               HandlersOf(hs', verb) == HandlersOf(hs, verb) + WithMask(prefix, HandlersOf(t.handlers, verb))
    requires fs' == fs + WithPath(prefix, t.filters)
    requires hs'.Keys == hs.Keys + t.handlers.Keys
    ensures Grown(hs, fs, hs', fs', [Sub(prefix, t)])
  {
    assert [Sub(prefix, t)][1..] == [];
    forall verb
      ensures RoutesOf([Sub(prefix, t)], verb) == WithMask(prefix, HandlersOf(t.handlers, verb))
    {
      assert RoutesOf([Sub(prefix, t)], verb) ==
             WithMask(prefix, HandlersOf(t.handlers, verb)) + RoutesOf([Sub(prefix, t)][1..], verb);
    }
    assert VerbsOf([Sub(prefix, t)]) == t.handlers.Keys + VerbsOf([Sub(prefix, t)][1..]);
    assert FiltersOf([Sub(prefix, t)]) == WithPath(prefix, t.filters) + FiltersOf([Sub(prefix, t)][1..]);
  }

  lemma OwnAtRoot(t: Tree, hs: Handlers, fs: seq<Mounted>)
    requires t.handlers == hs && t.filters == fs
    ensures Grown(map[], [], hs, fs, [Sub("", t)])
  {
    hide WithMask, WithPath;
    var none: Handlers := map[];
    assert none.Keys + t.handlers.Keys == hs.Keys;
    forall verb
      ensures HandlersOf(hs, verb) == HandlersOf(none, verb) + WithMask("", HandlersOf(t.handlers, verb))
    {
      NoMask(HandlersOf(hs, verb), fs);
      assert HandlersOf(none, verb) == [];
    }
    NoMask([], fs);
    OwnGrown("", t, none, [], hs, fs);
  }

  lemma NoMask(list: seq<Handler>, filters: seq<Mounted>)
    ensures WithMask("", list) == list && WithPath("", filters) == filters
  {
    assert forall i :: 0 <= i < |list| ==> "" + list[i].mask == list[i].mask;
    assert forall i :: 0 <= i < |filters| ==> "" + filters[i].0 == filters[i].0;
  }

  // ----- conservation -----

  /** Everything a tree has registered for a verb, however it is nested. */
  function Registered(t: Tree, verb: Verb): multiset<(Callback, Options)>
    decreases t, 1
  {
    Calls(HandlersOf(t.handlers, verb)) + RegisteredIn(t.subs, verb)
  }

  function RegisteredIn(subs: seq<Sub>, verb: Verb): multiset<(Callback, Options)>
    decreases subs, 0
  {
    if subs == [] then multiset{} else Registered(subs[0].tree, verb) + RegisteredIn(subs[1..], verb)
  }

  function Calls(list: seq<Handler>): multiset<(Callback, Options)> {
    if list == [] then multiset{} else multiset{(list[0].callback, list[0].options)} + Calls(list[1..])
  }

  lemma {:induction false} CallsAppend(a: seq<Handler>, b: seq<Handler>)
    ensures Calls(a + b) == Calls(a) + Calls(b)
  {
    if a == [] {
      assert a + b == b;
    } else {
      assert (a + b)[1..] == a[1..] + b;
      CallsAppend(a[1..], b);
    }
  }

  lemma {:induction false} CallsIgnoreMasks(prefix: string, list: seq<Handler>)
    ensures Calls(WithMask(prefix, list)) == Calls(list)
  {
    if list != [] {
      assert WithMask(prefix, list)[1..] == WithMask(prefix, list[1..]);
      CallsIgnoreMasks(prefix, list[1..]);
    }
  }

  /** Every filter a tree has mounted. */
  function Used(t: Tree): multiset<Filter>
    decreases t, 1
  {
    Filters(t.filters) + UsedIn(t.subs)
  }

  function UsedIn(subs: seq<Sub>): multiset<Filter>
    decreases subs, 0
  {
    if subs == [] then multiset{} else Used(subs[0].tree) + UsedIn(subs[1..])
  }

  function Filters(list: seq<Mounted>): multiset<Filter> {
    if list == [] then multiset{} else multiset{list[0].1} + Filters(list[1..])
  }

  lemma {:induction false} FiltersJoin(a: seq<Mounted>, b: seq<Mounted>)
    ensures Filters(a + b) == Filters(a) + Filters(b)
  {
    if a == [] {
      assert a + b == b;
    } else {
      assert (a + b)[1..] == a[1..] + b;
      FiltersJoin(a[1..], b);
    }
  }

  lemma {:induction false} FiltersIgnorePaths(prefix: string, list: seq<Mounted>)
    ensures Filters(WithPath(prefix, list)) == Filters(list)
  {
    if list != [] {
      assert WithPath(prefix, list)[1..] == WithPath(prefix, list[1..]);
      FiltersIgnorePaths(prefix, list[1..]);
    }
  }

  lemma FiltersCons(a: seq<Sub>)
    ensures a == [] ==> FiltersOf(a) == []
    ensures a != [] ==> FiltersOf(a) == WithPath(a[0].mask, a[0].tree.filters) + FiltersOf(a[1..])
  {
  }

  /** Flattening loses no handler and no filter, and adds none. */
  lemma {:induction false} FlatteningConserves(mask: string, t: Tree, verb: Verb)
    ensures Calls(RoutesOf(Nodes(mask, t), verb)) == Registered(t, verb)
    ensures Filters(FiltersOf(Nodes(mask, t))) == Used(t)
    decreases t, 1
  {
    var nodes, handlers := Nodes(mask, t), HandlersOf(t.handlers, verb);
    assert nodes[0] == Sub(mask, t) && nodes[1..] == SubNodes(t.subs);
    FlatteningConservesIn(t.subs, verb);
    RoutesCons(nodes, verb);
    FiltersCons(nodes);
    hide WithMask, WithPath, HandlersOf, Nodes, RoutesOf, FiltersOf;
    CallsAppend(WithMask(mask, handlers), RoutesOf(nodes[1..], verb));
    CallsIgnoreMasks(mask, handlers);
    FiltersJoin(WithPath(mask, t.filters), FiltersOf(nodes[1..]));
    FiltersIgnorePaths(mask, t.filters);
  }

  lemma {:induction false} FlatteningConservesIn(subs: seq<Sub>, verb: Verb)
    ensures Calls(RoutesOf(SubNodes(subs), verb)) == RegisteredIn(subs, verb)
    ensures Filters(FiltersOf(SubNodes(subs))) == UsedIn(subs)
    decreases subs, 0
  {
    hide WithMask, WithPath, HandlersOf, Nodes;
    if subs != [] {
      var first, rest := Nodes(subs[0].mask, subs[0].tree), SubNodes(subs[1..]);
      FlatteningConserves(subs[0].mask, subs[0].tree, verb);
      FlatteningConservesIn(subs[1..], verb);
      RoutesAppend(first, rest, verb);
      CallsAppend(RoutesOf(first, verb), RoutesOf(rest, verb));
      FiltersAppend(first, rest);
      FiltersJoin(FiltersOf(first), FiltersOf(rest));
    }
  }

  /** What the compiled routes call, and with which options. */
  function RouteCalls(list: seq<Route>): multiset<(Callback, Options)> {
    if list == [] then multiset{} else multiset{(list[0].callback, list[0].options)} + RouteCalls(list[1..])
  }

  lemma {:induction false} SameCalls(routes: seq<Route>, list: seq<Handler>)
    requires SameFields(routes, list)
    ensures RouteCalls(routes) == Calls(list)
    decreases |list|
  {
    if list != [] {
      SameCalls(routes[1..], list[1..]);
    }
  }

  /** Compiling loses no handler and no filter, and adds none. */
  lemma CompilingConserves(t: Tree)
    ensures forall verb :: RouteCalls(Compiling(RoutesOf(Nodes("", t), verb))) == Registered(t, verb)
    ensures Filters(FiltersOf(Nodes("", t))) == Used(t)
  {
    hide RoutesOf, FiltersOf, Nodes, Registered, Used, Filters, Calls, RouteCalls;
    FlatteningConserves("", t, Get);
    forall verb
      ensures RouteCalls(Compiling(RoutesOf(Nodes("", t), verb))) == Registered(t, verb)
    {
      FlatteningConserves("", t, verb);
      SameCalls(Compiling(RoutesOf(Nodes("", t), verb)), RoutesOf(Nodes("", t), verb));
    }
  }

  // ----- the order of registration -----

  /** A router mounted later comes after everything that is there: its routes and filters, behind
      the mask it is mounted at, are added at the end. */
  lemma LaterMountsComeLast(mask: string, t: Tree, s: Sub, verb: Verb)
    ensures var grown := t.(subs := t.subs + [s]);
            && RoutesOf(Nodes(mask, grown), verb) ==
               RoutesOf(Nodes(mask, t), verb) + RoutesOf(Nodes(s.mask, s.tree), verb)
            && FiltersOf(Nodes(mask, grown)) == FiltersOf(Nodes(mask, t)) + FiltersOf(Nodes(s.mask, s.tree))
  {
    var subs, grown := t.subs + [s], t.(subs := t.subs + [s]);
    var own, more, all := Nodes(mask, t), Nodes(s.mask, s.tree), Nodes(mask, grown);
    SubNodesSnoc(subs, |t.subs|);
    assert subs[..|t.subs| + 1] == subs && subs[..|t.subs|] == t.subs && subs[|t.subs|] == s;
    assert own[0] == Sub(mask, t) && own[1..] == SubNodes(t.subs);
    assert all[0] == Sub(mask, grown) && all[1..] == SubNodes(subs) == own[1..] + more;
    hide RoutesOf, FiltersOf, Nodes, SubNodes, HandlersOf, WithMask, WithPath;
    RoutesCons(all, verb);
    RoutesCons(own, verb);
    RoutesAppend(own[1..], more, verb);
    Regroup(WithMask(mask, HandlersOf(t.handlers, verb)), RoutesOf(own[1..], verb), RoutesOf(more, verb));
    FiltersCons(all);
    FiltersCons(own);
    FiltersAppend(own[1..], more);
    Regroup(WithPath(mask, t.filters), FiltersOf(own[1..]), FiltersOf(more));
  }

  /** A handler registered later comes after the node's own and before everything mounted; other
      verbs and the filters do not notice. */
  lemma LaterHandlersComeAfter(mask: string, t: Tree, h: Handler, verb: Verb, other: Verb)
    ensures var own := HandlersOf(t.handlers, verb);
            var grown := t.(handlers := t.handlers[verb := own + [h]]);
            && RoutesOf(Nodes(mask, t), verb) == WithMask(mask, own) + RoutesOf(SubNodes(t.subs), verb)
            && RoutesOf(Nodes(mask, grown), verb) ==
               WithMask(mask, own) + [h.(mask := mask + h.mask)] + RoutesOf(SubNodes(t.subs), verb)
            && (other != verb ==> RoutesOf(Nodes(mask, grown), other) == RoutesOf(Nodes(mask, t), other))
            && FiltersOf(Nodes(mask, grown)) == FiltersOf(Nodes(mask, t))
  {
    var own := HandlersOf(t.handlers, verb);
    var grown := t.(handlers := t.handlers[verb := own + [h]]);
    var was, now := Nodes(mask, t), Nodes(mask, grown);
    assert was[0] == Sub(mask, t) && was[1..] == SubNodes(t.subs);
    assert now[0] == Sub(mask, grown) && now[1..] == SubNodes(t.subs);
    assert WithMask(mask, own + [h]) == WithMask(mask, own) + [h.(mask := mask + h.mask)];
    hide RoutesOf, FiltersOf, Nodes, SubNodes, WithMask, WithPath;
    RoutesCons(was, verb);
    RoutesCons(now, verb);
    RoutesCons(was, other);
    RoutesCons(now, other);
    FiltersCons(was);
    FiltersCons(now);
  }

  // ----- nested mounts -----

  /** The nodes in preorder, each with the masks of all its mounts one after the other. */
  function Composed(path: string, t: Tree): seq<Sub>
    decreases t, 1
  {
    [Sub(path, t)] + SubComposed(path, t.subs)
  }

  function SubComposed(path: string, subs: seq<Sub>): seq<Sub>
    decreases subs, 0
  {
    if subs == [] then [] else Composed(path + subs[0].mask, subs[0].tree) + SubComposed(path, subs[1..])
  }

  /** The two lists of nodes compile to the same routes and filters. */
  ghost predicate SameRouter(a: seq<Sub>, b: seq<Sub>) {
    && (forall verb :: Compiling(RoutesOf(a, verb)) == Compiling(RoutesOf(b, verb)))
    && FiltersOf(a) == FiltersOf(b)
  }

  /** The node itself has registered nothing. */
  ghost predicate HoldsNothing(t: Tree) {
    (forall verb :: HandlersOf(t.handlers, verb) == []) && t.filters == []
  }

  /** No node that holds a handler or a filter is mounted below a non-empty path; `outer` is
      the path composed of all mounts around this one. */
  ghost predicate NothingNested(outer: string, mask: string, t: Tree)
    decreases t, 1
  {
    (outer == "" || HoldsNothing(t)) && NoneNested(outer + mask, t.subs)
  }

  ghost predicate NoneNested(outer: string, subs: seq<Sub>)
    decreases subs, 0
  {
    subs == [] || (NothingNested(outer, subs[0].mask, subs[0].tree) && NoneNested(outer, subs[1..]))
  }

  lemma CompilingIsInjective(a: seq<Handler>, b: seq<Handler>)
    ensures Compiling(a) == Compiling(b) <==> a == b
  {
    if Compiling(a) == Compiling(b) {
      forall i | 0 <= i < |a|
        ensures a[i] == b[i]
      {
        assert Compiling(a)[i] == Compiling(b)[i];
      }
    }
  }

  lemma WithMaskIsInjective(p: string, q: string, list: seq<Handler>)
    ensures WithMask(p, list) == WithMask(q, list) <==> list == [] || p == q
  {
    if list != [] && WithMask(p, list) == WithMask(q, list) {
      assert p + list[0].mask == WithMask(p, list)[0].mask == WithMask(q, list)[0].mask == q + list[0].mask;
      SamePrefix(p, q, list[0].mask);
    }
  }

  lemma WithPathIsInjective(p: string, q: string, list: seq<Mounted>)
    ensures WithPath(p, list) == WithPath(q, list) <==> list == [] || p == q
  {
    if list != [] && WithPath(p, list) == WithPath(q, list) {
      assert p + list[0].0 == WithPath(p, list)[0].0 == WithPath(q, list)[0].0 == q + list[0].0;
      SamePrefix(p, q, list[0].0);
    }
  }

  lemma SamePrefix(p: string, q: string, rest: string)
    requires p + rest == q + rest
    ensures p == q
  {
    assert |p| == |q| && p == (p + rest)[..|p|] && q == (q + rest)[..|q|];
  }

  lemma SplitEqual<T>(a: seq<T>, b: seq<T>, x: seq<T>, y: seq<T>)
    requires |a| == |b|
    ensures a + x == b + y <==> a == b && x == y
  {
    if a + x == b + y {
      assert a == (a + x)[..|a|] && x == (a + x)[|a|..];
      assert b == (b + y)[..|b|] && y == (b + y)[|b|..];
    }
  }

  /** The nodes are the same, but for their masks. */
  ghost predicate SameTrees(a: seq<Sub>, b: seq<Sub>) {
    |a| == |b| && forall i :: 0 <= i < |a| ==> a[i].tree == b[i].tree
  }

  /** Every node has the same mask in both lists, unless it holds nothing. */
  ghost predicate SameMasks(a: seq<Sub>, b: seq<Sub>)
    requires |a| == |b|
  {
    forall i :: 0 <= i < |a| ==> a[i].mask == b[i].mask || HoldsNothing(a[i].tree)
  }

  lemma {:induction false} SameRoutes(a: seq<Sub>, b: seq<Sub>, verb: Verb)
    requires SameTrees(a, b)
    ensures |RoutesOf(a, verb)| == |RoutesOf(b, verb)|
    ensures RoutesOf(a, verb) == RoutesOf(b, verb) <==>
            forall i :: 0 <= i < |a| ==> a[i].mask == b[i].mask || HandlersOf(a[i].tree.handlers, verb) == []
  {
    hide HandlersOf, RoutesOf;
    RoutesCons(a, verb);
    RoutesCons(b, verb);
    if a != [] {
      var list := HandlersOf(a[0].tree.handlers, verb);
      SameRoutes(a[1..], b[1..], verb);
      SplitEqual(WithMask(a[0].mask, list), WithMask(b[0].mask, list), RoutesOf(a[1..], verb), RoutesOf(b[1..], verb));
      WithMaskIsInjective(a[0].mask, b[0].mask, list);
      hide WithMask;
      assert a == [a[0]] + a[1..] && b == [b[0]] + b[1..];
    }
  }

  lemma {:induction false} SameFilters(a: seq<Sub>, b: seq<Sub>)
    requires SameTrees(a, b)
    ensures |FiltersOf(a)| == |FiltersOf(b)|
    ensures FiltersOf(a) == FiltersOf(b) <==>
            forall i :: 0 <= i < |a| ==> a[i].mask == b[i].mask || a[i].tree.filters == []
  {
    hide FiltersOf;
    FiltersCons(a);
    FiltersCons(b);
    if a != [] {
      var list := a[0].tree.filters;
      SameFilters(a[1..], b[1..]);
      SplitEqual(WithPath(a[0].mask, list), WithPath(b[0].mask, list), FiltersOf(a[1..]), FiltersOf(b[1..]));
      WithPathIsInjective(a[0].mask, b[0].mask, list);
      hide WithPath;
      assert a == [a[0]] + a[1..] && b == [b[0]] + b[1..];
    }
  }

  /** Nodes with other masks compile to the same router exactly when all that hold something
      have the same masks. */
  lemma SameRouterExactly(a: seq<Sub>, b: seq<Sub>)
    requires SameTrees(a, b)
    ensures SameRouter(a, b) <==> SameMasks(a, b)
  {
    hide RoutesOf, FiltersOf, HandlersOf, Compiling;
    forall verb
      ensures Compiling(RoutesOf(a, verb)) == Compiling(RoutesOf(b, verb)) <==>
              forall i :: 0 <= i < |a| ==> a[i].mask == b[i].mask || HandlersOf(a[i].tree.handlers, verb) == []
    {
      CompilingIsInjective(RoutesOf(a, verb), RoutesOf(b, verb));
      SameRoutes(a, b, verb);
    }
    SameFilters(a, b);
    if SameRouter(a, b) {
      forall i | 0 <= i < |a| && a[i].mask != b[i].mask
        ensures HoldsNothing(a[i].tree)
      {
        forall verb
          ensures HandlersOf(a[i].tree.handlers, verb) == []
        {
          assert Compiling(RoutesOf(a, verb)) == Compiling(RoutesOf(b, verb));
        }
      }
    }
  }

  lemma SamePath(path: string, mask: string)
    ensures path + mask == mask <==> path == ""
  {
    assert path == "" ==> path + mask == mask;
    assert |path + mask| == |path| + |mask|;
  }

  lemma SameMasksAppend(a: seq<Sub>, b: seq<Sub>, x: seq<Sub>, y: seq<Sub>)
    requires SameTrees(a, b) && SameTrees(x, y)
    ensures SameTrees(a + x, b + y)
    ensures SameMasks(a + x, b + y) <==> SameMasks(a, b) && SameMasks(x, y)
  {
    hide HoldsNothing;
    var all, both := a + x, b + y;
    assert forall i :: 0 <= i < |a| ==> all[i] == a[i] && both[i] == b[i];
    assert forall i :: 0 <= i < |x| ==> all[i + |a|] == x[i] && both[i + |a|] == y[i];
  }

  lemma {:induction false} ComposedMasks(outer: string, mask: string, t: Tree)
    ensures SameTrees(Composed(outer + mask, t), Nodes(mask, t))
    ensures SameMasks(Composed(outer + mask, t), Nodes(mask, t)) <==> NothingNested(outer, mask, t)
    decreases t, 1
  {
    hide HoldsNothing;
    var own, given := [Sub(outer + mask, t)], [Sub(mask, t)];
    ComposedMasksIn(outer + mask, t.subs);
    SamePath(outer, mask);
    assert SameMasks(own, given) <==> own[0].mask == given[0].mask || HoldsNothing(own[0].tree);
    SameMasksAppend(own, given, SubComposed(outer + mask, t.subs), SubNodes(t.subs));
  }

  lemma {:induction false} ComposedMasksIn(outer: string, subs: seq<Sub>)
    ensures SameTrees(SubComposed(outer, subs), SubNodes(subs))
    ensures SameMasks(SubComposed(outer, subs), SubNodes(subs)) <==> NoneNested(outer, subs)
    decreases subs, 0
  {
    hide HoldsNothing, Composed, Nodes, NothingNested;
    if subs != [] {
      var s := subs[0];
      ComposedMasks(outer, s.mask, s.tree);
      ComposedMasksIn(outer, subs[1..]);
      SameMasksAppend(Composed(outer + s.mask, s.tree), Nodes(s.mask, s.tree),
                      SubComposed(outer, subs[1..]), SubNodes(subs[1..]));
    }
  }

  /** Compiling gives every handler and filter the composed path of all its mounts exactly
      when none of them is registered at a node that is mounted below a non-empty path: of
      nested masks only the innermost is used. */
  lemma OnlyInnermostMasks(t: Tree)
    ensures SameRouter(Composed("", t), Nodes("", t)) <==> NothingNested("", "", t)
  {
    hide Composed, Nodes, NothingNested, SameRouter, SameMasks, SameTrees;
    ComposedMasks("", "", t);
    assert "" + "" == "";
    SameRouterExactly(Composed("", t), Nodes("", t));
  }

  const LEAF := Node(map[Get := [Handler("/c", None, Options(false, true, false))]], [], [])

  const INNER := Node(map[], [], [Sub("/b", LEAF)])

  const OUTER := Node(map[], [], [Sub("/a", INNER)])

  /** So a handler `/c`, mounted at `/b`, mounted at `/a`, is compiled to the route `/b/c`. */
  lemma NestedMountWitness()
    ensures var routes := Compiling(RoutesOf(Nodes("", OUTER), Get)); |routes| == 1 && routes[0].mask == "/b/c"
    ensures var routes := Compiling(RoutesOf(Composed("", OUTER), Get)); |routes| == 1 && routes[0].mask == "/a/b/c"
  {
    NodesOfOuter();
    OneNodeHolds([Sub("", OUTER), Sub("/a", INNER), Sub("/b", LEAF)]);
    OneNodeHolds([Sub("", OUTER), Sub("/a", INNER), Sub("/a/b", LEAF)]);
    assert "/b" + "/c" == "/b/c" && "/a/b" + "/c" == "/a/b/c";
  }

  lemma NodesOfOuter()
    ensures Nodes("", OUTER) == [Sub("", OUTER), Sub("/a", INNER), Sub("/b", LEAF)]
    ensures Composed("", OUTER) == [Sub("", OUTER), Sub("/a", INNER), Sub("/a/b", LEAF)]
  {
    assert LEAF.subs == [] && INNER.subs[1..] == [] && OUTER.subs[1..] == [];
    assert Nodes("/b", LEAF) == [Sub("/b", LEAF)] && Composed("/a/b", LEAF) == [Sub("/a/b", LEAF)];
    assert "/a" + "/b" == "/a/b" && "" + "/a" == "/a";
    assert SubNodes(INNER.subs) == Nodes("/b", LEAF) + SubNodes(INNER.subs[1..]);
    assert SubComposed("/a", INNER.subs) == Composed("/a" + "/b", LEAF) + SubComposed("/a", INNER.subs[1..]);
    assert SubNodes(OUTER.subs) == Nodes("/a", INNER) + SubNodes(OUTER.subs[1..]);
    assert SubComposed("", OUTER.subs) == Composed("" + "/a", INNER) + SubComposed("", OUTER.subs[1..]);
  }

  lemma OneNodeHolds(nodes: seq<Sub>)
    requires |nodes| == 3 && nodes[0].tree == OUTER && nodes[1].tree == INNER && nodes[2].tree == LEAF
    ensures RoutesOf(nodes, Get) == WithMask(nodes[2].mask, LEAF.handlers[Get])
  {
    hide WithMask, RoutesOf;
    RoutesCons(nodes, Get);
    RoutesCons(nodes[1..], Get);
    RoutesCons(nodes[2..], Get);
    RoutesCons(nodes[3..], Get);
    assert nodes[1..][1..] == nodes[2..] && nodes[2..][1..] == nodes[3..] == [];
  }
}
