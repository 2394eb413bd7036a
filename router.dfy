/** router.go: one trie per HTTP verb plus a table from "verb-pattern"
    keys to handlers. The tries are proved against their TrieSpec values
    (ghost field Tries), and the router keeps the invariant that every
    pattern stored in a trie has a handler and sits at the depth of its
    own segment count, which is what makes getRouter's extraction loop
    and handle's table lookup safe. */
module Routing {
  import opened Wrappers
  import opened Keys
  import opened Pattern
  import opened TrieSpec
  import opened Chain
  import opened Trie
  import opened RequestContext

  /** The node getRouter finds for a request, on the abstract tries. */
  ghost function Lookup(tries: map<string, Tree>, verb: string, path: string): Option<Tree>
  {
    if verb in tries then Search(tries[verb], ParsePattern(path), 0) else None
  }

  /** Every stored pattern has a handler under its key and sits at the
      depth of its own segment count. */
  ghost predicate Registered(tries: map<string, Tree>, handlers: map<string, Handler>) {
    forall verb, p, d :: verb in tries && (p, d) in Terminals(tries[verb], 0) ==>
      |ParsePattern(p)| == d && RouteKey(verb, p) in handlers
  }

  /** The trie addRoute inserts into: the verb's, or a fresh `&node{}`. */
  function BaseOf(tries: map<string, Tree>, verb: string): Tree
  {
    if verb in tries then tries[verb] else Empty
  }

  /** addRoute keeps every stored pattern registered: the one pattern the
      insertion can add is the one whose handler it stores, at the depth
      of its own segment count. */
  lemma {:induction false} AddRouteRegistered(tries: map<string, Tree>, handlers: map<string, Handler>, verb: string, pattern: string, handle: Handler)
    requires Registered(tries, handlers)
    ensures Registered(tries[verb := TrieSpec.Insert(BaseOf(tries, verb), pattern, ParsePattern(pattern), 0)],
                       handlers[RouteKey(verb, pattern) := handle])
  {
    var parts := ParsePattern(pattern);
    var base := BaseOf(tries, verb);
    var tries' := tries[verb := TrieSpec.Insert(base, pattern, parts, 0)];
    var handlers' := handlers[RouteKey(verb, pattern) := handle];
    InsertTerminals(base, pattern, parts, 0);
    assert Terminals(Empty, 0) == {};
    forall v, p, d | v in tries' && (p, d) in Terminals(tries'[v], 0)
      ensures |ParsePattern(p)| == d && RouteKey(v, p) in handlers'
    {
      if v != verb {
        assert (p, d) in Terminals(tries[v], 0);
      } else if (p, d) != (pattern, |parts|) {
        assert (p, d) in Terminals(base, 0);
      }
    }
  }

  /** A route found by Lookup has a handler, and its pattern has no more
      segments than the request, so every segment of it has a request
      segment to bind. */
  lemma {:induction false} LookupRegistered(tries: map<string, Tree>, handlers: map<string, Handler>, verb: string, path: string)
    requires Registered(tries, handlers)
    requires Lookup(tries, verb, path).Some?
    ensures RouteKey(verb, Lookup(tries, verb, path).value.pattern) in handlers
    ensures |ParsePattern(Lookup(tries, verb, path).value.pattern)| <= |ParsePattern(path)|
  {
    var depth := SearchFindsTerminal(tries[verb], ParsePattern(path), 0);
  }

  /** The body handle writes when no route matches. */
  function NotFound(path: string): string
  {
    "404 NOT FOUND: " + path + "\n"
  }

  class Router {
    var roots: map<string, Node>
    var handlers: map<string, Handler>

    ghost var Tries: map<string, Tree>
    ghost var Repr: set<object>

    ghost predicate Valid()
      reads this, Repr
    {
      Rooted() && Registered(Tries, handlers)
    }

    /** Each verb's root owns its trie, whose value is Tries[verb], and
        the tries share no node. */
    ghost predicate Rooted()
      reads this`roots, this`Tries, this`Repr, Repr
    {
      RootedIn(roots, Tries, Repr)
    }

    /** Rooted, for given values of the fields: it reads only the nodes. */
    ghost predicate RootedIn(roots: map<string, Node>, tries: map<string, Tree>, repr: set<object>)
      reads repr
    {
      && this !in repr
      && roots.Keys == tries.Keys
      && (forall verb :: verb in roots ==>
            && roots[verb] in repr && roots[verb].Repr <= repr
            && roots[verb].Valid() && roots[verb].Model == tries[verb])
      && (forall v1, v2 :: v1 in roots && v2 in roots && v1 != v2 ==> roots[v1].Repr !! roots[v2].Repr)
    }

    /** newRouter: no tries, no handlers. */
    constructor ()
      ensures Valid() && fresh(Repr)
      ensures roots == map[] && handlers == map[] && Tries == map[]
    {
      roots := map[];
      handlers := map[];
      Tries := map[];
      Repr := {};
    }

    /** addRoute: create the verb's root `&node{}` if it is missing, insert
        the parsed pattern into that trie, and store the handler under
        "verb-pattern" (a second registration replaces the first). */
    method AddRoute(verb: string, pattern: string, handle: Handler)
      requires Valid()
      modifies this, Repr
      ensures Valid() && fresh(Repr - old(Repr))
      ensures Tries == old(Tries)[verb := TrieSpec.Insert(BaseOf(old(Tries), verb), pattern, ParsePattern(pattern), 0)]
      ensures handlers == old(handlers)[RouteKey(verb, pattern) := handle]
    {
      var parts := ParsePattern(pattern);
      var key := RouteKey(verb, pattern);
      Plant(verb, pattern, parts);
      AddRouteRegistered(old(Tries), old(handlers), verb, pattern, handle);
      handlers := handlers[key := handle];
    }

    /** The trie half of addRoute: make sure the verb has a root, then
        insert into its trie. */
    method Plant(verb: string, pattern: string, parts: seq<string>)
      requires Rooted()
      modifies this, Repr
      ensures Rooted() && fresh(Repr - old(Repr))
      ensures Tries == old(Tries)[verb := TrieSpec.Insert(BaseOf(old(Tries), verb), pattern, parts, 0)]
      ensures handlers == old(handlers)
    {
      if verb !in roots {
        ghost var after := Tries[verb := TrieSpec.Insert(Empty, pattern, parts, 0)];
        AddRoot(verb);
        assert Tries[verb := TrieSpec.Insert(Empty, pattern, parts, 0)] == after;
        InsertInto(verb, pattern, parts);
      } else {
        InsertInto(verb, pattern, parts);
      }
    }

    /** `router.roots[method] = &node{}`. */
    method AddRoot(verb: string)
      requires Rooted() && verb !in roots
      modifies this
      ensures Rooted() && fresh(Repr - old(Repr))
      ensures Tries == old(Tries)[verb := Empty] && handlers == old(handlers)
    {
      var root := new Node("");
      roots := roots[verb := root];
      Commit(verb, root);
    }

    /** `router.roots[method].insert(pattern, parts, 0)`. */
    method InsertInto(verb: string, pattern: string, parts: seq<string>)
      requires Rooted() && verb in roots
      modifies this, Repr
      ensures Rooted() && fresh(Repr - old(Repr))
      ensures Tries == old(Tries)[verb := TrieSpec.Insert(old(Tries)[verb], pattern, parts, 0)]
      ensures handlers == old(handlers)
    {
      var root := roots[verb];
      root.Insert(pattern, parts, 0);
      OtherRootsKept(verb);
      Commit(verb, root);
    }

    /** A change confined to the footprint of one root leaves the other
        roots valid, with the same value and footprint, and apart from
        that root. */
    twostate lemma OtherRootsKept(verb: string)
      requires old(Rooted()) && verb in old(roots)
      requires unchanged(this) && unchanged(old(Repr) - old(roots[verb].Repr))
      requires fresh(roots[verb].Repr - old(roots[verb].Repr))
      ensures forall v :: v in roots && v != verb ==>
                && roots[v].Valid() && roots[v].Model == Tries[v] && roots[v].Repr == old(roots[v].Repr)
                && roots[v].Repr !! roots[verb].Repr
    {
      forall v | v in roots && v != verb
        ensures roots[v].Valid() && roots[v].Model == Tries[v] && roots[v].Repr == old(roots[v].Repr)
        ensures roots[v].Repr !! roots[verb].Repr
      {
        var other := roots[v];
        assert other.Repr !! old(roots[verb].Repr);
        assert unchanged(other) && unchanged(other.Repr);
      }
    }

    /** Record the value and footprint of the root of `verb`, given that
        it is valid and apart from the other roots. */
    ghost method Commit(verb: string, root: Node)
      requires verb in roots && roots[verb] == root && roots.Keys == Tries.Keys + {verb}
      requires this !in Repr && root.Valid() && this !in root.Repr
      requires forall v :: v in roots && v != verb ==>
                 && roots[v] in Repr && roots[v].Repr <= Repr
                 && roots[v].Valid() && roots[v].Model == Tries[v] && roots[v].Repr !! root.Repr
      requires forall v1, v2 :: v1 in roots && v2 in roots && v1 != v2 && v1 != verb && v2 != verb ==>
                 roots[v1].Repr !! roots[v2].Repr
      modifies this
      ensures Rooted()
      ensures Tries == old(Tries)[verb := root.Model] && Repr == old(Repr) + root.Repr
      ensures roots == old(roots) && handlers == old(handlers)
    {
      Graft(roots, Tries, Repr, verb, root);
      Tries, Repr := Tries[verb := root.Model], Repr + root.Repr;
    }

    /** Recording the value and footprint of the root of `verb`, given
        that it is valid and apart from the other roots, makes the router
        rooted again. */
    lemma {:induction false} Graft(roots: map<string, Node>, tries: map<string, Tree>, repr: set<object>, verb: string, root: Node)
      requires verb in roots && roots[verb] == root && roots.Keys == tries.Keys + {verb}
      requires this !in repr && root.Valid() && this !in root.Repr
      requires forall v :: v in roots && v != verb ==>
                 && roots[v] in repr && roots[v].Repr <= repr
                 && roots[v].Valid() && roots[v].Model == tries[v] && roots[v].Repr !! root.Repr
      requires forall v1, v2 :: v1 in roots && v2 in roots && v1 != v2 && v1 != verb && v2 != verb ==>
                 roots[v1].Repr !! roots[v2].Repr
      ensures RootedIn(roots, tries[verb := root.Model], repr + root.Repr)
    {
    }

    /** getRouter: the node the request path leads to in the verb's trie,
        and the parameters its pattern binds; null and an empty map (Go's
        nil) when the verb has no trie or nothing matches. */
    method GetRouter(verb: string, path: string) returns (n: Node?, params: map<string, string>)
      requires Valid()
      ensures Lookup(Tries, verb, path).None? ==> n == null && params == map[]
      ensures Lookup(Tries, verb, path).Some? ==>
                && n != null && n.Model == Lookup(Tries, verb, path).value && n.pattern == n.Model.pattern
                && |ParsePattern(n.pattern)| <= |ParsePattern(path)|
                && params == ExtractParams(ParsePattern(n.pattern), ParsePattern(path))
    {
      var searchParts := ParsePattern(path);
      params := map[];
      if verb !in roots {
        return null, map[];
      }
      var root := roots[verb];
      n := root.Search(searchParts, 0);
      if n == null {
        return null, map[];
      }
      LookupRegistered(Tries, handlers, verb, path);
      var parts := ParsePattern(n.pattern);
      var index := 0;
      while index < |parts|
        invariant index <= |parts|
        invariant ExtractParams(parts, searchParts) == Extract(parts, searchParts, index, params)
      {
        var part := parts[index];
        if part[0] == ':' {
          params := params[part[1..] := searchParts[index]];
        }
        if part[0] == '*' && |part| > 1 {
          params := params[part[1..] := Join(searchParts[index..], "/")];
          break;
        }
        index := index + 1;
      }
    }

    /** handle: on a match, store the parameters in the context and run
        the handler registered under "verb-pattern"; otherwise answer 404
        with the path in the body. */
    method Handle(c: Context)
      requires Valid() && c.index >= -1
      modifies c
      ensures c.verb == old(c.verb) && c.path == old(c.path) && c.handlers == old(c.handlers)
      ensures Lookup(Tries, c.verb, c.path).None? ==>
                && c.params == old(c.params)
                && c.State() == old(c.State()).(status := 404, trace := old(c.trace) + [Replied(404, NotFound(c.path))])
      ensures Lookup(Tries, c.verb, c.path).Some? ==>
                var pattern := Lookup(Tries, c.verb, c.path).value.pattern;
                && |ParsePattern(pattern)| <= |ParsePattern(c.path)|
                && RouteKey(c.verb, pattern) in handlers
                && c.params == ExtractParams(ParsePattern(pattern), ParsePattern(c.path))
                && c.State() == Run(c.handlers, handlers[RouteKey(c.verb, pattern)], 0, old(c.index), old(c.State()))
    {
      var n, params := GetRouter(c.verb, c.path);
      if n != null {
        LookupRegistered(Tries, handlers, c.verb, c.path);
        c.params := params;
        var key := RouteKey(c.verb, n.pattern);
        c.Call(handlers[key]);
      } else {
        c.Reply(404, NotFound(c.path));
      }
    }
  }
}
