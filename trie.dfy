/** trie.go: the segment trie as a tree of node objects. Each node keeps
    its abstract value in the ghost field Model, and every operation is
    proved against the function on TrieSpec.Tree that gives its meaning. */
module Trie {
  import opened Wrappers
  import opened Pattern
  import opened TrieSpec

  class Node {
    var pattern: string
    var part: string
    var children: seq<Node>
    var isWild: bool

    ghost var Model: Tree
    ghost var Repr: set<object>

    /** The node owns its children exclusively (the subtrees' footprints
        are disjoint and do not contain this node), and Model is the value
        of the whole subtree. */
    ghost predicate Valid()
      reads this, Repr
      ensures Valid() ==> this in Repr
      decreases Repr
    {
      && this in Repr
      && Model.pattern == pattern && Model.part == part && Model.isWild == isWild
      && |Model.children| == |children|
      && (forall i :: 0 <= i < |children| ==>
            && children[i] in Repr && children[i].Repr <= Repr && this !in children[i].Repr
            && children[i].Valid() && children[i].Model == Model.children[i])
      && (forall i, j :: 0 <= i < j < |children| ==> children[i].Repr !! children[j].Repr)
    }

    /** `&node{part: part, isWild: part[0] == ':' || part[0] == '*'}`; the
        method root `&node{}` is the node built from the empty segment. */
    constructor (part: string)
      ensures Valid() && fresh(Repr)
      ensures Model == Leaf(part)
      ensures this.part == part && pattern == "" && children == []
      ensures isWild <==> |part| > 0 && (part[0] == ':' || part[0] == '*')
    {
      pattern := "";
      this.part := part;
      children := [];
      isWild := |part| > 0 && (part[0] == ':' || part[0] == '*');
      Model := Leaf(part);
      Repr := {this};
    }

    /** matchChild: the first child, in order, whose part equals `part` or
        that is wild; null if there is none. */
    method MatchChild(part: string) returns (child: Node?)
      requires Valid()
      ensures match FirstMatch(Model.children, part)
        case None => child == null
        case Some(k) => child == children[k]
    {
      var i := 0;
      while i < |children|
        invariant 0 <= i <= |children|
        invariant forall k :: 0 <= k < i ==> !Matches(Model.children[k], part)
      {
        if children[i].part == part || children[i].isWild {
          return children[i];
        }
        i := i + 1;
      }
      return null;
    }

    /** matchChildren: exactly the matching children, in order (the
        collected slice is returned, see README). */
    method MatchChildren(part: string) returns (nodes: seq<Node>)
      requires Valid()
      ensures |nodes| == |MatchIndices(Model.children, part)|
      ensures forall k :: 0 <= k < |nodes| ==> nodes[k] == children[MatchIndices(Model.children, part)[k]]
    {
      nodes := [];
      var i := 0;
      while i < |children|
        invariant 0 <= i <= |children|
        invariant |nodes| == |MatchIndices(Model.children[..i], part)|
        invariant forall k :: 0 <= k < |nodes| ==> nodes[k] == children[MatchIndices(Model.children[..i], part)[k]]
      {
        assert Model.children[..i + 1][..i] == Model.children[..i];
        if children[i].part == part || children[i].isWild {
          nodes := nodes + [children[i]];
        }
        i := i + 1;
      }
      assert Model.children[..|children|] == Model.children;
    }

    /** insert: walk or create one node per segment and set the pattern
        on the node at depth len(parts). The two ways down (into a new
        child, into the matching child) are the helpers below. */
    method Insert(pattern: string, parts: seq<string>, height: nat)
      requires Valid() && height <= |parts|
      modifies Repr
      ensures Valid() && fresh(Repr - old(Repr))
      ensures Model == TrieSpec.Insert(old(Model), pattern, parts, height)
      decreases |parts| - height, 1
    {
      if |parts| == height {
        this.pattern := pattern;
        Model := Model.(pattern := pattern);
        return;
      }
      var part := parts[height];
      var child := MatchChild(part);
      if child == null {
        InsertIntoNewChild(pattern, parts, height);
      } else {
        InsertIntoChild(child, FirstMatch(Model.children, part).value, pattern, parts, height);
      }
    }

    /** No child matches: build `&node{part, isWild}`, append it to the
        children and insert below it. */
    method InsertIntoNewChild(pattern: string, parts: seq<string>, height: nat)
      requires Valid() && height < |parts|
      modifies Repr
      ensures Valid() && fresh(Repr - old(Repr))
      ensures Model == old(Model).(children := old(Model).children + [TrieSpec.Insert(Leaf(parts[height]), pattern, parts, height + 1)])
      decreases |parts| - height, 0
    {
      var child := new Node(parts[height]);
      children := children + [child];
      child.Insert(pattern, parts, height + 1);
      Model := Model.(children := Model.children + [child.Model]);
      Repr := Repr + child.Repr;
      assert children[|children| - 1] == child;
      forall i | 0 <= i < |children| - 1
        ensures children[i].Valid() && children[i].Model == Model.children[i]
        ensures children[i].Repr !! child.Repr
      {
        assert children[i] == old(children[i]);
      }
    }

    /** The child at position k matches: insert below it. */
    method InsertIntoChild(child: Node, ghost k: nat, pattern: string, parts: seq<string>, height: nat)
      requires Valid() && height < |parts|
      requires k < |children| && children[k] == child
      modifies Repr
      ensures Valid() && fresh(Repr - old(Repr))
      ensures Model == old(Model).(children := old(Model).children[k := TrieSpec.Insert(old(Model).children[k], pattern, parts, height + 1)])
      decreases |parts| - height, 0
    {
      child.Insert(pattern, parts, height + 1);
      forall i | 0 <= i < |children| && i != k
        ensures children[i].Valid() && children[i].Model == Model.children[i]
        ensures children[i].Repr !! child.Repr
      {
        assert children[i].Repr !! old(child.Repr);
      }
      Model := Model.(children := Model.children[k := child.Model]);
      Repr := Repr + child.Repr;
    }

    /** search: the node the request segments lead to, or null; it is the
        node TrieSpec.Search finds in this subtree. */
    method Search(parts: seq<string>, height: nat) returns (r: Node?)
      requires Valid() && height <= |parts|
      ensures TrieSpec.Search(Model, parts, height).None? ==> r == null
      ensures TrieSpec.Search(Model, parts, height).Some? ==>
                r != null && r in Repr && r.Valid() && r.Model == TrieSpec.Search(Model, parts, height).value
      decreases Repr
    {
      if height == |parts| || (|part| > 0 && part[0] == '*') {
        if pattern == "" {
          return null;
        }
        return this;
      }
      var candidates := MatchChildren(parts[height]);
      ghost var ix := MatchIndices(Model.children, parts[height]);
      var i := 0;
      while i < |candidates|
        invariant 0 <= i <= |candidates|
        invariant TrieSpec.Search(Model, parts, height) == SearchAmong(Model, parts, height, ix, i)
      {
        assert candidates[i] == children[ix[i]];
        assert candidates[i].Repr < Repr;
        var found := candidates[i].Search(parts, height + 1);
        if found != null {
          return found;
        }
        i := i + 1;
      }
      return null;
    }
  }
}
