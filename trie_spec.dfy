/** The segment trie of trie.go as a value: the meaning of every node
    operation of the pointer tree (Trie.Node) is given by a function on
    Tree, and the properties of insertion and search are proved here. */
module TrieSpec {
  import opened Wrappers
  import opened Pattern

  /** A node: `pattern` is set only on a node that ends a registered
      pattern, `part` is this node's segment, `isWild` marks `:x` and `*x`
      segments, and `children` are kept in insertion order. */
  datatype Tree = Tree(pattern: string, part: string, children: seq<Tree>, isWild: bool)

  /** The flag a new node gets: its segment starts with ':' or '*'. */
  predicate WildPart(part: string) {
    |part| > 0 && (part[0] == ':' || part[0] == '*')
  }

  /** `&node{part: part, isWild: ...}`, and the method root `&node{}`. */
  function Leaf(part: string): Tree {
    Tree("", part, [], WildPart(part))
  }

  const Empty: Tree := Leaf("")

  /** The test of matchChild and matchChildren. */
  predicate Matches(t: Tree, part: string) {
    t.part == part || t.isWild
  }

  // ---------------------------------------------------------------------
  // matchChild and matchChildren

  /** matchChild: the position of the first child that matches, if any. */
  function FirstMatch(children: seq<Tree>, part: string): (r: Option<nat>)
    ensures r.Some? ==> r.value < |children| && Matches(children[r.value], part)
    ensures r.Some? ==> forall i :: 0 <= i < r.value ==> !Matches(children[i], part)
    ensures r.None? <==> forall i :: 0 <= i < |children| ==> !Matches(children[i], part)
    decreases |children|
  {
    if |children| == 0 then None
    else if Matches(children[0], part) then Some(0)
    else match FirstMatch(children[1..], part)
      case None => None
      case Some(k) => Some(k + 1)
  }

  /** matchChildren: the positions of all children that match, in order. */
  function MatchIndices(children: seq<Tree>, part: string): (ix: seq<nat>)
    ensures forall k :: 0 <= k < |ix| ==> ix[k] < |children| && Matches(children[ix[k]], part)
    ensures forall k, l :: 0 <= k < l < |ix| ==> ix[k] < ix[l]
    ensures forall i :: 0 <= i < |children| && Matches(children[i], part) ==> i in ix
    decreases |children|
  {
    if |children| == 0 then []
    else
      var last := |children| - 1;
      MatchIndices(children[..last], part) + (if Matches(children[last], part) then [last] else [])
  }

  // ---------------------------------------------------------------------
  // insert

  /** insert(pattern, parts, height), with the new child appended to the
      children (the deviation from trie.go:78-85 recorded in README). */
  function Insert(t: Tree, pattern: string, parts: seq<string>, height: nat): (r: Tree)
    requires height <= |parts|
    ensures r.part == t.part && r.isWild == t.isWild
    decreases |parts| - height
  {
    if height == |parts| then t.(pattern := pattern)
    else
      var part := parts[height];
      match FirstMatch(t.children, part)
      case Some(k) => t.(children := t.children[k := Insert(t.children[k], pattern, parts, height + 1)])
      case None => t.(children := t.children + [Insert(Leaf(part), pattern, parts, height + 1)])
  }

  /** The (pattern, depth) pairs of all nodes that end a pattern, in the
      subtree `t` placed at `depth`. */
  ghost function Terminals(t: Tree, depth: nat): set<(string, nat)>
    decreases t
  {
    var below := depth + 1;
    (if t.pattern != "" then {(t.pattern, depth)} else {})
    + (set i, e | 0 <= i < |t.children| && e in Terminals(t.children[i], below) :: e)
  }

  /** insert sets `pattern` on the node at depth len(parts) and on no
      other: nodes it creates on the way keep an empty pattern, and the
      only terminal it may add is (pattern, len(parts)). */
  lemma {:induction false} InsertTerminals(t: Tree, pattern: string, parts: seq<string>, height: nat)
    requires height <= |parts|
    ensures Terminals(Insert(t, pattern, parts, height), height) <= Terminals(t, height) + {(pattern, |parts|)}
    ensures pattern != "" ==> (pattern, |parts|) in Terminals(Insert(t, pattern, parts, height), height)
    decreases |parts| - height
  {
    var r := Insert(t, pattern, parts, height);
    if height < |parts| {
      var part := parts[height];
      var k, x;
      match FirstMatch(t.children, part) {
        case Some(j) =>
          k := j;
          x := Insert(t.children[k], pattern, parts, height + 1);
          InsertTerminals(t.children[k], pattern, parts, height + 1);
          assert r.children == t.children[k := x];
        case None =>
          k := |t.children|;
          x := Insert(Leaf(part), pattern, parts, height + 1);
          InsertTerminals(Leaf(part), pattern, parts, height + 1);
          assert Terminals(Leaf(part), height + 1) == {};
          assert r.children == t.children + [x];
      }
      assert r.children[k] == x;
      forall e | e in Terminals(r, height)
        ensures e in Terminals(t, height) + {(pattern, |parts|)}
      {
        if e !in (if r.pattern != "" then {(r.pattern, height)} else {}) {
          var i :| 0 <= i < |r.children| && e in Terminals(r.children[i], height + 1);
          if i != k {
            assert r.children[i] == t.children[i];
          }
        }
      }
      if pattern != "" {
        assert (pattern, |parts|) in Terminals(r.children[k], height + 1);
      }
    }
  }

  /** A later insertion at a depth where a matching child (a child with
      the same segment, or any wild child) exists reuses that child; only
      when none matches is a child added. */
  lemma {:induction false} InsertReusesMatchingChild(t: Tree, pattern: string, parts: seq<string>, height: nat)
    requires height < |parts|
    ensures var r := Insert(t, pattern, parts, height);
      match FirstMatch(t.children, parts[height])
      case Some(k) =>
        && |r.children| == |t.children|
        && r.children[k] == Insert(t.children[k], pattern, parts, height + 1)
        && (forall i :: 0 <= i < |t.children| && i != k ==> r.children[i] == t.children[i])
      case None =>
        && |r.children| == |t.children| + 1
        && r.children[..|t.children|] == t.children
        && r.children[|t.children|] == Insert(Leaf(parts[height]), pattern, parts, height + 1)
        && r.children[|t.children|].part == parts[height]
        && r.children[|t.children|].isWild == WildPart(parts[height])
  {
  }

  // ---------------------------------------------------------------------
  // search

  predicate StopsAt(t: Tree, parts: seq<string>, height: nat) {
    height == |parts| || IsStar(t.part)
  }

  /** search(parts, height): stop at depth len(parts) or at a `*` node and
      accept the node only if it ends a pattern; otherwise try the
      matching children in order and return the first deeper success. */
  function Search(t: Tree, parts: seq<string>, height: nat): Option<Tree>
    requires height <= |parts|
    decreases t, 1, 0
  {
    if StopsAt(t, parts, height) then
      if t.pattern == "" then None else Some(t)
    else
      var ix := MatchIndices(t.children, parts[height]);
      SearchAmong(t, parts, height, ix, 0)
  }

  /** The candidate loop of search, from candidate number i. */
  function SearchAmong(t: Tree, parts: seq<string>, height: nat, ix: seq<nat>, i: nat): Option<Tree>
    requires height < |parts| && i <= |ix|
    requires forall k :: 0 <= k < |ix| ==> ix[k] < |t.children|
    decreases t, 0, |ix| - i
  {
    if i == |ix| then None
    else match Search(t.children[ix[i]], parts, height + 1)
      case Some(found) => Some(found)
      case None => SearchAmong(t, parts, height, ix, i + 1)
  }

  /** search never returns a node with an empty pattern, and what it
      returns ends a pattern at some depth between `height` and
      len(parts): the terminal lies on the path the request spells. */
  lemma {:induction false} SearchFindsTerminal(t: Tree, parts: seq<string>, height: nat) returns (depth: nat)
    requires height <= |parts|
    requires Search(t, parts, height).Some?
    ensures Search(t, parts, height).value.pattern != ""
    ensures height <= depth <= |parts|
    ensures (Search(t, parts, height).value.pattern, depth) in Terminals(t, height)
    ensures depth < |parts| ==> IsStar(Search(t, parts, height).value.part)
    decreases t, 1, 0
  {
    if StopsAt(t, parts, height) {
      depth := height;
    } else {
      var ix := MatchIndices(t.children, parts[height]);
      depth := SearchAmongFindsTerminal(t, parts, height, ix, 0);
    }
  }

  lemma {:induction false} SearchAmongFindsTerminal(t: Tree, parts: seq<string>, height: nat, ix: seq<nat>, i: nat) returns (depth: nat)
    requires height < |parts| && i <= |ix|
    requires forall k :: 0 <= k < |ix| ==> ix[k] < |t.children|
    requires SearchAmong(t, parts, height, ix, i).Some?
    ensures SearchAmong(t, parts, height, ix, i).value.pattern != ""
    ensures height < depth <= |parts|
    ensures (SearchAmong(t, parts, height, ix, i).value.pattern, depth) in Terminals(t, height)
    ensures depth < |parts| ==> IsStar(SearchAmong(t, parts, height, ix, i).value.part)
    decreases t, 0, |ix| - i
  {
    var child := t.children[ix[i]];
    match Search(child, parts, height + 1) {
      case Some(found) =>
        depth := SearchFindsTerminal(child, parts, height + 1);
        assert (found.pattern, depth) in Terminals(t.children[ix[i]], height + 1);
      case None =>
        depth := SearchAmongFindsTerminal(t, parts, height, ix, i + 1);
    }
  }

  /** The candidates are tried in order: a candidate is used only when
      every earlier one fails, and the first that succeeds wins. */
  lemma {:induction false} SearchAmongFirstSuccess(t: Tree, parts: seq<string>, height: nat, ix: seq<nat>, i: nat, j: nat)
    requires height < |parts| && i <= j < |ix|
    requires forall k :: 0 <= k < |ix| ==> ix[k] < |t.children|
    requires forall k :: i <= k < j ==> Search(t.children[ix[k]], parts, height + 1).None?
    requires Search(t.children[ix[j]], parts, height + 1).Some?
    ensures SearchAmong(t, parts, height, ix, i) == Search(t.children[ix[j]], parts, height + 1)
    decreases j - i
  {
    if i < j {
      SearchAmongFirstSuccess(t, parts, height, ix, i + 1, j);
    }
  }

  /** A request the pattern `parts` is meant to accept: each segment is
      the pattern's own segment or stands for a `:` or `*` segment, and
      the request is longer only when the pattern ends in a `*` segment. */
  predicate Agrees(parts: seq<string>, request: seq<string>) {
    && |parts| <= |request|
    && (|parts| < |request| ==> |parts| > 0 && IsStar(parts[|parts| - 1]))
    && (forall i :: 0 <= i < |parts| ==> request[i] == parts[i] || WildPart(parts[i]))
  }

  /** Below a node none of whose children matches the next segment,
      search finds nothing. */
  lemma {:induction false} SearchNoMatch(t: Tree, parts: seq<string>, height: nat)
    requires height < |parts| && !IsStar(t.part)
    requires forall i :: 0 <= i < |t.children| ==> !Matches(t.children[i], parts[height])
    ensures Search(t, parts, height).None?
  {
    NoMatchIndices(t.children, parts[height]);
  }

  lemma {:induction false} NoMatchIndices(children: seq<Tree>, part: string)
    requires forall i :: 0 <= i < |children| ==> !Matches(children[i], part)
    ensures MatchIndices(children, part) == []
    decreases |children|
  {
    if |children| > 0 {
      NoMatchIndices(children[..|children| - 1], part);
    }
  }

  /** Round trip: inserting a parsed pattern into an empty trie and
      searching for the same segments finds the node holding it. */
  lemma {:induction false} InsertThenSearch(pattern: string, parts: seq<string>)
    requires WellFormed(parts) && pattern != ""
    ensures Search(Insert(Empty, pattern, parts, 0), parts, 0).Some?
    ensures Search(Insert(Empty, pattern, parts, 0), parts, 0).value.pattern == pattern
  {
    InsertThenSearchAgreeing(pattern, parts, parts);
  }

  /** The same round trip for every request the pattern accepts: `:name`
      takes any one segment, and a final `*name` any number of them, at
      least one. */
  lemma {:induction false} InsertThenSearchAgreeing(pattern: string, parts: seq<string>, request: seq<string>)
    requires WellFormed(parts) && pattern != "" && Agrees(parts, request)
    ensures Search(Insert(Empty, pattern, parts, 0), request, 0).Some?
    ensures Search(Insert(Empty, pattern, parts, 0), request, 0).value.pattern == pattern
  {
    ChainInsertThenSearch(Empty, pattern, parts, request, 0);
  }

  lemma {:induction false} ChainInsertThenSearch(t: Tree, pattern: string, parts: seq<string>, request: seq<string>, height: nat)
    requires WellFormed(parts) && pattern != "" && height <= |parts| && Agrees(parts, request)
    requires t.children == []
    requires height < |parts| ==> !IsStar(t.part)
    requires height > 0 ==> t.part == parts[height - 1]
    ensures Search(Insert(t, pattern, parts, height), request, height).Some?
    ensures Search(Insert(t, pattern, parts, height), request, height).value.pattern == pattern
    decreases |parts| - height
  {
    if height < |parts| {
      var part := parts[height];
      var x := Insert(Leaf(part), pattern, parts, height + 1);
      var r := Insert(t, pattern, parts, height);
      assert r.children == [x];
      ChainInsertThenSearch(Leaf(part), pattern, parts, request, height + 1);
      SearchOnlyChild(r, request, height);
    } else if height < |request| {
      assert IsStar(t.part);
    }
  }

  /** Below a node whose one child matches the next segment, search is
      the search of that child. */
  lemma {:induction false} SearchOnlyChild(t: Tree, parts: seq<string>, height: nat)
    requires height < |parts| && !IsStar(t.part)
    requires |t.children| == 1 && Matches(t.children[0], parts[height])
    ensures Search(t, parts, height) == Search(t.children[0], parts, height + 1)
  {
    assert MatchIndices(t.children, parts[height]) == [0] by {
      assert t.children[..0] == [];
    }
    assert Search(t, parts, height) == SearchAmong(t, parts, height, [0], 0);
    assert SearchAmong(t, parts, height, [0], 1) == None;
  }

  // ---------------------------------------------------------------------
  // The code as written (see README, Findings)

  /** insert as written: the child built when none matches is never
      attached, so the route below it is lost. */
  function InsertAsWritten(t: Tree, pattern: string, parts: seq<string>, height: nat): Tree
    requires height <= |parts|
    decreases |parts| - height
  {
    if height == |parts| then t.(pattern := pattern)
    else
      var part := parts[height];
      match FirstMatch(t.children, part)
      case Some(k) => t.(children := t.children[k := InsertAsWritten(t.children[k], pattern, parts, height + 1)])
      case None => t
  }

  /** matchChildren as written: the matching children are collected and
      then `nil` is returned. */
  function MatchIndicesAsWritten(children: seq<Tree>, part: string): seq<nat> {
    // `collected` stands for the `nodes` slice that trie.go:46 drops.
    var collected := MatchIndices(children, part);
    []
  }

  /** search over matchChildren as written. */
  function SearchAsWritten(t: Tree, parts: seq<string>, height: nat): Option<Tree>
    requires height <= |parts|
  {
    if StopsAt(t, parts, height) then
      if t.pattern == "" then None else Some(t)
    else
      SearchAmong(t, parts, height, MatchIndicesAsWritten(t.children, parts[height]), 0)
  }

  /** As written, insert into an empty trie never creates a node, and
      search never looks below the node it starts from. */
  lemma DefectWitnesses()
    ensures InsertAsWritten(Empty, "/hello", ["hello"], 0) == Empty
    ensures Search(InsertAsWritten(Empty, "/hello", ["hello"], 0), ["hello"], 0).None?
    ensures SearchAsWritten(Insert(Empty, "/hello", ["hello"], 0), ["hello"], 0).None?
    ensures Search(Insert(Empty, "/hello", ["hello"], 0), ["hello"], 0).Some?
  {
    InsertThenSearch("/hello", ["hello"]);
    assert Search(Empty, ["hello"], 0).None? by {
      assert MatchIndices([], "hello") == [];
    }
  }

  /** As written, search can only ever return the node it starts from. */
  lemma {:induction false} SearchAsWrittenOnlyRoot(t: Tree, parts: seq<string>, height: nat)
    requires height <= |parts|
    ensures SearchAsWritten(t, parts, height).Some? ==> SearchAsWritten(t, parts, height).value == t
  {
  }
}
