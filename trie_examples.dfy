/** Concrete tries built by insert and what search finds in them. */
module TrieExamples {
  import opened Wrappers
  import opened Pattern
  import opened TrieSpec

  // ---------------------------------------------------------------------
  // GET /p/:lang/doc

  function LangTrie(): Tree {
    Insert(Empty, "/p/:lang/doc", ["p", ":lang", "doc"], 0)
  }

  lemma LangTrieShape()
    ensures LangTrie() == Tree("", "", [Tree("", "p", [Tree("", ":lang", [Tree("/p/:lang/doc", "doc", [], false)], true)], false)], false)
  {
    var parts := ["p", ":lang", "doc"];
    var doc := Tree("/p/:lang/doc", "doc", [], false);
    var lang := Tree("", ":lang", [doc], true);
    assert Insert(Leaf("doc"), "/p/:lang/doc", parts, 3) == doc;
    assert Insert(Leaf(":lang"), "/p/:lang/doc", parts, 2) == lang;
    assert Insert(Leaf("p"), "/p/:lang/doc", parts, 1) == Tree("", "p", [lang], false);
  }

  /** `:lang` matches any one segment, and a request that stops at a node
      which ends no pattern finds nothing. */
  lemma LangExample()
    ensures Search(LangTrie(), ["p", "go", "doc"], 0).Some?
    ensures Search(LangTrie(), ["p", "go", "doc"], 0).value.pattern == "/p/:lang/doc"
    ensures Search(LangTrie(), ["p", "python"], 0).None?
  {
    LangTrieShape();
    var t := LangTrie();
    var p := t.children[0];
    var lang := p.children[0];
    var go := ["p", "go", "doc"];
    SearchOnlyChild(t, go, 0);
    SearchOnlyChild(p, go, 1);
    SearchOnlyChild(lang, go, 2);
    var python := ["p", "python"];
    SearchOnlyChild(t, python, 0);
    SearchOnlyChild(p, python, 1);
  }

  // ---------------------------------------------------------------------
  // GET /static/*filepath

  function StaticTrie(): Tree {
    Insert(Empty, "/static/*filepath", ["static", "*filepath"], 0)
  }

  lemma StaticTrieShape()
    ensures StaticTrie() == Tree("", "", [Tree("", "static", [Tree("/static/*filepath", "*filepath", [], true)], false)], false)
  {
    var parts := ["static", "*filepath"];
    var star := Tree("/static/*filepath", "*filepath", [], true);
    assert Insert(Leaf("*filepath"), "/static/*filepath", parts, 2) == star;
    assert Insert(Leaf("static"), "/static/*filepath", parts, 1) == Tree("", "static", [star], false);
  }

  /** The doc-comment request: `*filepath` takes `css/geektutu.css`, and
      a request that ends at `static` finds nothing. */
  lemma StaticExample()
    ensures Search(StaticTrie(), ["static", "css", "geektutu.css"], 0).Some?
    ensures Search(StaticTrie(), ["static", "css", "geektutu.css"], 0).value.pattern == "/static/*filepath"
    ensures Search(StaticTrie(), ["static"], 0).None?
  {
    StaticTrieShape();
    var t := StaticTrie();
    var dir := t.children[0];
    var req := ["static", "css", "geektutu.css"];
    SearchOnlyChild(t, req, 0);
    SearchOnlyChild(dir, req, 1);
    SearchOnlyChild(t, ["static"], 0);
  }

  /** A `*` segment swallows the rest of the request, however long, but
      needs at least one segment to stand on. */
  lemma {:induction false} StaticAnyLength(rest: seq<string>)
    requires |rest| >= 1
    ensures Search(StaticTrie(), ["static"] + rest, 0).Some?
    ensures Search(StaticTrie(), ["static"] + rest, 0).value.pattern == "/static/*filepath"
  {
    assert WellFormed(["static", "*filepath"]);
    assert Agrees(["static", "*filepath"], ["static"] + rest);
    InsertThenSearchAgreeing("/static/*filepath", ["static", "*filepath"], ["static"] + rest);
  }

  // ---------------------------------------------------------------------
  // GET /a/b/c, then GET /a/:x/d

  function BacktrackTrie(): Tree {
    Insert(Insert(Empty, "/a/b/c", ["a", "b", "c"], 0), "/a/:x/d", ["a", ":x", "d"], 0)
  }

  lemma BacktrackTrieShape()
    ensures BacktrackTrie() == Tree("", "", [Tree("", "a", [
              Tree("", "b", [Tree("/a/b/c", "c", [], false)], false),
              Tree("", ":x", [Tree("/a/:x/d", "d", [], false)], true)], false)], false)
  {
    var abc := ["a", "b", "c"];
    var axd := ["a", ":x", "d"];
    var b := Tree("", "b", [Tree("/a/b/c", "c", [], false)], false);
    var x := Tree("", ":x", [Tree("/a/:x/d", "d", [], false)], true);
    assert Insert(Leaf("c"), "/a/b/c", abc, 3) == b.children[0];
    assert Insert(Leaf("b"), "/a/b/c", abc, 2) == b;
    var a0 := Tree("", "a", [b], false);
    assert Insert(Leaf("a"), "/a/b/c", abc, 1) == a0;
    assert Insert(Empty, "/a/b/c", abc, 0) == Tree("", "", [a0], false);
    assert Insert(Leaf("d"), "/a/:x/d", axd, 3) == x.children[0];
    assert Insert(Leaf(":x"), "/a/:x/d", axd, 2) == x;
    assert FirstMatch([b], ":x").None?;
    assert Insert(a0, "/a/:x/d", axd, 1) == Tree("", "a", [b, x], false);
  }

  /** search backtracks: for /a/b/d the literal child `b` is tried first
      and fails, then the wild sibling `:x` succeeds. */
  lemma BacktrackExample()
    ensures Search(BacktrackTrie(), ["a", "b", "d"], 0).Some?
    ensures Search(BacktrackTrie(), ["a", "b", "d"], 0).value.pattern == "/a/:x/d"
  {
    BacktrackTrieShape();
    var t := BacktrackTrie();
    SearchOnlyChild(t, ["a", "b", "d"], 0);
    BacktrackBelowA(t.children[0]);
  }

  lemma {:induction false} BacktrackBelowA(a: Tree)
    requires a == Tree("", "a", [
               Tree("", "b", [Tree("/a/b/c", "c", [], false)], false),
               Tree("", ":x", [Tree("/a/:x/d", "d", [], false)], true)], false)
    ensures Search(a, ["a", "b", "d"], 1) == Some(Tree("/a/:x/d", "d", [], false))
  {
    var req := ["a", "b", "d"];
    var b := a.children[0];
    var x := a.children[1];
    BothMatch(a.children, "b");
    assert Search(a, req, 1) == SearchAmong(a, req, 1, [0, 1], 0);
    SearchNoMatch(b, req, 2);
    SearchOnlyChild(x, req, 2);
    SearchAmongFirstSuccess(a, req, 1, [0, 1], 0, 1);
  }

  /** Two children that both match are both candidates, in order. */
  lemma {:induction false} BothMatch(children: seq<Tree>, part: string)
    requires |children| == 2 && Matches(children[0], part) && Matches(children[1], part)
    ensures MatchIndices(children, part) == [0, 1]
  {
    var first := children[..1];
    assert first[..0] == [] && first[0] == children[0];
    assert MatchIndices(first[..0], part) == [];
    assert MatchIndices(first, part) == [] + [0];
    assert MatchIndices(children, part) == MatchIndices(first, part) + [1];
  }

  // ---------------------------------------------------------------------
  // GET /a/:x/d, then GET /a/b/c

  function ShadowTrie(): Tree {
    Insert(Insert(Empty, "/a/:x/d", ["a", ":x", "d"], 0), "/a/b/c", ["a", "b", "c"], 0)
  }

  lemma ShadowTrieShape()
    ensures ShadowTrie() == Tree("", "", [Tree("", "a", [Tree("", ":x", [
              Tree("/a/:x/d", "d", [], false), Tree("/a/b/c", "c", [], false)], true)], false)], false)
  {
    var abc := ["a", "b", "c"];
    var axd := ["a", ":x", "d"];
    var d := Tree("/a/:x/d", "d", [], false);
    var c := Tree("/a/b/c", "c", [], false);
    assert Insert(Leaf("d"), "/a/:x/d", axd, 3) == d;
    var x0 := Tree("", ":x", [d], true);
    assert Insert(Leaf(":x"), "/a/:x/d", axd, 2) == x0;
    var a0 := Tree("", "a", [x0], false);
    assert Insert(Leaf("a"), "/a/:x/d", axd, 1) == a0;
    assert Insert(Empty, "/a/:x/d", axd, 0) == Tree("", "", [a0], false);
    assert Insert(Leaf("c"), "/a/b/c", abc, 3) == c;
    assert FirstMatch([d], "c").None?;
    assert Insert(x0, "/a/b/c", abc, 2) == Tree("", ":x", [d, c], true);
    assert FirstMatch([x0], "b") == Some(0);
    assert Insert(a0, "/a/b/c", abc, 1) == Tree("", "a", [Tree("", ":x", [d, c], true)], false);
  }

  /** insert follows the first matching child, wild ones included: a
      literal route registered after a `:x` route at the same place is
      stored under `:x`, so /a/zzz/c is routed to the pattern /a/b/c. */
  lemma ShadowExample()
    ensures Search(ShadowTrie(), ["a", "zzz", "c"], 0).Some?
    ensures Search(ShadowTrie(), ["a", "zzz", "c"], 0).value.pattern == "/a/b/c"
  {
    ShadowTrieShape();
    var t := ShadowTrie();
    var a := t.children[0];
    var x := a.children[0];
    var req := ["a", "zzz", "c"];
    SearchOnlyChild(t, req, 0);
    SearchOnlyChild(a, req, 1);
    assert MatchIndices(x.children, "c") == [1] by {
      assert x.children[..1] == [x.children[0]];
      assert [x.children[0]][..0] == [];
    }
    assert Search(x, req, 2) == SearchAmong(x, req, 2, [1], 0);
    assert SearchAmong(x, req, 2, [1], 1).None?;
  }
}
