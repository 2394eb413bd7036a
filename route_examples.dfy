/** The router and the context together, on the routes of the examples:
    a parameter route that binds `lang`, and a request it does not match. */
module RouteExamples {
  import opened Pattern
  import opened TrieSpec
  import opened Chain
  import opened RequestContext
  import opened Wrappers
  import opened Keys
  import opened Routing
  import opened TrieExamples

  lemma LangPatternPath()
    ensures ParsePattern("/p/:lang/doc") == ["p", ":lang", "doc"]
  {
    ParseRoundTrip(["p", ":lang", "doc"]);
    assert PathOf(["p", ":lang", "doc"]) == "/p/:lang/doc";
  }

  /** A segment a request can carry in place of `:lang`. */
  predicate Segment(lang: string) {
    lang != "" && '/' !in lang && !IsStar(lang)
  }

  lemma {:induction false} LangPath(lang: string)
    requires Segment(lang)
    ensures PathOf(["p", lang, "doc"]) == "/p/" + lang + "/doc"
    ensures ParsePattern("/p/" + lang + "/doc") == ["p", lang, "doc"]
  {
    assert Join(["p", lang, "doc"], "/") == "p/" + lang + "/doc" by {
      assert ["p", lang, "doc"][1..] == [lang, "doc"];
      assert [lang, "doc"][1..] == ["doc"];
      assert Join([lang, "doc"], "/") == lang + "/" + "doc";
      assert "p" + "/" + (lang + "/" + "doc") == "p/" + lang + "/doc";
    }
    ParseRoundTrip(["p", lang, "doc"]);
  }

  lemma {:induction false} ShortPath(lang: string)
    requires Segment(lang)
    ensures PathOf(["p", lang]) == "/p/" + lang
    ensures ParsePattern("/p/" + lang) == ["p", lang]
  {
    assert Join(["p", lang], "/") == "p/" + lang by {
      assert ["p", lang][1..] == [lang];
      assert Join([lang], "/") == lang;
      assert "p" + "/" + lang == "p/" + lang;
    }
    ParseRoundTrip(["p", lang]);
  }

  /** What getRouter finds once GET /p/:lang/doc is registered: any
      segment in the middle reaches the route and is bound to `lang`; a
      request that stops at `:lang` reaches nothing. */
  lemma {:induction false} LangLookup(lang: string)
    requires Segment(lang)
    ensures Search(LangTrie(), ["p", lang, "doc"], 0) == Some(Tree("/p/:lang/doc", "doc", [], false))
    ensures ExtractParams(["p", ":lang", "doc"], ["p", lang, "doc"]) == map["lang" := lang]
    ensures Search(LangTrie(), ["p", lang], 0).None?
  {
    LangTrieShape();
    var t := LangTrie();
    var p := t.children[0];
    var node := p.children[0];
    var full := ["p", lang, "doc"];
    SearchOnlyChild(t, full, 0);
    SearchOnlyChild(p, full, 1);
    SearchOnlyChild(node, full, 2);
    var short := ["p", lang];
    SearchOnlyChild(t, short, 0);
    SearchOnlyChild(p, short, 1);
  }

  /** The router of the example, with GET /p/:lang/doc registered. */
  method LangRouter() returns (r: Router)
    ensures r.Valid() && r.Tries == map["GET" := LangTrie()]
    ensures RouteKey("GET", "/p/:lang/doc") in r.handlers
    ensures r.handlers[RouteKey("GET", "/p/:lang/doc")] == [Reply(200, "doc")]
  {
    LangPatternPath();
    r := new Router();
    r.AddRoute("GET", "/p/:lang/doc", [Reply(200, "doc")]);
  }

  /** A handler that only replies sets the status and writes once. */
  lemma {:induction false} ReplyOnly(hs: seq<Handler>, code: int, body: string, lo: int, s: Exec)
    requires s.index >= -1 && (lo <= s.index || s.index >= |hs|)
    ensures Run(hs, [Reply(code, body)], 0, lo, s) == s.(status := code, trace := s.trace + [Replied(code, body)])
  {
    var s1 := s.(status := code, trace := s.trace + [Replied(code, body)]);
    assert Run(hs, [Reply(code, body)], 1, lo, s1) == s1;
  }

  /** GET /p/<lang>/doc against the route GET /p/:lang/doc: the handler
      runs with c.Param("lang") == lang and answers 200 (the doc-comment
      example is lang == "go"). */
  method LangRouteExample(lang: string) returns (value: string, status: int)
    requires Segment(lang)
    ensures value == lang && status == 200
  {
    LangPath(lang);
    LangLookup(lang);
    var r := LangRouter();
    var c := new Context("GET", "/p/" + lang + "/doc");
    ghost var s0 := c.State();
    r.Handle(c);
    LangPatternPath();
    assert c.params == map["lang" := lang];
    ReplyOnly([], 200, "doc", -1, s0);
    value := c.Param("lang");
    status := c.statusCode;
  }

  lemma {:induction false} MissBody(lang: string)
    ensures NotFound("/p/" + lang) == "404 NOT FOUND: /p/" + lang + "\n"
  {
    assert "404 NOT FOUND: " + ("/p/" + lang) == "404 NOT FOUND: /p/" + lang;
  }

  /** GET /p/<lang> stops at the `:lang` node, which ends no pattern: the
      answer is 404 with the path in the body. */
  method LangRouteMiss(lang: string) returns (status: int, trace: seq<Event>)
    requires Segment(lang)
    ensures status == 404 && trace == [Replied(404, "404 NOT FOUND: /p/" + lang + "\n")]
  {
    ShortPath(lang);
    LangLookup(lang);
    MissBody(lang);
    var r := LangRouter();
    var c := new Context("GET", "/p/" + lang);
    r.Handle(c);
    status := c.statusCode;
    trace := c.trace;
  }
}
