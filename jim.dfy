/** jim.go: the Engine, which dispatches on the exact "verb-path" key.
    This Engine never consults the trie: a request is served only when
    its method and path spell a registered key letter for letter. Its
    handlers take the raw writer and request, so the model keeps them as
    opaque numbers and reports which one would be invoked. */
module Jim {
  import opened Keys

  /** What ServeHTTP does with a request: call the handler with this
      number, or write this not-found text. */
  datatype Outcome = Invoked(handler: nat) | NotFound(body: string)

  /** The text ServeHTTP writes for an unregistered key; it prints the
      whole request URL, while the key uses only the URL's path. */
  function NotFoundText(url: string): string {
    "404 NOT FOUND: " + url + "\n"
  }

  class Engine {
    var router: map<string, nat>

    /** New: an engine with no routes. */
    constructor ()
      ensures router == map[]
    {
      router := map[];
    }

    /** addRoute: store the handler under verb + "-" + pattern, replacing
        any earlier one. */
    method AddRoute(verb: string, pattern: string, handle: nat)
      modifies this
      ensures router == old(router)[RouteKey(verb, pattern) := handle]
    {
      var key := RouteKey(verb, pattern);
      router := router[key := handle];
    }

    method Get(pattern: string, handle: nat)
      modifies this
      ensures router == old(router)[RouteKey("GET", pattern) := handle]
    {
      AddRoute("GET", pattern, handle);
    }

    method Post(pattern: string, handle: nat)
      modifies this
      ensures router == old(router)[RouteKey("POST", pattern) := handle]
    {
      AddRoute("POST", pattern, handle);
    }

    /** ServeHTTP: look the key up; call its handler when present, answer
        with the not-found text otherwise. */
    method ServeHTTP(verb: string, path: string, url: string) returns (out: Outcome)
      ensures RouteKey(verb, path) in router ==> out == Invoked(router[RouteKey(verb, path)])
      ensures RouteKey(verb, path) !in router ==> out == NotFound(NotFoundText(url))
    {
      var key := RouteKey(verb, path);
      if key in router {
        out := Invoked(router[key]);
      } else {
        out := NotFound(NotFoundText(url));
      }
    }
  }

  /** Registering (verb, pattern) adds exactly the requests whose key
      equals verb + "-" + pattern. Nothing is matched by pattern, so
      "/hello/:name" serves the path "/hello/:name" only. For verbs
      without '/' and paths that start with '/' that is the one request
      with that very verb and path; otherwise a request under another
      verb can share the key (`Keys.KeysCollide`) and is served too. */
  lemma {:induction false} RegisterServesExactly(routes: map<string, nat>, verb: string, pattern: string, handle: nat, verb': string, path: string)
    ensures RouteKey(verb', path) in routes[RouteKey(verb, pattern) := handle]
            <==> RouteKey(verb', path) == RouteKey(verb, pattern) || RouteKey(verb', path) in routes
    ensures RouteKey(verb', path) == RouteKey(verb, pattern) ==> routes[RouteKey(verb, pattern) := handle][RouteKey(verb', path)] == handle
    ensures '/' !in verb && '/' !in verb' && Rooted(pattern) && Rooted(path) ==>
              (RouteKey(verb', path) == RouteKey(verb, pattern) <==> verb' == verb && path == pattern)
  {
    if '/' !in verb && '/' !in verb' && Rooted(pattern) && Rooted(path) && RouteKey(verb', path) == RouteKey(verb, pattern) {
      RouteKeyInjective(verb', path, verb, pattern);
    }
  }

  lemma DeeperText()
    ensures NotFoundText("/hello/x?a=1") == "404 NOT FOUND: /hello/x?a=1\n"
  {
  }

  lemma PostedText()
    ensures NotFoundText("/hello") == "404 NOT FOUND: /hello\n"
  {
  }

  /** The engine of the hello example: GET "/" and GET "/hello" are
      served, "/hello/x" and POST "/hello" are not, and the not-found
      text carries the URL with its query. */
  method HelloExample() returns (root: Outcome, hello: Outcome, deeper: Outcome, posted: Outcome)
    ensures root == Invoked(1) && hello == Invoked(2)
    ensures deeper == NotFound("404 NOT FOUND: /hello/x?a=1\n")
    ensures posted == NotFound("404 NOT FOUND: /hello\n")
  {
    var engine := new Engine();
    engine.Get("/", 1);
    engine.Get("/hello", 2);
    root := engine.ServeHTTP("GET", "/", "/");
    hello := engine.ServeHTTP("GET", "/hello", "/hello");
    assert |RouteKey("GET", "/hello/x")| != |RouteKey("GET", "/")|;
    assert |RouteKey("GET", "/hello/x")| != |RouteKey("GET", "/hello")|;
    deeper := engine.ServeHTTP("GET", "/hello/x", "/hello/x?a=1");
    DeeperText();
    assert |RouteKey("POST", "/hello")| != |RouteKey("GET", "/")|;
    assert RouteKey("POST", "/hello")[0] != RouteKey("GET", "/hello")[0];
    posted := engine.ServeHTTP("POST", "/hello", "/hello");
    PostedText();
  }
}
