/** context.go: the per-request Context. Its chain methods are proved
    against the functions of module Chain; the response writer is reduced
    to the status code and the trace of events it receives. */
module RequestContext {
  import opened Chain

  class Context {
    var path: string
    var verb: string
    var params: map<string, string>
    var statusCode: int
    var handlers: seq<Handler>
    var index: int
    /** What was written to the response, plus the handlers' markers. */
    var trace: seq<Event>

    /** The part of the context the chain functions speak about. */
    function State(): Exec
      reads this
    {
      Exec(index, statusCode, trace)
    }

    /** newContext: Path and Method from the request, the cursor before
        the first handler, no parameters (a nil map reads as empty), no
        status code yet. */
    constructor (verb: string, path: string)
      ensures this.verb == verb && this.path == path
      ensures index == -1 && handlers == [] && params == map[] && statusCode == 0 && trace == []
    {
      this.verb := verb;
      this.path := path;
      params := map[];
      statusCode := 0;
      handlers := [];
      index := -1;
      trace := [];
    }

    /** Next: advance the cursor and run the rest of the chain in a loop
        that re-reads the cursor after every handler. */
    method Next()
      requires index >= -1
      modifies this
      ensures State() == Chain.Next(handlers, old(State()))
      ensures index >= |handlers|
      ensures handlers == old(handlers) && params == old(params)
      ensures path == old(path) && verb == old(verb)
      decreases Rank(|handlers|, index + 1), 2
    {
      index := index + 1;
      var s := |handlers|;
      while index < s
        invariant s == |handlers| && index >= old(index) + 1
        invariant Chain.Next(handlers, old(State())) == Loop(handlers, State())
        invariant handlers == old(handlers) && params == old(params)
        invariant path == old(path) && verb == old(verb)
        decreases s - index
      {
        trace := trace + [Started(index)];
        Call(handlers[index]);
        index := index + 1;
      }
    }

    /** Invoke handler `h` on this context: its actions run in order. */
    method Call(h: Handler)
      requires index >= -1
      modifies this
      ensures State() == Run(handlers, h, 0, old(index), old(State()))
      ensures handlers == old(handlers) && params == old(params)
      ensures path == old(path) && verb == old(verb)
      decreases Rank(|handlers|, index), if index < |handlers| then 0 else 3
    {
      ghost var lo := index;
      var pos := 0;
      while pos < |h|
        invariant 0 <= pos <= |h|
        invariant index >= -1 && (lo <= index || index >= |handlers|)
        invariant Run(handlers, h, 0, lo, old(State())) == Run(handlers, h, pos, lo, State())
        invariant handlers == old(handlers) && params == old(params)
        invariant path == old(path) && verb == old(verb)
      {
        match h[pos] {
          case Mark(id) =>
            trace := trace + [Marked(id)];
          case CallNext =>
            Next();
          case Fail(code, message) =>
            Fail(code, message);
          case Reply(code, body) =>
            Reply(code, body);
        }
        pos := pos + 1;
      }
    }

    /** Status: record the code (and write the header). */
    method Status(code: int)
      modifies this
      ensures statusCode == code
      ensures index == old(index) && trace == old(trace) && handlers == old(handlers)
      ensures params == old(params) && path == old(path) && verb == old(verb)
    {
      statusCode := code;
    }

    /** String, JSON and Data: set the status code, then write the body. */
    method Reply(code: int, body: string)
      modifies this
      ensures statusCode == code && trace == old(trace) + [Replied(code, body)]
      ensures index == old(index) && handlers == old(handlers)
      ensures params == old(params) && path == old(path) && verb == old(verb)
    {
      Status(code);
      trace := trace + [Replied(code, body)];
    }

    /** Fail: move the cursor to the end of the chain, so that the loop in
        Next starts no further handler, and answer with a JSON message. */
    method Fail(code: int, message: string)
      modifies this
      ensures index == |handlers| && statusCode == code
      ensures trace == old(trace) + [Failed(code, message)]
      ensures handlers == old(handlers) && params == old(params)
      ensures path == old(path) && verb == old(verb)
    {
      index := |handlers|;
      Status(code);
      trace := trace + [Failed(code, message)];
    }

    /** Param: the value bound to `key`, or "" when none is. */
    function Param(key: string): (value: string)
      reads this
      ensures key in params ==> value == params[key]
      ensures key !in params ==> value == ""
    {
      if key in params then params[key] else ""
    }
  }
}
