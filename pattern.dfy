/** Path segmentation (router.go parsePattern, built on Go's strings.Split
    and strings.Join) and the extraction of `:name` / `*name` parameters
    that getRouter performs once a pattern has matched. */
module Pattern {

  /** Go's strings.Split(s, "/"): the pieces between separators, so that
      "" gives [""] and "/a" gives ["", "a"]. */
  function Split(s: string): (pieces: seq<string>)
    ensures |pieces| >= 1
    ensures forall i :: 0 <= i < |pieces| ==> '/' !in pieces[i]
    decreases |s|
  {
    if |s| == 0 then [""]
    else if s[0] == '/' then [""] + Split(s[1..])
    else
      var rest := Split(s[1..]);
      [[s[0]] + rest[0]] + rest[1..]
  }

  /** Go's strings.Join(parts, sep). */
  function Join(parts: seq<string>, sep: string): string
    decreases |parts|
  {
    if |parts| == 0 then ""
    else if |parts| == 1 then parts[0]
    else parts[0] + sep + Join(parts[1..], sep)
  }

  predicate IsStar(segment: string) {
    |segment| > 0 && segment[0] == '*'
  }

  predicate IsParam(segment: string) {
    |segment| > 0 && segment[0] == ':'
  }

  /** A segment that getRouter turns into a parameter: any `:x`, and a
      `*x` whose name is not empty (a bare `*` binds nothing). */
  predicate Binds(segment: string) {
    IsParam(segment) || (IsStar(segment) && |segment| > 1)
  }

  predicate NoSlash(parts: seq<string>) {
    forall i :: 0 <= i < |parts| ==> '/' !in parts[i]
  }

  /** What parsePattern produces: no empty segment, and a `*` segment
      only in last position. */
  predicate WellFormed(parts: seq<string>) {
    && (forall i :: 0 <= i < |parts| ==> parts[i] != "")
    && (forall i :: 0 <= i < |parts| - 1 ==> !IsStar(parts[i]))
  }

  /** The loop of parsePattern over the split pieces: skip empty pieces,
      keep the others, and stop right after the first `*` piece. */
  function Collect(pieces: seq<string>): (parts: seq<string>)
    ensures WellFormed(parts)
    ensures |parts| <= |pieces|
    ensures NoSlash(pieces) ==> NoSlash(parts)
    decreases |pieces|
  {
    if |pieces| == 0 then []
    else if pieces[0] == "" then Collect(pieces[1..])
    else if pieces[0][0] == '*' then [pieces[0]]
    else
      var tail := Collect(pieces[1..]);
      assert NoSlash(pieces) ==> NoSlash(pieces[1..]);
      [pieces[0]] + tail
  }

  function ParsePattern(pattern: string): (parts: seq<string>)
    ensures WellFormed(parts) && NoSlash(parts)
  {
    Collect(Split(pattern))
  }

  /** The path a list of segments spells: "/" followed by the segments
      joined with "/". */
  function PathOf(parts: seq<string>): string {
    "/" + Join(parts, "/")
  }

  // ---------------------------------------------------------------------
  // Properties of Split, Join and ParsePattern

  lemma {:induction false} JoinSplit(s: string)
    ensures Join(Split(s), "/") == s
    decreases |s|
  {
    if |s| > 0 {
      JoinSplit(s[1..]);
      JoinSplitStep(s);
    }
  }

  /** One step of JoinSplit: from the tail of `s` to `s` itself. */
  lemma {:induction false} JoinSplitStep(s: string)
    requires |s| > 0 && Join(Split(s[1..]), "/") == s[1..]
    ensures Join(Split(s), "/") == s
  {
    var rest := Split(s[1..]);
    if s[0] == '/' {
      assert Split(s) == [""] + rest;
      assert ([""] + rest)[1..] == rest;
    } else {
      var pieces := [[s[0]] + rest[0]] + rest[1..];
      assert Split(s) == pieces;
      if |rest| == 1 {
        assert Join(pieces, "/") == [s[0]] + rest[0];
      } else {
        assert pieces[1..] == rest[1..];
        assert Join(rest, "/") == rest[0] + "/" + Join(rest[1..], "/");
        assert Join(pieces, "/") == [s[0]] + rest[0] + "/" + Join(rest[1..], "/");
      }
      assert s == [s[0]] + s[1..];
    }
  }

  lemma {:induction false} SplitNoSlash(a: string)
    requires '/' !in a
    ensures Split(a) == [a]
    decreases |a|
  {
    if |a| > 0 {
      assert '/' !in a[1..] by {
        forall k | 0 <= k < |a[1..]| ensures a[1..][k] != '/' {
          assert a[1..][k] == a[k + 1];
        }
      }
      SplitNoSlash(a[1..]);
      assert [a[0]] + a[1..] == a;
    }
  }

  lemma {:induction false} SplitCons(a: string, rest: string)
    requires '/' !in a
    ensures Split(a + "/" + rest) == [a] + Split(rest)
    decreases |a|
  {
    var s := a + "/" + rest;
    if |a| == 0 {
      assert s[0] == '/' && s[1..] == rest;
    } else {
      assert '/' !in a[1..] by {
        forall k | 0 <= k < |a[1..]| ensures a[1..][k] != '/' {
          assert a[1..][k] == a[k + 1];
        }
      }
      assert s[0] == a[0] && s[1..] == a[1..] + "/" + rest;
      SplitCons(a[1..], rest);
      assert [a[0]] + a[1..] == a;
    }
  }

  /** Splitting the joined segments, followed by more text, gives the
      segments back, followed by the split of that text. */
  lemma {:induction false} SplitJoinThen(parts: seq<string>, rest: string)
    requires |parts| >= 1 && NoSlash(parts)
    ensures Split(Join(parts, "/") + "/" + rest) == parts + Split(rest)
    decreases |parts|
  {
    if |parts| == 1 {
      SplitCons(parts[0], rest);
    } else {
      var tail := parts[1..];
      assert NoSlash(tail) by {
        forall k | 0 <= k < |tail| ensures '/' !in tail[k] {
          assert tail[k] == parts[k + 1];
        }
      }
      SplitJoinThen(tail, rest);
      assert Join(parts, "/") + "/" + rest == parts[0] + "/" + (Join(tail, "/") + "/" + rest);
      SplitCons(parts[0], Join(tail, "/") + "/" + rest);
      ConsAppend(parts, Split(rest));
    }
  }

  lemma {:induction false} ConsAppend(parts: seq<string>, more: seq<string>)
    requires |parts| >= 1
    ensures [parts[0]] + (parts[1..] + more) == parts + more
  {
    assert parts == [parts[0]] + parts[1..];
  }

  lemma {:induction false} SplitJoin(parts: seq<string>)
    requires |parts| >= 1 && NoSlash(parts)
    ensures Split(Join(parts, "/")) == parts
    decreases |parts|
  {
    if |parts| == 1 {
      SplitNoSlash(parts[0]);
    } else {
      var tail := parts[1..];
      assert NoSlash(tail) by {
        forall k | 0 <= k < |tail| ensures '/' !in tail[k] {
          assert tail[k] == parts[k + 1];
        }
      }
      SplitJoin(tail);
      SplitCons(parts[0], Join(tail, "/"));
      assert [parts[0]] + tail == parts;
    }
  }

  lemma {:induction false} CollectWellFormed(parts: seq<string>, more: seq<string>)
    requires WellFormed(parts)
    requires (|parts| > 0 && IsStar(parts[|parts| - 1])) || more == []
    ensures Collect(parts + more) == parts
    decreases |parts|
  {
    if |parts| == 0 {
      assert parts + more == [];
    } else {
      var tail := parts[1..];
      assert (parts + more)[0] == parts[0];
      if IsStar(parts[0]) {
        assert |parts| == 1;
      } else {
        assert WellFormed(tail) by {
          forall k | 0 <= k < |tail| ensures tail[k] == parts[k + 1] { }
        }
        assert (parts + more)[1..] == tail + more;
        CollectWellFormed(tail, more);
      }
    }
  }

  /** The loop skips an empty piece anywhere before the first `*`
      piece, so a doubled or trailing "/" changes nothing. */
  lemma {:induction false} CollectSkipsEmpty(a: seq<string>, b: seq<string>)
    requires forall i :: 0 <= i < |a| ==> !IsStar(a[i])
    ensures Collect(a + [""] + b) == Collect(a + b)
    decreases |a|
  {
    if |a| == 0 {
      assert a + [""] + b == [""] + b && a + b == b;
      assert ([""] + b)[1..] == b;
    } else {
      assert (a + [""] + b)[0] == a[0] && (a + b)[0] == a[0];
      assert (a + [""] + b)[1..] == a[1..] + [""] + b;
      assert (a + b)[1..] == a[1..] + b;
      CollectSkipsEmpty(a[1..], b);
    }
  }

  /** The loop keeps every non-empty piece before the first `*` piece,
      in order. */
  lemma {:induction false} CollectKeeps(a: seq<string>, b: seq<string>)
    requires forall i :: 0 <= i < |a| ==> a[i] != "" && !IsStar(a[i])
    ensures Collect(a + b) == a + Collect(b)
    decreases |a|
  {
    if |a| == 0 {
      assert a + b == b;
    } else {
      assert (a + b)[0] == a[0];
      assert (a + b)[1..] == a[1..] + b;
      CollectKeeps(a[1..], b);
      assert [a[0]] + (a[1..] + Collect(b)) == a + Collect(b);
    }
  }

  /** A request path with a doubled and a trailing "/". */
  lemma ParseSkipsEmpty()
    ensures ParsePattern("/a//b/") == ["a", "b"]
  {
    assert Split("/") == ["", ""];
    assert "b/"[0] == 'b' && "b/"[1..] == "/" && ['b'] + "" == "b";
    assert Split("b/") == ["b", ""];
    assert Split("/b/") == ["", "b", ""];
    assert Split("//b/") == ["", "", "b", ""];
    assert "a//b/"[0] == 'a' && "a//b/"[1..] == "//b/" && ['a'] + "" == "a";
    assert Split("a//b/") == ["a", "", "b", ""];
    assert Split("/a//b/") == ["", "a", "", "b", ""];
  }

  /** parsePattern inverts PathOf on well-formed segment lists: the
      doc-comment example "/p/a/b/c" gives [p, a, b, c]. */
  lemma {:induction false} ParseRoundTrip(parts: seq<string>)
    requires WellFormed(parts) && NoSlash(parts)
    ensures ParsePattern(PathOf(parts)) == parts
  {
    if |parts| == 0 {
      assert PathOf(parts) == "/";
      assert Split("/") == ["", ""];
    } else {
      SplitJoin(parts);
      var s := PathOf(parts);
      assert s[0] == '/' && s[1..] == Join(parts, "/");
      assert Split(s) == [""] + parts;
      assert ([""] + parts)[1..] == parts;
      CollectWellFormed(parts, []);
      assert parts + [] == parts;
    }
  }

  // Everything after the first `*` segment is dropped: the doc-comment
  // examples "/p/a/*/c" and "/p/a/*/d/*" both give [p, a, *].
  lemma {:induction false} ParseTruncatesAtStar(parts: seq<string>, rest: string)
    requires WellFormed(parts) && NoSlash(parts)
    requires |parts| > 0 && IsStar(parts[|parts| - 1])
    ensures ParsePattern(PathOf(parts) + "/" + rest) == parts
  {
    var s := PathOf(parts) + "/" + rest;
    SplitJoinThen(parts, rest);
    assert s[0] == '/' && s[1..] == Join(parts, "/") + "/" + rest;
    assert Split(s) == [""] + (parts + Split(rest));
    assert ([""] + (parts + Split(rest)))[1..] == parts + Split(rest);
    CollectWellFormed(parts, Split(rest));
  }

  lemma ParseExamples()
    ensures ParsePattern("/p/a/b/c") == ["p", "a", "b", "c"]
    ensures ParsePattern("/p/a/*/c") == ["p", "a", "*"]
    ensures ParsePattern("/p/a/*/d/*") == ["p", "a", "*"]
  {
    ParseRoundTrip(["p", "a", "b", "c"]);
    assert PathOf(["p", "a", "b", "c"]) == "/p/a/b/c";
    ParseTruncatesAtStar(["p", "a", "*"], "c");
    assert PathOf(["p", "a", "*"]) + "/" + "c" == "/p/a/*/c";
    ParseTruncatesAtStar(["p", "a", "*"], "d/*");
    assert PathOf(["p", "a", "*"]) + "/" + "d/*" == "/p/a/*/d/*";
  }

  // ---------------------------------------------------------------------
  // Parameter extraction (the loop at the end of getRouter)

  /** The loop over the matched pattern's segments, from position `i`, with
      the parameters bound so far in `params`. */
  function Extract(pattern: seq<string>, request: seq<string>, i: nat, params: map<string, string>): map<string, string>
    requires forall k :: 0 <= k < |pattern| ==> pattern[k] != ""
    requires i <= |pattern| <= |request|
    decreases |pattern| - i
  {
    if i == |pattern| then params
    else
      var part := pattern[i];
      var bound := if part[0] == ':' then params[part[1..] := request[i]] else params;
      if part[0] == '*' && |part| > 1 then bound[part[1..] := Join(request[i..], "/")]
      else Extract(pattern, request, i + 1, bound)
  }

  function ExtractParams(pattern: seq<string>, request: seq<string>): map<string, string>
    requires forall k :: 0 <= k < |pattern| ==> pattern[k] != ""
    requires |pattern| <= |request|
  {
    Extract(pattern, request, 0, map[])
  }

  /** The value a binding segment at position j takes from the request. */
  function ValueAt(pattern: seq<string>, request: seq<string>, j: nat): string
    requires j < |pattern| <= |request|
  {
    if IsParam(pattern[j]) then request[j] else Join(request[j..], "/")
  }

  /** The parameter names declared from position i onwards. */
  function NamesFrom(pattern: seq<string>, i: nat): set<string> {
    set j | i <= j < |pattern| && Binds(pattern[j]) :: pattern[j][1..]
  }

  /** No later binding segment reuses the name of the one at position j,
      so its binding is the one that survives the loop. */
  predicate LastOf(pattern: seq<string>, j: nat) {
    && j < |pattern| && Binds(pattern[j])
    && forall k :: j < k < |pattern| && Binds(pattern[k]) ==> pattern[k][1..] != pattern[j][1..]
  }

  lemma {:induction false} ExtractFrom(pattern: seq<string>, request: seq<string>, i: nat, params: map<string, string>)
    requires WellFormed(pattern)
    requires i <= |pattern| <= |request|
    ensures var r := Extract(pattern, request, i, params);
      && (forall key :: key in r <==> key in params || key in NamesFrom(pattern, i))
      && (forall j :: i <= j < |pattern| && Binds(pattern[j]) && LastOf(pattern, j) ==> r[pattern[j][1..]] == ValueAt(pattern, request, j))
      && (forall key :: key in params && key !in NamesFrom(pattern, i) ==> r[key] == params[key])
    decreases |pattern| - i
  {
    if i < |pattern| {
      var part := pattern[i];
      var bound := if part[0] == ':' then params[part[1..] := request[i]] else params;
      if part[0] == '*' && |part| > 1 {
        assert i == |pattern| - 1;
        assert NamesFrom(pattern, i) == {part[1..]};
      } else {
        ExtractFrom(pattern, request, i + 1, bound);
        assert NamesFrom(pattern, i) == NamesFrom(pattern, i + 1) + (if Binds(part) then {part[1..]} else {});
        if Binds(part) && LastOf(pattern, i) {
          assert IsParam(part);
          assert part[1..] !in NamesFrom(pattern, i + 1);
        }
      }
    }
  }

  /** getRouter binds exactly the declared names: a `:name` segment at
      position i to request segment i, a `*name` segment to the rest of
      the request joined by "/"; nothing else is bound. When a name is
      declared twice, the later segment's value wins. */
  lemma {:induction false} ExtractParamsSpec(pattern: seq<string>, request: seq<string>)
    requires WellFormed(pattern)
    requires |pattern| <= |request|
    ensures ExtractParams(pattern, request).Keys == NamesFrom(pattern, 0)
    ensures forall j :: 0 <= j < |pattern| && IsParam(pattern[j]) && LastOf(pattern, j) ==>
              ExtractParams(pattern, request)[pattern[j][1..]] == request[j]
    ensures forall j :: 0 <= j < |pattern| && IsStar(pattern[j]) && |pattern[j]| > 1 ==>
              ExtractParams(pattern, request)[pattern[j][1..]] == Join(request[j..], "/")
  {
    ExtractFrom(pattern, request, 0, map[]);
    forall j | 0 <= j < |pattern| && IsStar(pattern[j]) && |pattern[j]| > 1
      ensures LastOf(pattern, j)
    {
      assert j == |pattern| - 1;
    }
  }

  /** A repeated name: the later segment's value wins. */
  lemma RepeatedNameLaterWins()
    ensures ExtractParams([":a", ":a"], ["x", "y"]) == map["a" := "y"]
  {
  }

  /** The two doc-comment examples of getRouter. */
  lemma ExtractExamples()
    ensures ExtractParams(["p", ":lang", "doc"], ["p", "go", "doc"]) == map["lang" := "go"]
    ensures ExtractParams(["static", "*filepath"], ["static", "css", "geektutu.css"]) == map["filepath" := "css/geektutu.css"]
  {
    var star := ["static", "css", "geektutu.css"];
    assert star[1..] == ["css", "geektutu.css"];
    assert Join(star[1..], "/") == "css/geektutu.css";
  }
}
