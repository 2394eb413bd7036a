/** The handler-table key shared by router.go and jim.go: verb + "-" + pattern. */
module Keys {

  function RouteKey(verb: string, pattern: string): string {
    verb + "-" + pattern
  }

  /** A path or pattern as requests and registrations normally spell it. */
  predicate Rooted(path: string) {
    |path| > 0 && path[0] == '/'
  }

  /** Two keys agree only when their verb and pattern agree, as long as
      neither verb contains '/' and both patterns start with '/': the
      first '/' of the key then marks where the verb ends. A verb may
      contain '-' (M-SEARCH, VERSION-CONTROL). */
  lemma {:induction false} RouteKeyInjective(m1: string, p1: string, m2: string, p2: string)
    requires '/' !in m1 && '/' !in m2 && Rooted(p1) && Rooted(p2)
    requires RouteKey(m1, p1) == RouteKey(m2, p2)
    ensures m1 == m2 && p1 == p2
  {
    SlashAfterVerb(m1, p1);
    SlashAfterVerb(m2, p2);
    if |m1| < |m2| {
      NoSlashInVerb(m2, p2, |m1| + 1);
      assert false;
    } else if |m2| < |m1| {
      NoSlashInVerb(m1, p1, |m2| + 1);
      assert false;
    }
    assert m1 == RouteKey(m1, p1)[..|m1|] && m2 == RouteKey(m2, p2)[..|m2|];
    assert p1 == RouteKey(m1, p1)[|m1| + 1..] && p2 == RouteKey(m2, p2)[|m2| + 1..];
  }

  lemma {:induction false} SlashAfterVerb(verb: string, pattern: string)
    requires Rooted(pattern)
    ensures RouteKey(verb, pattern)[|verb| + 1] == '/'
  {
  }

  lemma {:induction false} NoSlashInVerb(verb: string, pattern: string, j: nat)
    requires '/' !in verb && j <= |verb|
    ensures RouteKey(verb, pattern)[j] != '/'
  {
    if j < |verb| {
      assert RouteKey(verb, pattern)[j] == verb[j];
    }
  }

  /** Without those conditions two registrations can share a key: the
      verb M-SEARCH with /x and the verb M with SEARCH-/x. */
  lemma KeysCollide()
    ensures RouteKey("M-SEARCH", "/x") == RouteKey("M", "SEARCH-/x")
  {
  }
}
