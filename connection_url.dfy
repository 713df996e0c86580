/**
 * The connection string handed to the Prisma client: the configured
 * `DATABASE_URL` (or the empty string) with the pool parameters appended
 * as one more query parameter.
 */
module ConnectionUrl {
  import opened Common

  /** Three connections, a twenty second pool timeout. */
  const PoolParams: string := "connection_limit=3&pool_timeout=20"

  /** `process.env.DATABASE_URL || ''`: an unset variable reads as empty. */
  function BaseUrl(env: Option<string>): string
  {
    if env.Some? then env.value else ""
  }

  /** `getDatabaseUrl`: `&` when the base already has a query, `?` otherwise. */
  function DatabaseUrl(env: Option<string>): (url: string)
    ensures StartsWith(url, BaseUrl(env)) && EndsWith(url, PoolParams)
    ensures |url| == |BaseUrl(env)| + 1 + |PoolParams|
    ensures url[|BaseUrl(env)|] == (if '?' in BaseUrl(env) then '&' else '?')
  {
    var base := BaseUrl(env);
    var separator := if '?' in base then '&' else '?';
    assert (base + [separator] + PoolParams)[..|base|] == base;
    base + [separator] + PoolParams
  }

  /** The query part of a URL: what follows its first `?`, empty if none. */
  function QueryOf(url: string): (q: string)
    ensures '?' !in url ==> q == ""
    ensures |q| < |url| || url == ""
  {
    if url == [] then []
    else if url[0] == '?' then url[1..]
    else QueryOf(url[1..])
  }

  lemma {:induction false} QueryOfAppend(a: string, b: string)
    ensures '?' in a ==> QueryOf(a + b) == QueryOf(a) + b
    ensures '?' !in a ==> QueryOf(a + b) == QueryOf(b)
  {
    if a != [] {
      assert (a + b)[0] == a[0];
      assert (a + b)[1..] == a[1..] + b;
      assert '?' in a <==> a[0] == '?' || '?' in a[1..];
      QueryOfAppend(a[1..], b);
    } else {
      assert a + b == b;
    }
  }

  /** Appending a separator and a parameter string to a URL: `?` opens the
      query of a URL without one, `&` extends the query it has. */
  lemma AppendParams(base: string, separator: char, params: string)
    requires separator == if '?' in base then '&' else '?'
    ensures '?' in base + [separator] + params
    ensures QueryOf(base + [separator] + params) == if '?' in base then QueryOf(base) + "&" + params else params
  {
    var tail := [separator] + params;
    assert base + [separator] + params == base + tail;
    QueryOfAppend(base, tail);
    assert tail[0] == separator && tail[1..] == params;
    if '?' in base {
      var k :| 0 <= k < |base| && base[k] == '?';
      assert (base + tail)[k] == '?';
    } else {
      assert (base + tail)[|base|] == '?';
    }
  }

  /** Whatever the base, the result has a query, and the pool parameters are
      one more parameter of it: they start a query the base did not have, or
      follow the one it had after an `&`. */
  lemma PoolParamsJoinTheQuery(env: Option<string>)
    ensures '?' in DatabaseUrl(env)
    ensures var base := BaseUrl(env);
      QueryOf(DatabaseUrl(env)) == if '?' in base then QueryOf(base) + "&" + PoolParams else PoolParams
  {
    var base := BaseUrl(env);
    AppendParams(base, if '?' in base then '&' else '?', PoolParams);
  }

  /** An unset variable gives the bare parameter string behind a `?`. */
  lemma UnsetVariable()
    ensures DatabaseUrl(None) == "?" + PoolParams
  {
  }
}
