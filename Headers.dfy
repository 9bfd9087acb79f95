/**
 * The process-wide header store (`currentHeaders`) with its two operations: `setHeaders`,
 * which merges the environment's headers and then the caller's over the stored ones, and
 * `getHeaders`, which fills the store from the environment whenever it is empty.
 * Decoding JSON and reading the `GRAPHQL_HEADERS` variable happen outside the model: their
 * outcomes are parameters. Header names are taken as already canonical.
 */
module Headers {
  import opened Wrappers

  /** Header name to value. */
  type HeaderMap = map<string, string>

  /** The outcome of decoding a JSON object of strings. */
  datatype Decoded = Parsed(headers: HeaderMap) | Malformed

  /** Why `setHeaders` refused: which of its two JSON inputs failed to decode. */
  datatype SetError = UserHeadersMalformed | EnvHeadersMalformed

  /**
   * The environment's headers as `setHeaders` reads them: none when the variable is empty
   * (`env` is None), its decoded map, or a failure when it does not decode.
   */
  function EnvHeaders(env: Option<Decoded>): (r: Option<HeaderMap>)
    ensures r.None? <==> env == Some(Malformed)
    ensures env.None? ==> r == Some(map[])
    ensures env.Some? && env.value.Parsed? ==> r == Some(env.value.headers)
  {
    match env
    case None => Some(map[])
    case Some(Parsed(m)) => Some(m)
    case Some(Malformed) => None
  }

  /** The store after a successful `setHeaders`: environment over the old store, caller over both. */
  function Merge(current: HeaderMap, env: HeaderMap, user: HeaderMap): (r: HeaderMap)
    ensures r.Keys == current.Keys + env.Keys + user.Keys
    ensures forall k :: k in user ==> r[k] == user[k]
    ensures forall k :: k in env && k !in user ==> r[k] == env[k]
    ensures forall k :: k in current && k !in env && k !in user ==> r[k] == current[k]
  {
    current + env + user
  }

  /** The store after `getHeaders`: only an empty store is filled, and only from headers that decode. */
  function Loaded(current: HeaderMap, env: Option<Decoded>): (r: HeaderMap)
    ensures current != map[] ==> r == current
    ensures current == map[] && env.Some? && env.value.Parsed? ==> r == env.value.headers
    ensures r != current ==> current == map[] && env.Some? && env.value.Parsed? && r == env.value.headers
  {
    if |current| == 0 && env.Some? && env.value.Parsed? then current + env.value.headers else current
  }

  class HeaderStore {
    var headers: HeaderMap

    /** `make(http.Header)`: the store starts empty. */
    constructor ()
      ensures headers == map[]
    {
      headers := map[];
    }

    /** Sets every entry of `m`, one key at a time, replacing what the store held for it. */
    method SetAll(m: HeaderMap)
      modifies this
      ensures headers == old(headers) + m
    {
      var rest := m.Keys;
      ghost var done: set<string> := {};
      while rest != {}
        invariant rest + done == m.Keys && rest !! done
        invariant headers == old(headers) + map k | k in done :: m[k]
        decreases rest
      {
        var k :| k in rest;
        headers := headers[k := m[k]];
        rest := rest - {k};
        done := done + {k};
      }
      assert (map k | k in done :: m[k]) == m;
    }

    /**
     * `setHeaders`: with both inputs decoded, the environment's headers and then the
     * caller's are set over the store; if either fails to decode, nothing changes.
     */
    method SetHeaders(user: Decoded, env: Option<Decoded>) returns (err: Option<SetError>)
      modifies this
      ensures err == Some(UserHeadersMalformed) <==> user.Malformed?
      ensures err == Some(EnvHeadersMalformed) <==> user.Parsed? && env == Some(Malformed)
      ensures err.Some? ==> headers == old(headers)
      ensures err.None? ==> headers == Merge(old(headers), EnvHeaders(env).value, user.headers)
    {
      if user.Malformed? {
        return Some(UserHeadersMalformed);
      }
      if env.Some? {
        if env.value.Malformed? {
          return Some(EnvHeadersMalformed);
        }
        SetAll(env.value.headers);
      }
      SetAll(user.headers);
      err := None;
    }

    /**
     * `getHeaders`: whenever the store is empty it is filled from the environment, if that
     * decodes. The store's map is returned as a value; the caller does not share it.
     */
    method GetHeaders(env: Option<Decoded>) returns (h: HeaderMap)
      modifies this
      ensures headers == Loaded(old(headers), env)
      ensures h == headers
    {
      if |headers| == 0 {
        if env.Some? {
          if env.value.Parsed? {
            SetAll(env.value.headers);
          }
        }
      }
      h := headers;
    }
  }

  // ---- Properties of the store's operations ----

  /** Repeating a successful `setHeaders` with the same inputs changes nothing more. */
  lemma MergeIdempotent(current: HeaderMap, env: HeaderMap, user: HeaderMap)
    ensures Merge(Merge(current, env, user), env, user) == Merge(current, env, user)
  {
    var once := Merge(current, env, user);
    var twice := Merge(once, env, user);
    assert twice.Keys == once.Keys;
    forall k | k in once ensures twice[k] == once[k] {
    }
  }

  /** The caller's headers win over the environment's whatever the store held before. */
  lemma MergeUserWins(current: HeaderMap, current': HeaderMap, env: HeaderMap, user: HeaderMap, k: string)
    requires k in user
    ensures Merge(current, env, user)[k] == Merge(current', env, user)[k] == user[k]
  {
  }

  /** Loading is idempotent: a second `getHeaders` finds the store the first one left. */
  lemma LoadedIdempotent(current: HeaderMap, env: Option<Decoded>)
    ensures Loaded(Loaded(current, env), env) == Loaded(current, env)
  {
    var once := Loaded(current, env);
    assert once != current ==> once != map[];
  }

  /** Once a successful `setHeaders` has stored anything, `getHeaders` never reloads the environment. */
  lemma NoReloadAfterSet(current: HeaderMap, env: Option<Decoded>, user: HeaderMap)
    requires EnvHeaders(env).Some?
    requires Merge(current, EnvHeaders(env).value, user) != map[]
    ensures Loaded(Merge(current, EnvHeaders(env).value, user), env) == Merge(current, EnvHeaders(env).value, user)
  {
  }
}
