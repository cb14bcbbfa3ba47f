/**
 The server's `Config` (`server/src/config.py`): the file-server table read
 from `FILE_SERVER_<i>`, `FILE_SERVER_<i>_USER` and `FILE_SERVER_<i>_PASS`,
 the two scheduler intervals and the API token. The environment is a finite
 map from variable names to values.
 */
module ServerConfig {
  import opened Options
  import opened Strings
  import Utils

  type Env = map<string, string>

  /** `os.getenv(name, default)`: the value when the variable is set (even to ""). */
  function GetEnvOr(env: Env, name: string, default: string): string {
    if name in env then env[name] else default
  }

  /** One configured file server. `name` is the display name. */
  datatype ServerEntry = ServerEntry(path: string, username: string, password: string, name: string)

  /** One entry of `FILE_SERVERS`: the key ("server_<i>") and its settings. */
  datatype Binding = Binding(key: string, entry: ServerEntry)

  function ServerVar(i: nat): string { "FILE_SERVER_" + Decimal(i) }
  function UserVar(i: nat): string { ServerVar(i) + "_USER" }
  function PassVar(i: nat): string { ServerVar(i) + "_PASS" }
  function ServerKey(i: nat): string { "server_" + Decimal(i) }
  function DisplayName(i: nat): string { "Server " + Decimal(i) }

  /** `if not server_path`: the variable is set and not empty. */
  predicate IsSet(env: Env, name: string) {
    name in env && env[name] != ""
  }

  /** The entry built for index `i`: user and password default to "". */
  function EntryFor(env: Env, i: nat): ServerEntry
    requires ServerVar(i) in env
  {
    ServerEntry(env[ServerVar(i)], GetEnvOr(env, UserVar(i), ""), GetEnvOr(env, PassVar(i), ""), DisplayName(i))
  }

  /** The binding index `i` contributes: present exactly when FILE_SERVER_i is set
      and non-empty. */
  function Expected(env: Env, i: nat): (b: Option<Binding>)
    ensures b.Some? <==> IsSet(env, ServerVar(i))
  {
    if IsSet(env, ServerVar(i)) then Some(Binding(ServerKey(i), EntryFor(env, i))) else None
  }

  /** What `load_file_servers` leaves in `FILE_SERVERS`: the bindings for i = 1..n
      in order, each from a set FILE_SERVER_i, and FILE_SERVER_(n+1) unset or empty. */
  predicate LoadedFrom(env: Env, servers: seq<Binding>) {
    && (forall i :: 1 <= i <= |servers| ==> Expected(env, i) == Some(servers[i - 1]))
    && Expected(env, |servers| + 1) == None
  }

  lemma DecimalInjective(i: nat, j: nat)
    requires Decimal(i) == Decimal(j)
    ensures i == j
  {
    DecimalDigits(i);
    DecimalDigits(j);
  }

  lemma ServerVarInjective(i: nat, j: nat)
    requires ServerVar(i) == ServerVar(j)
    ensures i == j
  {
    assert ServerVar(i)[12..] == Decimal(i);
    assert ServerVar(j)[12..] == Decimal(j);
    DecimalInjective(i, j);
  }

  /** A server variable never coincides with a user or password variable: the
      former ends in a digit, the latter in a letter. */
  lemma ServerVarIsNotUserOrPass(i: nat, j: nat)
    ensures ServerVar(i) != UserVar(j) && ServerVar(i) != PassVar(j)
  {
    DecimalDigits(i);
    var s := ServerVar(i);
    assert s[|s| - 1] == Decimal(i)[|Decimal(i)| - 1];
    assert UserVar(j)[|UserVar(j)| - 1] == 'R';
    assert PassVar(j)[|PassVar(j)| - 1] == 'S';
  }

  /** `load_file_servers`: read FILE_SERVER_1, FILE_SERVER_2, ... and stop at the
      first one unset or empty. The loop ends because each step consumes a
      different variable of the finite environment. */
  method LoadFileServers(env: Env) returns (servers: seq<Binding>)
    ensures LoadedFrom(env, servers)
  {
    servers := [];
    var i: nat := 1;
    ghost var unseen := env.Keys;
    while IsSet(env, ServerVar(i))
      invariant i == |servers| + 1
      invariant forall j :: 1 <= j <= |servers| ==> Expected(env, j) == Some(servers[j - 1])
      invariant unseen <= env.Keys
      invariant forall j :: 1 <= j < i ==> ServerVar(j) !in unseen
      invariant forall name :: name in env.Keys && name !in unseen ==> exists j :: 1 <= j < i && name == ServerVar(j)
      decreases |unseen|
    {
      assert ServerVar(i) in unseen by {
        if ServerVar(i) !in unseen {
          var j :| 1 <= j < i && ServerVar(i) == ServerVar(j);
          ServerVarInjective(i, j);
        }
      }
      unseen := unseen - {ServerVar(i)};
      servers := servers + [Binding(ServerKey(i), EntryFor(env, i))];
      i := i + 1;
    }
  }

  /** The table is determined by the environment. */
  lemma {:induction false} LoadedFromUnique(env: Env, a: seq<Binding>, b: seq<Binding>)
    requires LoadedFrom(env, a) && LoadedFrom(env, b)
    ensures a == b
  {
    assert |a| == |b|;
    forall k | 0 <= k < |a|
      ensures a[k] == b[k]
    {
      assert Expected(env, k + 1) == Some(a[k]) == Some(b[k]);
    }
  }

  /** Setting a server variable beyond the first gap changes nothing. */
  lemma LaterIndicesIgnored(env: Env, servers: seq<Binding>, m: nat, value: string)
    requires LoadedFrom(env, servers)
    requires m > |servers| + 1
    ensures LoadedFrom(env[ServerVar(m) := value], servers)
  {
    var env2 := env[ServerVar(m) := value];
    forall k | 1 <= k <= |servers| + 1
      ensures ServerVar(k) != ServerVar(m) && UserVar(k) != ServerVar(m) && PassVar(k) != ServerVar(m)
    {
      if ServerVar(k) == ServerVar(m) {
        ServerVarInjective(k, m);
      }
      ServerVarIsNotUserOrPass(m, k);
    }
    forall i | 1 <= i <= |servers|
      ensures Expected(env2, i) == Some(servers[i - 1])
    {
      assert Expected(env, i) == Some(servers[i - 1]);
      assert EntryFor(env2, i) == EntryFor(env, i);
    }
    assert ServerVar(|servers| + 1) != ServerVar(m);
    assert Expected(env2, |servers| + 1) == None;
  }

  /** The keys are exactly server_1 ... server_n, in order and without repeats. */
  lemma KeysContiguous(env: Env, servers: seq<Binding>)
    requires LoadedFrom(env, servers)
    ensures forall k :: 0 <= k < |servers| ==> servers[k].key == ServerKey(k + 1) && servers[k].entry.name == DisplayName(k + 1)
    ensures forall k, l :: 0 <= k < l < |servers| ==> servers[k].key != servers[l].key
  {
    forall k | 0 <= k < |servers|
      ensures servers[k].key == ServerKey(k + 1) && servers[k].entry.name == DisplayName(k + 1)
    {
      assert Expected(env, k + 1) == Some(servers[k]);
    }
    forall k, l | 0 <= k < l < |servers|
      ensures servers[k].key != servers[l].key
    {
      if servers[k].key == servers[l].key {
        assert servers[k].key[7..] == Decimal(k + 1);
        assert servers[l].key[7..] == Decimal(l + 1);
        DecimalInjective(k + 1, l + 1);
      }
    }
  }

  /** An unset user or password variable reads as "". */
  lemma MissingCredentialsAreEmpty(env: Env, i: nat)
    requires ServerVar(i) in env && UserVar(i) !in env && PassVar(i) !in env
    ensures EntryFor(env, i).username == "" && EntryFor(env, i).password == ""
  {
  }

  // ---------------------------------------------------------------------------
  // Lookups in FILE_SERVERS

  /** `name in FILE_SERVERS`. */
  predicate Configured(servers: seq<Binding>, name: string) {
    exists k :: 0 <= k < |servers| && servers[k].key == name
  }

  /** The position of the first binding with key `name`, or the length. */
  function KeyIndex(servers: seq<Binding>, name: string): (i: nat)
    ensures i <= |servers|
    ensures forall j :: 0 <= j < i ==> servers[j].key != name
    ensures i < |servers| ==> servers[i].key == name
    decreases |servers|
  {
    if |servers| == 0 || servers[0].key == name then 0
    else 1 + KeyIndex(servers[1..], name)
  }

  /** `FILE_SERVERS.get(name)`: the entry of the first binding with that key. */
  function Lookup(servers: seq<Binding>, name: string): (r: Option<ServerEntry>)
    ensures r.Some? <==> Configured(servers, name)
    ensures r.Some? ==> servers[KeyIndex(servers, name)] == Binding(name, r.value)
  {
    var i := KeyIndex(servers, name);
    if i < |servers| then Some(servers[i].entry) else None
  }

  /** `FILE_SERVERS.keys()`, in insertion order. */
  function ServerNames(servers: seq<Binding>): (names: seq<string>)
    ensures |names| == |servers|
    ensures forall k :: 0 <= k < |servers| ==> names[k] == servers[k].key
  {
    seq(|servers|, k requires 0 <= k < |servers| => servers[k].key)
  }

  // ---------------------------------------------------------------------------
  // Scalar settings

  function UpdateInterval(env: Env): int {
    Utils.ParseInterval(GetEnvOr(env, "UPDATE_INTERVAL", "5m"))
  }

  function TempCleanInterval(env: Env): int {
    Utils.ParseInterval(GetEnvOr(env, "TEMP_CLEAN_INTERVAL", "30m"))
  }

  function ApiToken(env: Env): string {
    GetEnvOr(env, "API_TOKEN", "default_token")
  }

  /** With the variables unset the scan runs every 300 s, the clean-up every 1800 s,
      and the token is "default_token". */
  lemma Defaults(env: Env)
    requires "UPDATE_INTERVAL" !in env && "TEMP_CLEAN_INTERVAL" !in env && "API_TOKEN" !in env
    ensures UpdateInterval(env) == 300
    ensures TempCleanInterval(env) == 1800
    ensures ApiToken(env) == "default_token"
  {
    Utils.FiveMinutes();
    Utils.ThirtyMinutes();
  }

  /** A variable set to the empty string gives the 300 s fallback, not the default text. */
  lemma EmptyIntervalIsFiveMinutes(env: Env)
    requires "UPDATE_INTERVAL" in env && env["UPDATE_INTERVAL"] == ""
    requires "TEMP_CLEAN_INTERVAL" in env && env["TEMP_CLEAN_INTERVAL"] == ""
    ensures UpdateInterval(env) == 300 && TempCleanInterval(env) == 300
  {
  }
}
