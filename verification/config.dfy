/** The configuration layer of config/config.go: per-host credentials and
    address, the merge of global variables into each host's variables, and
    the translation of decoded command entries into runnable commands.

    Reading the YAML files and decoding loosely typed `value` fields are
    outside the model; a command entry carries the outcome of decoding its
    value as each of the two command shapes.
 */
module Config {
  import opened Bytes
  import opened Results
  import opened TemplateEngine
  import opened Commands

  /** One entry of the `hosts` list. A host whose YAML has no `variables`
      key holds the nil map. */
  datatype HostConfig = HostConfig(
    address: Bytes,
    port: Bytes,
    username: Bytes,
    password: Bytes,
    certPath: Bytes,
    variables: GoMap<Bytes, Bytes>)

  /** The `global` section. */
  datatype GlobalConfig = GlobalConfig(
    async: bool,
    username: Bytes,
    password: Bytes,
    variables: GoMap<Bytes, Bytes>)

  /** Whatever the structure decoder reports when a value does not fit. */
  datatype DecodeError = DecodeError(message: Bytes)

  /** One entry of the `commands` list: its `type` and the outcome of
      decoding its `value` as an upload and as a bash command. */
  datatype CommandConfig = CommandConfig(
    kind: Bytes,
    asUpload: Result<Upload, DecodeError>,
    asBash: Result<Bash, DecodeError>)

  datatype Config = Config(global: GlobalConfig, hosts: seq<HostConfig>, commands: seq<CommandConfig>)

  /** The `type` values the configuration names besides `bash`. Only
      `upload` is told apart: every other value, `download` and the empty
      string included, runs as bash. */
  const UploadType: Bytes := "upload"
  const DownloadType: Bytes := "download"

  const DefaultPort: Bytes := "22"

  /** The SSH login a host uses: its user name and password. */
  datatype ClientConfig = ClientConfig(user: Bytes, password: Bytes)

  /** `HostConfig.GetUsername`: the host's user, or the global one when the
      host names none. */
  function GetUsername(h: HostConfig, g: GlobalConfig): (u: Bytes)
    ensures h.username != [] ==> u == h.username
    ensures h.username == [] ==> u == g.username
  {
    if h.username == [] then g.username else h.username
  }

  /** `HostConfig.GetPassword`: keyed on the host's USER name, not on its
      password, so the password always comes from the same place as the
      user. */
  function GetPassword(h: HostConfig, g: GlobalConfig): (p: Bytes)
    ensures h.username != [] ==> p == h.password
    ensures h.username == [] ==> p == g.password
  {
    if h.username == [] then g.password else h.password
  }

  /** User and password always come from one source, never mixed. */
  lemma CredentialsFromOneSource(h: HostConfig, g: GlobalConfig)
    ensures (GetUsername(h, g), GetPassword(h, g)) ==
      if h.username == [] then (g.username, g.password) else (h.username, h.password)
  {
  }

  /** A host password without a host user is never used, and a host user
      with no password logs in with the empty password even when the global
      section has one. */
  lemma HostPasswordNeedsHostUser(h: HostConfig, g: GlobalConfig, p: Bytes)
    ensures h.username == [] ==> GetPassword(h.(password := p), g) == g.password
    ensures h.username != [] && h.password == [] ==> GetPassword(h, g) == []
  {
  }

  /** `HostConfig.GetAddr`: `address:port`, with the port defaulted to 22
      and the default stored back into the (receiver's copy of the) host. */
  function GetAddr(h: HostConfig): (r: (Bytes, HostConfig))
    ensures r.1 == h.(port := r.1.port)
    ensures r.1.port != []
    ensures h.port == [] ==> r.1.port == DefaultPort
    ensures h.port != [] ==> r.1 == h
    ensures r.0 == h.address + ":" + r.1.port
  {
    var h' := if h.port == [] then h.(port := DefaultPort) else h;
    (h'.address + ":" + h'.port, h')
  }

  /** Asking again gives the same address and changes nothing more. */
  lemma GetAddrIdempotent(h: HostConfig)
    ensures GetAddr(GetAddr(h).1) == GetAddr(h)
  {
  }

  lemma GetAddrExamples(h: HostConfig)
    requires h.address == "db1"
    ensures h.port == [] ==> GetAddr(h).0 == "db1:22"
    ensures h.port == "2200" ==> GetAddr(h).0 == "db1:2200"
  {
  }

  /** Host variables over global ones: every key of either, the host's
      value where both have one. */
  function Merge(vars: Vars, global: Vars): (r: Vars)
    ensures r.Keys == vars.Keys + global.Keys
    ensures forall k :: k in vars ==> r[k] == vars[k]
    ensures forall k :: k in global && k !in vars ==> r[k] == global[k]
  {
    global + vars
  }

  /** Merging the same globals twice is merging them once. */
  lemma MergeIdempotent(vars: Vars, global: Vars)
    ensures Merge(Merge(vars, global), global) == Merge(vars, global)
  {
  }

  /** The host's variables come back unchanged exactly when every global
      key is already among them. */
  lemma MergeUnchangedIff(vars: Vars, global: Vars)
    ensures Merge(vars, global) == vars <==> global.Keys <= vars.Keys
  {
    if Merge(vars, global) == vars {
      forall k | k in global.Keys
        ensures k in vars.Keys
      {
        assert k in Merge(vars, global).Keys;
      }
    }
  }

  /** `addGlobalVariables` with the nil host map read as empty. */
  function AddGlobalVariables(vars: GoMap<Bytes, Bytes>, global: GoMap<Bytes, Bytes>): (r: Vars)
    ensures r.Keys == Entries(vars).Keys + Entries(global).Keys
    ensures forall k :: k in Entries(vars) ==> r[k] == Entries(vars)[k]
    ensures forall k :: k in Entries(global) && k !in Entries(vars) ==> r[k] == Entries(global)[k]
  {
    Merge(Entries(vars), Entries(global))
  }

  /** Go's run-time panic on a write to the nil map. */
  datatype MergePanic = NilMapWrite

  /** `addGlobalVariables` as the code is written: it writes into the
      host's own map, which is nil for a host with no `variables` key, and
      the first global key it copies panics. */
  function AddGlobalVariablesAsWritten(vars: GoMap<Bytes, Bytes>, global: GoMap<Bytes, Bytes>): Result<GoMap<Bytes, Bytes>, MergePanic>
  {
    match vars
    case Nil => if Entries(global) == map[] then Success(Nil) else Failure(NilMapWrite)
    case Made(m) => Success(Made(Merge(m, Entries(global))))
  }

  /** The part of `g` whose keys are in `d`. */
  function Restrict(g: Vars, d: set<Bytes>): (r: Vars)
    ensures r.Keys == g.Keys * d
  {
    map k | k in g.Keys && k in d :: g[k]
  }

  /** Visiting one more global key writes it only when the map lacks it. */
  lemma MergeVisit(e: Vars, g: Vars, done: set<Bytes>, k: Bytes)
    requires k in g
    ensures Restrict(g, done + {k}) + e ==
      if k in Restrict(g, done) + e then Restrict(g, done) + e
      else (Restrict(g, done) + e)[k := g[k]]
  {
  }

  lemma NilMapPanics(global: GoMap<Bytes, Bytes>, k: Bytes)
    requires k in Entries(global)
    ensures AddGlobalVariablesAsWritten(Nil, global) == Failure(NilMapWrite)
  {
  }

  /** The loop of `addGlobalVariables`, visiting the global keys in
      whatever order the map yields them: every order ends in the same
      map, or in the same panic. */
  method AddGlobalVariablesLoop(vars: GoMap<Bytes, Bytes>, global: GoMap<Bytes, Bytes>)
    returns (r: Result<GoMap<Bytes, Bytes>, MergePanic>)
    ensures r == AddGlobalVariablesAsWritten(vars, global)
  {
    var g := Entries(global);
    var e := Entries(vars);
    var remaining := g.Keys;
    ghost var done: set<Bytes> := {};
    var m := e;
    assert Restrict(g, {}) + e == e;
    while remaining != {}
      invariant remaining <= g.Keys && done == g.Keys - remaining
      invariant vars.Nil? ==> remaining == g.Keys && m == map[]
      invariant m == Restrict(g, done) + e
      decreases remaining
    {
      var k :| k in remaining;
      MergeVisit(e, g, done, k);
      if k !in m {
        if vars.Nil? {
          NilMapPanics(global, k);
          return Failure(NilMapWrite);
        }
        m := m[k := g[k]];
      }
      done := done + {k};
      remaining := remaining - {k};
    }
    assert Restrict(g, done) == g;
    if vars.Nil? {
      assert g == map[];
      return Success(Nil);
    }
    return Success(Made(m));
  }

  /** The panic: a host with no `variables` key under a global section
      that has some. */
  lemma NilHostVariablesPanic()
    ensures AddGlobalVariablesAsWritten(Nil, Made(map["env" := "prod"])) == Failure(NilMapWrite)
    ensures AddGlobalVariables(Nil, Made(map["env" := "prod"])) == map["env" := "prod"]
  {
    assert Entries(Made(map["env" := "prod"])) != map[] by {
      assert "env" in Entries(Made(map["env" := "prod"]));
    }
  }

  /** The code as written fails exactly on a nil host map with globals to
      copy, and otherwise agrees with the corrected merge. */
  lemma AsWrittenMergeAgrees(vars: GoMap<Bytes, Bytes>, global: GoMap<Bytes, Bytes>)
    ensures AddGlobalVariablesAsWritten(vars, global).Failure? <==> vars.Nil? && Entries(global) != map[]
    ensures AddGlobalVariablesAsWritten(vars, global).Success? ==>
      Entries(AddGlobalVariablesAsWritten(vars, global).value) == AddGlobalVariables(vars, global)
  {
    if vars.Nil? && Entries(global) == map[] {
      assert AddGlobalVariables(vars, global) == map[];
    }
  }

  /** The command a decoded entry becomes: `upload` decodes as an upload,
      every other type as bash. */
  function Dispatch(c: CommandConfig): (r: Result<Command, DecodeError>)
    ensures r.Success? ==> (r.value.RunUpload? <==> c.kind == UploadType)
    ensures r.Success? && r.value.RunUpload? ==> c.asUpload == Success(r.value.upload)
    ensures r.Success? && r.value.RunBash? ==> c.asBash == Success(r.value.bash)
    ensures r.Failure? ==> c.asUpload == Failure(r.error) || c.asBash == Failure(r.error)
    ensures c.kind == UploadType ==>
      (r.Success? <==> c.asUpload.Success?) && (r.Failure? ==> c.asUpload == Failure(r.error))
    ensures c.kind != UploadType ==>
      (r.Success? <==> c.asBash.Success?) && (r.Failure? ==> c.asBash == Failure(r.error))
  {
    if c.kind == UploadType then
      var u :- c.asUpload;
      Success(RunUpload(u))
    else
      var b :- c.asBash;
      Success(RunBash(b))
  }

  /** A `download` entry is not recognised: it runs as bash. */
  lemma DownloadRunsAsBash(c: CommandConfig)
    requires c.kind == DownloadType
    ensures Dispatch(c).Success? <==> c.asBash.Success?
    ensures Dispatch(c).Success? ==> Dispatch(c).value == RunBash(c.asBash.value)
  {
    assert DownloadType != UploadType by {
      assert DownloadType[0] != UploadType[0];
    }
  }

  /** `Config.ParseCommands`: one command per entry, in order, or the
      first entry's decode error. */
  method ParseCommands(c: Config) returns (r: Result<seq<Command>, DecodeError>)
    ensures r.Success? ==>
      |r.value| == |c.commands| &&
      forall i :: 0 <= i < |c.commands| ==> Dispatch(c.commands[i]) == Success(r.value[i])
    ensures r.Failure? ==>
      exists i :: 0 <= i < |c.commands| && Dispatch(c.commands[i]) == Failure(r.error) &&
        forall j :: 0 <= j < i ==> Dispatch(c.commands[j]).Success?
  {
    var commands: seq<Command> := [];
    var n := 0;
    while n < |c.commands|
      invariant n <= |c.commands| && |commands| == n
      invariant forall i :: 0 <= i < n ==> Dispatch(c.commands[i]) == Success(commands[i])
    {
      var cmd := c.commands[n];
      if cmd.kind == UploadType {
        match cmd.asUpload {
          case Failure(e) =>
            assert Dispatch(c.commands[n]) == Failure(e);
            return Failure(e);
          case Success(u) =>
            commands := commands + [RunUpload(u)];
        }
      } else {
        match cmd.asBash {
          case Failure(e) =>
            assert Dispatch(c.commands[n]) == Failure(e);
            return Failure(e);
          case Success(b) =>
            commands := commands + [RunBash(b)];
        }
      }
      n := n + 1;
    }
    return Success(commands);
  }

  /** `Config.ParseClient` without the SSH handshake: the run-time host and
      the login it uses. The host's password and the login's password are
      the same one. */
  function ParseClient(c: Config, h: HostConfig): (r: (Host, ClientConfig))
    ensures r.0.password == r.1.password
    ensures r.0.address == GetAddr(h).0
    ensures r.0.variables == AddGlobalVariables(h.variables, c.global.variables)
    ensures (r.1.user, r.1.password) ==
      if h.username == [] then (c.global.username, c.global.password) else (h.username, h.password)
  {
    (Host(GetAddr(h).0, GetPassword(h, c.global), AddGlobalVariables(h.variables, c.global.variables)),
     ClientConfig(GetUsername(h, c.global), GetPassword(h, c.global)))
  }

  /** In a parsed host's commands a placeholder names the host's own value
      when it has one, and the global value otherwise. */
  lemma ParsedHostTemplates(c: Config, h: HostConfig, k: Bytes)
    requires PlainKey(k)
    ensures k in Entries(h.variables) ==>
      Template(ParseClient(c, h).0.variables, "{{" + k + "}}") == Success(Entries(h.variables)[k])
    ensures k !in Entries(h.variables) && k in Entries(c.global.variables) ==>
      Template(ParseClient(c, h).0.variables, "{{" + k + "}}") == Success(Entries(c.global.variables)[k])
    ensures k !in Entries(h.variables) && k !in Entries(c.global.variables) ==>
      Template(ParseClient(c, h).0.variables, "{{" + k + "}}") == Failure(MissingKey(k))
  {
    var vars := ParseClient(c, h).0.variables;
    var e: Bytes := [];
    TemplatePlaceholder(vars, k, e);
    assert "{{" + k + "}}" + e == "{{" + k + "}}";
    if k in vars {
      assert Template(vars, e) == Success([]);
      assert vars[k] + [] == vars[k];
    }
  }
}
