/** `format_config`: turns a connection descriptor or an option hash into a
    complete option hash. The descriptor comes from a String argument, else
    from the hash's `:ooor_url`, else from the `OOOR_URL` environment
    variable; its parsed fields overwrite the hash's, and the result is laid
    over a defaults hash built from constants and the environment. */
module ConfigResolver {
  import opened Values
  import opened RubyText
  import opened ConnectionString

  /** The process environment, by variable name. */
  type Env = map<string, string>

  /** What `format_config` is given: a connection descriptor or an option
      hash. */
  datatype ConfigArg = StringArg(cs: string) | HashArg(h: Hash)

  /** The descriptor that is parsed, if any: the String argument, else a
      truthy `:ooor_url`, else `OOOR_URL` when it is set. */
  function DescriptorSource(arg: ConfigArg, env: Env): Option<Value> {
    match arg
    case StringArg(cs) => Some(Str(cs))
    case HashArg(h) =>
      if Truthy(Get(h, "ooor_url")) then Some(Get(h, "ooor_url"))
      else if "OOOR_URL" in env then Some(Str(env["OOOR_URL"]))
      else None
  }

  /** `parse_connection_string(cs)` for any object: a Symbol has
      `start_with?` but neither `index` nor `sub!`, and no other object that
      is not a String has `start_with?`. */
  function ParseValue(v: Value): (r: Result<Hash>)
    ensures v.Str? ==> r == ParseConnectionString(v.s)
    ensures !v.Str? ==> r.Raise? && r.error.NoMethodOnNonString?
  {
    match v
    case Str(s) => ParseConnectionString(s)
    case Sym(name) =>
      Raise(NoMethodOnNonString(if StartsWith(name, "ooor://") then "index" else "sub!"))
    case _ => Raise(NoMethodOnNonString("start_with?"))
  }

  /** The hash the parsed fields are merged into: a new empty hash for a
      String argument, the given hash otherwise. */
  function Base(arg: ConfigArg): Hash {
    match arg
    case StringArg(_) => map[]
    case HashArg(h) => h
  }

  /** The defaults: the local url and `admin`, then `OOOR_PASSWORD`,
      `OOOR_USERNAME` and `OOOR_DATABASE` where set. */
  function Defaults(env: Env): Hash {
    var d0 := map["url" := Str("http://localhost:8069"), "username" := Str("admin")];
    var d1 := if "OOOR_PASSWORD" in env then d0["password" := Str(env["OOOR_PASSWORD"])] else d0;
    var d2 := if "OOOR_USERNAME" in env then d1["username" := Str(env["OOOR_USERNAME"])] else d1;
    if "OOOR_DATABASE" in env then d2["database" := Str(env["OOOR_DATABASE"])] else d2
  }

  /** The option hash before the defaults are laid under it. */
  function Merged(arg: ConfigArg, env: Env): Result<Hash> {
    var src := DescriptorSource(arg, env);
    if src.None? then Ok(Base(arg))
    else match ParseValue(src.value)
      case Raise(e) => Raise(e)
      case Ok(parsed) => Ok(Base(arg) + parsed)
  }

  /** `format_config` for anything but a `.yml` file name. Whenever it
      returns, the result has a `:url` and a `:username`. */
  function FormatConfig(arg: ConfigArg, env: Env): (r: Result<Hash>)
    requires arg.StringArg? ==> !EndsWith(arg.cs, ".yml")
    ensures r.Ok? ==> "url" in r.value && "username" in r.value
    ensures r.Raise? <==> Merged(arg, env).Raise?
  {
    var merged := Merged(arg, env);
    if merged.Raise? then Raise(merged.error)
    else
      DefaultsHaveUrlAndUsername(env);
      Ok(Defaults(env) + merged.value)
  }

  lemma DefaultsHaveUrlAndUsername(env: Env)
    ensures "url" in Defaults(env) && "username" in Defaults(env)
  {
  }

  // ---- Lemmas --------------------------------------------------------------

  /** The defaults hold exactly `url`, `username` and the variables that are
      set, and `OOOR_USERNAME` replaces `admin`. */
  lemma DefaultsContents(env: Env)
    ensures var d := Defaults(env);
      && d.Keys == {"url", "username"}
                   + (if "OOOR_PASSWORD" in env then {"password"} else {})
                   + (if "OOOR_DATABASE" in env then {"database"} else {})
      && d["url"] == Str("http://localhost:8069")
      && d["username"] == Str(if "OOOR_USERNAME" in env then env["OOOR_USERNAME"] else "admin")
      && ("password" in d ==> d["password"] == Str(env["OOOR_PASSWORD"]))
      && ("database" in d ==> d["database"] == Str(env["OOOR_DATABASE"]))
  {
  }

  /** Every key of the option hash, including the parsed ones, keeps its
      value; a default fills only a key the option hash lacks. */
  lemma ConfigOverDefaults(arg: ConfigArg, env: Env)
    requires arg.StringArg? ==> !EndsWith(arg.cs, ".yml")
    requires FormatConfig(arg, env).Ok?
    ensures var r := FormatConfig(arg, env).value;
            var m := Merged(arg, env).value;
      && r.Keys == Defaults(env).Keys + m.Keys
      && (forall k | k in m :: r[k] == m[k])
      && (forall k | k in Defaults(env) && k !in m :: r[k] == Defaults(env)[k])
  {
  }

  /** The parsed fields overwrite the keys of the given hash; the keys the
      parser did not produce keep the hash's values. */
  lemma ParsedOverwrites(arg: ConfigArg, env: Env)
    requires arg.StringArg? ==> !EndsWith(arg.cs, ".yml")
    requires DescriptorSource(arg, env).Some?
    requires ParseValue(DescriptorSource(arg, env).value).Ok?
    ensures FormatConfig(arg, env).Ok?
    ensures var r := FormatConfig(arg, env).value;
            var parsed := ParseValue(DescriptorSource(arg, env).value).value;
      && (forall k | k in parsed :: r[k] == parsed[k])
      && (forall k | k in Base(arg) && k !in parsed :: r[k] == Base(arg)[k])
  {
  }

  /** For a descriptor string, `url` and `username` always come from the
      parser; `database` and `password` come from the parser when it found
      them and from the environment otherwise. */
  lemma DescriptorResult(cs: string, env: Env)
    requires !EndsWith(cs, ".yml")
    requires ParseDescriptor(cs).Ok?
    ensures FormatConfig(StringArg(cs), env).Ok?
    ensures var r := FormatConfig(StringArg(cs), env).value;
            var d := ParseDescriptor(cs).value;
      && r["url"] == Str(Url(d))
      && r["username"] == Str(d.username)
      && ("database" in r <==> d.database.Some? || "OOOR_DATABASE" in env)
      && ("database" in r ==>
            r["database"] == Str(if d.database.Some? then d.database.value else env["OOOR_DATABASE"]))
      && ("password" in r <==> d.password.Some? || "OOOR_PASSWORD" in env)
      && ("password" in r ==>
            r["password"] == Str(if d.password.Some? then d.password.value else env["OOOR_PASSWORD"]))
  {
    OutputShape(cs);
    DefaultsContents(env);
  }

  /** `OOOR_URL` is consulted only when there is neither a String argument
      nor a truthy `:ooor_url`: otherwise changing it changes nothing. */
  lemma OoorUrlLastResort(arg: ConfigArg, env: Env, url: string)
    requires arg.StringArg? ==> !EndsWith(arg.cs, ".yml")
    requires arg.StringArg? || Truthy(Get(arg.h, "ooor_url"))
    ensures FormatConfig(arg, env["OOOR_URL" := url]) == FormatConfig(arg, env)
  {
    var env' := env["OOOR_URL" := url];
    assert DescriptorSource(arg, env') == DescriptorSource(arg, env);
    assert Merged(arg, env') == Merged(arg, env);
    DefaultsIgnoreOoorUrl(env, url);
  }

  lemma DefaultsIgnoreOoorUrl(env: Env, url: string)
    ensures Defaults(env["OOOR_URL" := url]) == Defaults(env)
  {
    var env' := env["OOOR_URL" := url];
    assert forall k | k != "OOOR_URL" :: (k in env' <==> k in env) && (k in env ==> env'[k] == env[k]);
  }

  /** With neither a String argument nor a truthy `:ooor_url`, `OOOR_URL` is
      what gets parsed. */
  lemma OoorUrlUsed(h: Hash, env: Env)
    requires !Truthy(Get(h, "ooor_url")) && "OOOR_URL" in env
    requires ParseDescriptor(env["OOOR_URL"]).Ok?
    ensures FormatConfig(HashArg(h), env).Ok?
    ensures FormatConfig(HashArg(h), env).value["url"] == Str(Url(ParseDescriptor(env["OOOR_URL"]).value))
  {
    OutputShape(env["OOOR_URL"]);
  }

  /** An empty hash and no environment give exactly the built-in defaults. */
  lemma EmptyConfig()
    ensures FormatConfig(HashArg(map[]), map[]) ==
            Ok(map["url" := Str("http://localhost:8069"), "username" := Str("admin")])
  {
    var e: Env := map[];
    var h: Hash := map[];
    assert !Truthy(Get(h, "ooor_url"));
    assert Merged(HashArg(h), e) == Ok(h);
    assert Defaults(e) + h == Defaults(e);
  }

  /** It raises exactly when the chosen descriptor is not a String or the
      parser raises on it. */
  lemma FormatConfigRaises(arg: ConfigArg, env: Env)
    requires arg.StringArg? ==> !EndsWith(arg.cs, ".yml")
    ensures FormatConfig(arg, env).Raise? <==>
      var src := DescriptorSource(arg, env);
      src.Some? && (!src.value.Str? || ParseDescriptor(src.value.s).Raise?)
  {
    var src := DescriptorSource(arg, env);
    if src.Some? && src.value.Str? {
      OutputShape(src.value.s);
    }
  }
}
