/** `Config.load` of lib/config.js: the four parsers in a fixed order, then the
    network. */
module Loading {
  import opened Wrappers
  import opened Text
  import opened Keys
  import opened Store
  import opened Accessors
  import Args
  import Env
  import Form

  /** The parts of `load`'s options object it reads; `None` where the property
      is absent. */
  datatype LoadOptions = LoadOptions(
    hash: Option<string>,
    query: Option<string>,
    env: Option<seq<(string, string)>>,
    argv: Option<seq<string>>)

  /** `config.load(options)`: hash, query, environment, then arguments (each only
      when given, and a form string only when non-empty), then `getNetwork`, then
      the `str('prefix')` read of `getPrefix`. The loaded network is the one its
      own option names, and the prefix option is a string or absent. */
  function Load(c: Config, o: LoadOptions, decode: string -> Option<string>): (r: Result<Config, ConfigError>)
    ensures r.Ok? ==> IsAlpha(r.value.network) && Network(r.value) == Ok(r.value.network)
    ensures r.Ok? ==> Accessors.Str(r.value, Name("prefix"), None).Ok?
    ensures o.argv.None? ==> r.Ok? || r.error == BadNetwork || r.error.MustBe?
  {
    var c1 := if o.hash.Some? && o.hash.value != [] then Form.ParseForm(c, o.hash.value, Form.HashForm, decode) else c;
    var c2 := if o.query.Some? && o.query.value != [] then Form.ParseForm(c1, o.query.value, Form.QueryForm, decode) else c1;
    var c3 := if o.env.Some? then Env.ParseEnv(c2, o.env.value) else c2;
    var c4 :- if o.argv.Some? then Args.ParseArg(c3, o.argv.value) else Ok(c3);
    Finish(c4)
  }

  /** The end of `load` on the parsed configuration: `getNetwork`, then the
      `str('prefix')` read of `getPrefix`. */
  function Finish(c: Config): (r: Result<Config, ConfigError>)
    ensures r.Ok? ==> IsAlpha(r.value.network) && Network(r.value) == Ok(r.value.network)
    ensures r.Ok? ==> Accessors.Str(r.value, Name("prefix"), None).Ok?
    ensures r.Ok? <==> Network(c).Ok? && Accessors.Str(c, Name("prefix"), None).Ok?
    ensures r.Err? ==> r.error == BadNetwork || r.error.MustBe?
  {
    var network :- Network(c);
    var _ :- Accessors.Str(c, Name("prefix"), None);
    NetworkFieldIgnored(c, network);
    Ok(c.(network := network))
  }

  /** The lookups read only the tiers, never the stored network name. */
  lemma NetworkFieldIgnored(c: Config, network: string)
    ensures Network(c.(network := network)) == Network(c)
    ensures Accessors.Str(c.(network := network), Name("prefix"), None) == Accessors.Str(c, Name("prefix"), None)
  {
    var c' := c.(network := network);
    GetReadsTiers(c, c', "network");
    GetReadsTiers(c, c', "prefix");
  }

  lemma GetReadsTiers(c: Config, c': Config, n: string)
    requires c'.hash == c.hash && c'.query == c.query && c'.args == c.args
    requires c'.env == c.env && c'.data == c.data && c'.options == c.options
    ensures Get(c', Name(n), None) == Get(c, Name(n), None)
  {
    assert Lookup(c', Canon(n)) == Lookup(c, Canon(n));
  }

  /** Every tier but the options holds strings, so `str('prefix')` can only fail
      on an injected non-string. */
  lemma PrefixString(c: Config)
    requires "prefix" !in c.options || c.options["prefix"].Str?
    ensures Accessors.Str(c, Name("prefix"), None).Ok?
  {
    assert IsLowerKey("prefix");
    CanonOfLowerKey("prefix");
    var v := Lookup(c, "prefix");
    assert Get(c, Name("prefix"), None) == v;
    assert v.Some? ==> v.value.Str? by {
      if "prefix" !in c.hash && "prefix" !in c.query && "prefix" !in c.args
        && "prefix" !in c.env && "prefix" !in c.data {
        assert v == (if "prefix" in c.options then Some(c.options["prefix"]) else None);
      }
    }
  }

  lemma SingleInline(key: string, value: string)
    requires IsLowerKey(key) && value != []
    ensures Args.Fold(["--" + key + "=" + value], Args.Start) ==
      Ok(Args.Start.(writes := [(AliasedLong(key), value)]))
  {
    var arg := "--" + key + "=" + value;
    Args.LowerKeyChars(key);
    Args.InlineLongParts(key, value);
    var k := AliasedLong(key);
    var st1 := Args.Start.(writes := [(k, value)]);
    assert arg != "--" && arg != [];
    assert Args.Step(Args.Start, arg) == Args.Long(arg, Args.Start);
    assert Args.Start.writes + [(k, value)] == [(k, value)];
    var none: seq<string> := [];
    assert [arg][1..] == none;
  }

  /** A command line `--key=value` puts the value in the argument tier under the
      aliased key. */
  lemma ArgWrite(c: Config, p: string, s: string, key: string, value: string)
    requires IsLowerKey(key) && value != []
    ensures Args.ParseArg(c, [p, s, "--" + key + "=" + value]) ==
      Ok(c.(args := c.args[AliasedLong(key) := value]))
  {
    var argv := [p, s, "--" + key + "=" + value];
    assert Args.Tokens(argv) == ["--" + key + "=" + value];
    SingleInline(key, value);
    var ws := [(AliasedLong(key), value)];
    var st := Args.Start.(writes := ws);
    assert Args.Fold(Args.Tokens(argv), Args.Start) == Ok(st);
    assert Assign(c.args, ws) == c.args[AliasedLong(key) := value] by {
      assert ws[..0] == [];
    }
    assert c.argv + st.positional == c.argv && c.pass + st.pass == c.pass;
  }

  lemma NetworkFromArgs(c: Config, network: string)
    requires IsAlpha(network)
    requires "network" !in c.hash && "network" !in c.query
    requires "network" in c.args && c.args["network"] == network
    ensures Network(c) == Ok(network)
  {
    assert IsLowerKey("network");
    ArgsTierWins(c, "network");
  }

  /** A lower-case key that only the argument tier and lower tiers hold is read
      from the argument tier. */
  lemma ArgsTierWins(c: Config, k: string)
    requires IsLowerKey(k)
    requires k !in c.hash && k !in c.query && k in c.args
    ensures Get(c, Name(k), None) == Some(Str(c.args[k]))
  {
    CanonOfLowerKey(k);
  }

  /** A command-line network overrides the environment, the configuration file
      and injected options: only a hash or query entry could hide it. */
  lemma CliNetworkWins(c: Config, p: string, s: string, network: string, env: Option<seq<(string, string)>>,
                       decode: string -> Option<string>)
    requires IsAlpha(network)
    requires "network" !in c.hash && "network" !in c.query
    requires "prefix" !in c.options || c.options["prefix"].Str?
    ensures var r := Load(c, LoadOptions(None, None, env, Some([p, s, "--network=" + network])), decode);
      r.Ok? && r.value.network == network
  {
    var argv := [p, s, "--network=" + network];
    var c3 := if env.Some? then Env.ParseEnv(c, env.value) else c;
    assert c3.hash == c.hash && c3.query == c.query;
    NetworkArgument(c3, p, s, network);
    PrefixString(Args.ParseArg(c3, argv).value);
    LoadArgvOnly(c, env, argv, decode);
  }

  /** `load` with no forms and an argument vector: the environment, then the
      arguments, then the network. */
  lemma LoadArgvOnly(c: Config, env: Option<seq<(string, string)>>, argv: seq<string>, decode: string -> Option<string>)
    ensures var r := Args.ParseArg(if env.Some? then Env.ParseEnv(c, env.value) else c, argv);
      r.Ok? && Network(r.value).Ok? && Accessors.Str(r.value, Name("prefix"), None).Ok? ==>
        Load(c, LoadOptions(None, None, env, Some(argv)), decode) == Ok(r.value.(network := Network(r.value).value))
  {
  }

  lemma NetworkArgument(c: Config, p: string, s: string, network: string)
    requires IsAlpha(network)
    requires "network" !in c.hash && "network" !in c.query
    ensures var r := Args.ParseArg(c, [p, s, "--network=" + network]);
      r.Ok? && Network(r.value) == Ok(network)
  {
    assert IsLowerKey("network") && AliasedLong("network") == "network";
    assert "--network=" + network == "--" + "network" + "=" + network;
    ArgWrite(c, p, s, "network", network);
    NetworkFromArgs(c.(args := c.args["network" := network]), network);
  }

  /** `--seed=…` on the command line is read back as `seeds`. */
  lemma SeedAlias(c: Config, p: string, s: string, addr: string)
    requires addr != []
    ensures Args.ParseArg(c, [p, s, "--seed=" + addr]) == Ok(c.(args := c.args["seeds" := addr]))
  {
    assert IsLowerKey("seed") && AliasedLong("seed") == "seeds";
    assert "--seed=" + addr == "--" + "seed" + "=" + addr;
    ArgWrite(c, p, s, "seed", addr);
  }

}
