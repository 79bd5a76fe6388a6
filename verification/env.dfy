/** `Config.parseEnv` of lib/config.js: `<MODULE>_<KEY>` environment variables. */
module Env {
  import opened Wrappers
  import opened Text
  import opened Keys
  import opened Store

  /** The variable-name prefix: the module name upper-cased, hyphens turned
      into underscores, and a final underscore. */
  function Prefix(moduleName: string): (r: string)
    ensures |r| == |moduleName| + 1 && r[|moduleName|] == '_'
    ensures '-' !in r
    ensures forall i :: 0 <= i < |moduleName| ==>
      r[i] == (if moduleName[i] == '-' then '_' else UpperChar(moduleName[i]))
  {
    ReplaceChar(Upper(moduleName), '-', '_') + "_"
  }

  /** What one variable contributes: nothing unless its name carries the prefix,
      the rest without underscores is an upper-case key, and its value is not
      empty; then the lower-cased, aliased key (no alias for one character). */
  function EnvWrite(prefix: string, name: string, value: string): (r: Option<(string, string)>)
    ensures r.Some? ==> StartsWith(name, prefix) && r.value.1 == value && value != []
  {
    if !StartsWith(name, prefix) then None
    else
      var key := Remove(name[|prefix|..], '_');
      if !IsUpperKey(key) || value == [] then None
      else Some((AliasedLong(Lower(key)), value))
  }

  /** The writes of the variables in enumeration order. */
  function EnvWrites(prefix: string, env: seq<(string, string)>): seq<(string, string)> {
    if env == [] then []
    else
      var w := EnvWrite(prefix, env[0].0, env[0].1);
      (if w.Some? then [w.value] else []) + EnvWrites(prefix, env[1..])
  }

  /** `config.parseEnv(env)`. */
  function ParseEnv(c: Config, env: seq<(string, string)>): (r: Config)
    ensures r.(env := c.env) == c
  {
    c.(env := Assign(c.env, EnvWrites(Prefix(c.moduleName), env)))
  }

  /** A variable contributes exactly when it carries the prefix, the rest of
      its name without underscores is an upper-case key, and its value is not
      empty; it then writes its own value under that key lower-cased and
      aliased (one-character keys unaliased), which lookups reach unchanged. */
  lemma EnvWriteShape(prefix: string, name: string, value: string)
    ensures EnvWrite(prefix, name, value).Some? <==>
      StartsWith(name, prefix) && IsUpperKey(Remove(name[|prefix|..], '_')) && value != []
    ensures var w := EnvWrite(prefix, name, value);
      w.Some? ==>
        && StartsWith(name, prefix)
        && w.value.0 == AliasedLong(Lower(Remove(name[|prefix|..], '_')))
        && IsLowerKey(w.value.0) && Canon(w.value.0) == w.value.0 && w.value.1 == value
  {
    if StartsWith(name, prefix) {
      var key := Remove(name[|prefix|..], '_');
      if IsUpperKey(key) {
        LowerKeyIsAlpha(key);
        AliasedIsCanonical(Lower(key));
      }
    }
  }

  /** A variable whose name after the prefix holds a lower-case letter is
      ignored: with prefix `WMCC_`, `WMCC_logLevel` sets nothing. */
  lemma LowerCaseNameIgnored(prefix: string, rest: string, value: string, i: nat)
    requires i < |rest| && IsLowerLetter(rest[i])
    ensures EnvWrite(prefix, prefix + rest, value).None?
  {
    AfterPrefix(prefix, rest);
    RemoveKeeps(rest, '_', rest[i]);
  }

  /** Every write of `parseEnv` has a canonical lower-case key and a non-empty value. */
  lemma {:induction false} EnvWritesShape(prefix: string, env: seq<(string, string)>)
    ensures forall i :: 0 <= i < |EnvWrites(prefix, env)| ==>
      var w := EnvWrites(prefix, env)[i];
      IsLowerKey(w.0) && Canon(w.0) == w.0 && w.1 != []
  {
    if env != [] {
      EnvWriteShape(prefix, env[0].0, env[0].1);
      EnvWritesShape(prefix, env[1..]);
    }
  }

  lemma UpperOfLowerKey(k: string)
    requires IsLowerKey(k)
    ensures IsUpperKey(Upper(k)) && Lower(Upper(k)) == k && '_' !in Upper(k)
  {
    LowerOfUpper(k);
    LowerNoUpper(k);
    assert forall i :: 0 <= i < |k| ==> Upper(k)[i] != '_';
  }

  /** The variable named by the prefix and the upper-cased key is read back
      under that key (aliased when longer than one character). */
  lemma EnvRoundTrip(moduleName: string, key: string, value: string)
    requires IsLowerKey(key) && value != []
    ensures EnvWrite(Prefix(moduleName), Prefix(moduleName) + Upper(key), value) == Some((AliasedLong(key), value))
  {
    var p := Prefix(moduleName);
    var name := p + Upper(key);
    assert name[..|p|] == p && name[|p|..] == Upper(key);
    UpperOfLowerKey(key);
  }

  lemma RemoveUnderscore(a: string, b: string)
    ensures Remove(a + "_" + b, '_') == Remove(a + b, '_')
  {
    RemoveAppend(a + "_", b, '_');
    RemoveAppend(a, "_", '_');
    assert Remove("_", '_') == [];
    assert Remove(a + "_", '_') == Remove(a, '_');
    RemoveAppend(a, b, '_');
  }

  lemma AfterPrefix(prefix: string, rest: string)
    ensures StartsWith(prefix + rest, prefix) && (prefix + rest)[|prefix|..] == rest
  {
    assert (prefix + rest)[..|prefix|] == prefix;
  }

  /** Underscores after the prefix are ignored: `NODE_LOG_LEVEL` and
      `NODE_LOGLEVEL` are the same variable to the parser. */
  lemma EnvUnderscoreInsensitive(prefix: string, a: string, b: string, value: string)
    ensures EnvWrite(prefix, prefix + (a + "_" + b), value) == EnvWrite(prefix, prefix + (a + b), value)
  {
    AfterPrefix(prefix, a + "_" + b);
    AfterPrefix(prefix, a + b);
    RemoveUnderscore(a, b);
  }

  lemma {:induction false} EnvWritesAppend(prefix: string, env: seq<(string, string)>, name: string, value: string)
    ensures EnvWrites(prefix, env + [(name, value)]) ==
      EnvWrites(prefix, env) + (match EnvWrite(prefix, name, value) case Some(w) => [w] case None => [])
  {
    if env == [] {
      assert env + [(name, value)] == [(name, value)];
      assert [(name, value)][1..] == [];
    } else {
      var w := EnvWrite(prefix, env[0].0, env[0].1);
      var head: seq<(string, string)> := if w.Some? then [w.value] else [];
      var tail: seq<(string, string)> := match EnvWrite(prefix, name, value) case Some(x) => [x] case None => [];
      assert (env + [(name, value)])[0] == env[0];
      assert (env + [(name, value)])[1..] == env[1..] + [(name, value)];
      EnvWritesAppend(prefix, env[1..], name, value);
      assert EnvWrites(prefix, env + [(name, value)]) == head + (EnvWrites(prefix, env[1..]) + tail);
      assert head + (EnvWrites(prefix, env[1..]) + tail) == (head + EnvWrites(prefix, env[1..])) + tail;
    }
  }

  /** A variable outside the module's prefix, or with an empty value, leaves
      the configuration as it was; `parseEnv` writes only the environment tier. */
  lemma EnvIgnored(c: Config, env: seq<(string, string)>, name: string, value: string)
    requires !StartsWith(name, Prefix(c.moduleName)) || value == []
    ensures ParseEnv(c, env + [(name, value)]) == ParseEnv(c, env)
    ensures ParseEnv(c, env).(env := c.env) == c
  {
    EnvWritesAppend(Prefix(c.moduleName), env, name, value);
    var ws := EnvWrites(Prefix(c.moduleName), env);
    assert ws + [] == ws;
  }
}
