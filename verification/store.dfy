/** The `Config` record of lib/config.js: six key/value tiers, the positional
    argument list and the passthrough list, with `get`, `has`, `set` and `inject`. */
module Store {
  import opened Wrappers
  import opened Text
  import opened Keys

  /** A configuration value. Parsers only ever store strings; injected options
      may carry any JavaScript value, of which the accessors distinguish
      strings, integral numbers, other numbers (fractions, NaN, infinities),
      booleans, arrays and everything else. */
  datatype Value =
    | Str(s: string)
    | Num(n: int)
    | NonInteger
    | Flag(b: bool)
    | List(items: seq<Value>)
    | Object

  /** What `get` accepts: an option name, a positional index (the source asserts
      it is not negative), or a list of candidate keys tried in order. */
  datatype Key = Name(name: string) | Index(i: nat) | Candidates(keys: seq<Key>)

  /** The tiers, from highest to lowest precedence. */
  datatype Tier = Hash | Query | Args | Env | Data | Options

  function Rank(t: Tier): nat {
    match t
    case Hash => 0
    case Query => 1
    case Args => 2
    case Env => 3
    case Data => 4
    case Options => 5
  }

  datatype ConfigError =
    | KeyNotString                       // `has` given a list of keys
    | MustBe(key: Key, kind: string)     // a typed accessor met a value of the wrong shape
    | BadNetwork                         // the `network` option is not lower-case alphanumeric
    | Expected(symbol: char, line: nat)  // config file: missing or inconsistent separator
    | InvalidOption(line: nat, option: string)
    | InvalidArgument(arg: string)

  datatype Config = Config(
    moduleName: string,
    network: string,
    hash: map<string, string>,
    query: map<string, string>,
    args: map<string, string>,
    env: map<string, string>,
    data: map<string, string>,
    options: map<string, Value>,
    argv: seq<string>,
    pass: seq<string>)

  /** `new Config(module)` (the prefix directory is not modelled). */
  function Create(moduleName: string): (c: Config)
    requires |moduleName| > 0
    ensures c.moduleName == moduleName && c.network == "mainnet"
    ensures forall t: Tier, k :: TierValue(c, t, k).None?
    ensures c.argv == [] && c.pass == []
  {
    Config(moduleName, "mainnet", map[], map[], map[], map[], map[], map[], [], [])
  }

  function StrAt(m: map<string, string>, k: string): Option<Value> {
    if k in m then Some(Str(m[k])) else None
  }

  /** The value tier `t` holds for the already-canonical key `k`. */
  function TierValue(c: Config, t: Tier, k: string): Option<Value> {
    match t
    case Hash => StrAt(c.hash, k)
    case Query => StrAt(c.query, k)
    case Args => StrAt(c.args, k)
    case Env => StrAt(c.env, k)
    case Data => StrAt(c.data, k)
    case Options => if k in c.options then Some(c.options[k]) else None
  }

  /** The six `if (this.<tier>[key] != null)` tests of `get`, in order. */
  function Lookup(c: Config, k: string): (r: Option<Value>)
    ensures r.None? <==> forall t: Tier :: TierValue(c, t, k).None?
    ensures r.Some? ==> exists t: Tier ::
      && r == TierValue(c, t, k)
      && forall u: Tier :: Rank(u) < Rank(t) ==> TierValue(c, u, k).None?
  {
    if k in c.hash then
      assert TierValue(c, Hash, k).Some?;
      Some(Str(c.hash[k]))
    else if k in c.query then
      assert TierValue(c, Query, k).Some?;
      Some(Str(c.query[k]))
    else if k in c.args then
      assert TierValue(c, Args, k).Some?;
      Some(Str(c.args[k]))
    else if k in c.env then
      assert TierValue(c, Env, k).Some?;
      Some(Str(c.env[k]))
    else if k in c.data then
      assert TierValue(c, Data, k).Some?;
      Some(Str(c.data[k]))
    else if k in c.options then
      assert TierValue(c, Options, k).Some?;
      Some(c.options[k])
    else None
  }

  /** `config.get(key, fallback)`: nothing only when the fallback is nothing
      and the name is in no tier, or the index is past the positional
      arguments. */
  function Get(c: Config, key: Key, fallback: Option<Value>): (r: Option<Value>)
    ensures r.None? ==> fallback.None?
    ensures key.Name? ==> (r.None? <==> fallback.None? && forall t: Tier :: TierValue(c, t, Canon(key.name)).None?)
    ensures key.Index? ==> (r.None? <==> fallback.None? && key.i >= |c.argv|)
    ensures key.Index? && key.i < |c.argv| ==> r == Some(Str(c.argv[key.i]))
    ensures key.Index? && key.i >= |c.argv| ==> r == fallback
    decreases key, 1
  {
    match key
    case Name(n) => if Lookup(c, Canon(n)).Some? then Lookup(c, Canon(n)) else fallback
    case Index(i) => if i < |c.argv| then Some(Str(c.argv[i])) else fallback
    case Candidates(ks) => FirstResolved(c, ks, 0, fallback)
  }

  /** The loop of `get` over a list of candidate keys, from position `i`. */
  function FirstResolved(c: Config, ks: seq<Key>, i: nat, fallback: Option<Value>): (r: Option<Value>)
    requires i <= |ks|
    ensures r.None? ==> fallback.None?
    decreases Candidates(ks), 0, |ks| - i
  {
    if i == |ks| then fallback
    else
      var v := Get(c, ks[i], None);
      if v.Some? then v else FirstResolved(c, ks, i + 1, fallback)
  }

  /** `config.has(key)`; the source asserts a list is not passed. A name is
      present exactly when some tier holds its canonical key. */
  function Has(c: Config, key: Key): (r: Result<bool, ConfigError>)
    ensures r.Err? <==> key.Candidates?
    ensures key.Name? ==> (r == Ok(true) <==> exists t: Tier :: TierValue(c, t, Canon(key.name)).Some?)
  {
    match key
    case Name(n) => Ok(Lookup(c, Canon(n)).Some?)
    case Index(i) => Ok(i < |c.argv|)
    case Candidates(_) => Err(KeyNotString)
  }

  /** The highest-precedence tier holding the canonical key wins; with no tier
      holding it the fallback is returned. */
  lemma GetPrecedence(c: Config, name: string, fallback: Option<Value>, t: Tier)
    requires TierValue(c, t, Canon(name)).Some?
    requires forall u: Tier :: Rank(u) < Rank(t) ==> TierValue(c, u, Canon(name)).None?
    ensures Get(c, Name(name), fallback) == TierValue(c, t, Canon(name))
  {
    var r := Lookup(c, Canon(name));
    var t' :| r == TierValue(c, t', Canon(name))
      && forall u: Tier :: Rank(u) < Rank(t') ==> TierValue(c, u, Canon(name)).None?;
    assert t == t';
  }

  lemma GetFallback(c: Config, name: string, fallback: Option<Value>)
    requires forall t: Tier :: TierValue(c, t, Canon(name)).None?
    ensures Get(c, Name(name), fallback) == fallback
  {
  }

  /** Two names with the same canonical form resolve identically, in `get` and `has`. */
  lemma GetCanonical(c: Config, a: string, b: string, fallback: Option<Value>)
    requires Canon(a) == Canon(b)
    ensures Get(c, Name(a), fallback) == Get(c, Name(b), fallback)
    ensures Has(c, Name(a)) == Has(c, Name(b))
  {
  }

  /** `has` is true exactly when `get` without a fallback yields a value. */
  lemma HasIffGet(c: Config, key: Key)
    requires !key.Candidates?
    ensures Has(c, key) == Ok(Get(c, key, None).Some?)
  {
  }

  /** A list of keys yields the first candidate that resolves. */
  lemma {:induction false} GetCandidates(c: Config, ks: seq<Key>, i: nat, j: nat, fallback: Option<Value>)
    requires i <= j < |ks| && Get(c, ks[j], None).Some?
    requires forall h :: i <= h < j ==> Get(c, ks[h], None).None?
    ensures FirstResolved(c, ks, i, fallback) == Get(c, ks[j], None)
    decreases j - i
  {
    if i < j {
      GetCandidates(c, ks, i + 1, j, fallback);
    }
  }

  /** A list of keys none of which resolves yields the fallback. */
  lemma {:induction false} GetCandidatesNone(c: Config, ks: seq<Key>, i: nat, fallback: Option<Value>)
    requires i <= |ks|
    requires forall j :: i <= j < |ks| ==> Get(c, ks[j], None).None?
    ensures FirstResolved(c, ks, i, fallback) == fallback
    decreases |ks| - i
  {
    if i < |ks| {
      GetCandidatesNone(c, ks, i + 1, fallback);
    }
  }

  /** `config.set(key, value)`: a present value lands in the options tier under the
      canonical key; an absent one changes nothing. */
  function Set(c: Config, key: string, value: Option<Value>): (r: Config)
    ensures value.None? ==> r == c
    ensures value.Some? ==> r.options == c.options[Canon(key) := value.value]
    ensures r.(options := c.options) == c
  {
    if value.None? then c
    else c.(options := c.options[Canon(key) := value.value])
  }

  /** After `set`, `get` sees the new value unless a higher tier holds the key. */
  lemma SetThenGet(c: Config, key: string, v: Value, fallback: Option<Value>)
    requires forall t: Tier :: t != Options ==> TierValue(c, t, Canon(key)).None?
    ensures Get(Set(c, key, Some(v)), Name(key), fallback) == Some(v)
  {
    var c' := Set(c, key, Some(v));
    assert forall t: Tier :: t != Options ==> TierValue(c', t, Canon(key)) == TierValue(c, t, Canon(key));
  }

  /** `set` never changes what `get` returns for a key a higher tier holds. */
  lemma SetShadowed(c: Config, key: string, v: Option<Value>, name: string, fallback: Option<Value>)
    requires exists t: Tier :: t != Options && TierValue(c, t, Canon(name)).Some?
    ensures Get(Set(c, key, v), Name(name), fallback) == Get(c, Name(name), fallback)
  {
    var k := Canon(name);
    var t :| t != Options && TierValue(c, t, k).Some?;
    LookupAboveOptions(c, Set(c, key, v), k, t);
  }

  /** Two configurations agreeing on the five string tiers resolve alike a key
      one of those tiers holds. */
  lemma LookupAboveOptions(c: Config, c': Config, k: string, t: Tier)
    requires c'.hash == c.hash && c'.query == c.query && c'.args == c.args
    requires c'.env == c.env && c'.data == c.data
    requires t != Options && TierValue(c, t, k).Some?
    ensures Lookup(c', k) == Lookup(c, k)
  {
    assert k in c.hash || k in c.query || k in c.args || k in c.env || k in c.data;
  }

  /** The option names `inject` routes elsewhere instead of storing. */
  predicate IsMetaKey(k: string) {
    k == "hash" || k == "query" || k == "env" || k == "argv" || k == "config"
  }

  /** `config.inject(options)`: `set` for every own property except the five
      meta keys (compared before canonicalisation); only the options tier
      changes, no key leaves it, and every stored entry's key is in it after. */
  function Inject(c: Config, opts: seq<(string, Option<Value>)>): (r: Config)
    ensures r.(options := c.options) == c
    ensures c.options.Keys <= r.options.Keys
    ensures forall p :: p in opts && Stored(p) ==> Canon(p.0) in r.options
    decreases |opts|
  {
    if opts == [] then c
    else
      var c' := if IsMetaKey(opts[0].0) then c else Set(c, opts[0].0, opts[0].1);
      Inject(c', opts[1..])
  }

  /** An `inject` entry that reaches `set` with a value. */
  predicate Stored(p: (string, Option<Value>)) {
    !IsMetaKey(p.0) && p.1.Some?
  }

  /** The writes `inject` performs, in order: canonical key and value of every
      stored entry. */
  function StoredWrites(opts: seq<(string, Option<Value>)>): (r: seq<(string, Value)>)
    ensures |r| <= |opts|
  {
    if opts == [] then []
    else (if Stored(opts[0]) then [(Canon(opts[0].0), opts[0].1.value)] else []) + StoredWrites(opts[1..])
  }

  /** `inject` writes exactly the stored entries into the options tier, in order,
      and touches no other tier; with `AssignSpec` this says the last stored entry
      for a canonical key supplies its value and meta keys are never stored. */
  lemma {:induction false} InjectSpec(c: Config, opts: seq<(string, Option<Value>)>)
    ensures Inject(c, opts) == c.(options := Assign(c.options, StoredWrites(opts)))
    decreases |opts|
  {
    if opts != [] {
      var c' := if IsMetaKey(opts[0].0) then c else Set(c, opts[0].0, opts[0].1);
      InjectSpec(c', opts[1..]);
      var head := if Stored(opts[0]) then [(Canon(opts[0].0), opts[0].1.value)] else [];
      AssignAppend(c.options, head, StoredWrites(opts[1..]));
      assert c'.options == Assign(c.options, head);
    }
  }

  /** Writing a sequence of key/value pairs into a tier in order, each write
      replacing any earlier one: what every parser does with its tier. */
  function Assign<V>(m: map<string, V>, ps: seq<(string, V)>): map<string, V>
  {
    if ps == [] then m
    else Assign(m, ps[..|ps| - 1])[ps[|ps| - 1].0 := ps[|ps| - 1].1]
  }

  /** Later writes win: a key is present after `Assign` exactly when it was
      before or some pair writes it, and then holds the last pair's value. */
  lemma {:induction false} AssignSpec<V>(m: map<string, V>, ps: seq<(string, V)>, k: string)
    ensures k in Assign(m, ps) <==> k in m || exists i :: 0 <= i < |ps| && ps[i].0 == k
    ensures forall i ::
      (0 <= i < |ps| && ps[i].0 == k && (forall j :: i < j < |ps| ==> ps[j].0 != k)) ==>
      Assign(m, ps)[k] == ps[i].1
    ensures (forall i :: 0 <= i < |ps| ==> ps[i].0 != k) && k in m ==> Assign(m, ps)[k] == m[k]
  {
    if ps != [] {
      var n := |ps| - 1;
      AssignSpec(m, ps[..n], k);
      assert forall i :: 0 <= i < n ==> ps[..n][i] == ps[i];
    }
  }

  lemma {:induction false} AssignAppend<V>(m: map<string, V>, ps: seq<(string, V)>, qs: seq<(string, V)>)
    ensures Assign(m, ps + qs) == Assign(Assign(m, ps), qs)
    decreases |qs|
  {
    if qs != [] {
      var n := |qs| - 1;
      assert (ps + qs)[..|ps + qs| - 1] == ps + qs[..n];
      AssignAppend(m, ps, qs[..n]);
    } else {
      assert ps + qs == ps;
    }
  }
}
