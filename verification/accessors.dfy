/** The typed accessors of lib/config.js: `str`, `int`, `uint`, `bool`, `array`,
    `mb`, and the `network` option check of `getNetwork`. Each reads `get(key)`
    without a fallback, returns the caller's fallback when nothing is set, and
    otherwise validates or converts the value, failing with an error naming the key. */
module Accessors {
  import opened Wrappers
  import opened Text
  import opened Keys
  import opened Store

  /** `Number.MAX_SAFE_INTEGER`. */
  const MaxSafe: int := 9007199254740991

  predicate IsSafe(n: int) {
    -MaxSafe <= n <= MaxSafe
  }

  /** `config.str(key, fallback)`. */
  function Str(c: Config, key: Key, fallback: Option<string>): (r: Result<Option<string>, ConfigError>)
    ensures Get(c, key, None).None? ==> r == Ok(fallback)
    ensures Get(c, key, None).Some? ==>
      (r.Ok? <==> Get(c, key, None).value.Str?)
      && (r.Ok? ==> r.value == Some(Get(c, key, None).value.s))
  {
    match Get(c, key, None)
    case None => Ok(fallback)
    case Some(v) => if v.Str? then Ok(Some(v.s)) else Err(MustBe(key, "a string"))
  }

  /** The shape `/^\-?\d+$/`. */
  predicate IsIntText(s: string) {
    (|s| >= 1 && AllDigits(s)) || (|s| >= 2 && s[0] == '-' && AllDigits(s[1..]))
  }

  /** `parseInt(s, 10)` on a string of that shape. */
  function IntTextValue(s: string): int
    requires IsIntText(s)
  {
    if s[0] == '-' then -(DigitsValue(s[1..]) as int) else DigitsValue(s)
  }

  /** `config.int(key, fallback)`: a decimal string or a number, either of which
      must be a safe integer. */
  function Int(c: Config, key: Key, fallback: Option<int>): (r: Result<Option<int>, ConfigError>)
    ensures Get(c, key, None).None? ==> r == Ok(fallback)
    ensures Get(c, key, None).Some? ==> (r.Ok? <==> IntLike(Get(c, key, None).value))
    ensures Get(c, key, None).Some? && r.Ok? ==> r.value.Some? && IsSafe(r.value.value)
    ensures forall n :: Get(c, key, None) == Some(Num(n)) && IsSafe(n) ==> r == Ok(Some(n))
    ensures forall s :: Get(c, key, None) == Some(Value.Str(s)) && IsIntText(s) && IsSafe(IntTextValue(s)) ==>
      r == Ok(Some(IntTextValue(s)))
  {
    match Get(c, key, None)
    case None => Ok(fallback)
    case Some(v) =>
      match v
      case Str(s) =>
        if IsIntText(s) && IsSafe(IntTextValue(s)) then Ok(Some(IntTextValue(s)))
        else Err(MustBe(key, "an int"))
      case Num(n) => if IsSafe(n) then Ok(Some(n)) else Err(MustBe(key, "an int"))
      case _ => Err(MustBe(key, "an int"))
  }

  /** The values `int` accepts. */
  predicate IntLike(v: Value) {
    match v
    case Str(s) => IsIntText(s) && IsSafe(IntTextValue(s))
    case Num(n) => IsSafe(n)
    case _ => false
  }

  /** A printed safe integer reads back as itself: `int` inverts decimal printing. */
  lemma IntReadsShownInt(c: Config, key: Key, n: int, fallback: Option<int>)
    requires IsSafe(n)
    requires Get(c, key, None) == Some(Value.Str(ShowInt(n)))
    ensures Int(c, key, fallback) == Ok(Some(n))
  {
    ShowIntReads(n);
  }

  lemma ShowIntReads(n: int)
    ensures IsIntText(ShowInt(n)) && IntTextValue(ShowInt(n)) == n
  {
    var s := ShowInt(n);
    if n < 0 {
      assert s[1..] == ShowNat(-n);
      DigitsValueShowNat(-n);
    } else {
      DigitsValueShowNat(n);
    }
  }

  /** `config.uint(key, fallback)`: `int`, then negatives are rejected. */
  function Uint(c: Config, key: Key, fallback: Option<int>): (r: Result<Option<int>, ConfigError>)
    ensures Get(c, key, None).None? ==> r == Ok(fallback)
    ensures Get(c, key, None).Some? ==>
      (r.Ok? <==> IntLike(Get(c, key, None).value) && Int(c, key, None).value.value >= 0)
    ensures Get(c, key, None).Some? && r.Ok? ==> r == Int(c, key, None) && 0 <= r.value.value <= MaxSafe
  {
    match Int(c, key, None)
    case Err(e) => Err(e)
    case Ok(None) => Ok(fallback)
    case Ok(Some(n)) => if n < 0 then Err(MustBe(key, "a uint")) else Ok(Some(n))
  }

  const Mebibyte: int := 1024 * 1024

  /** `config.mb(key, fallback)`: a `uint` count of mebibytes, in bytes. */
  function Mb(c: Config, key: Key, fallback: Option<int>): (r: Result<Option<int>, ConfigError>)
    ensures Get(c, key, None).None? ==> r == Ok(fallback)
    ensures r.Err? <==> Uint(c, key, None).Err?
    ensures Get(c, key, None).Some? && r.Ok? ==>
      r.value.Some? && r.value.value % Mebibyte == 0
      && Uint(c, key, None) == Ok(Some(r.value.value / Mebibyte))
  {
    match Uint(c, key, None)
    case Err(e) => Err(e)
    case Ok(None) => Ok(fallback)
    case Ok(Some(n)) => Ok(Some(n * Mebibyte))
  }

  lemma ShowNat100()
    ensures ShowNat(100) == "100"
  {
  }

  /** `mb` on the text `100` is 104857600 bytes. */
  lemma MbExample(c: Config, key: Key)
    requires Get(c, key, None) == Some(Value.Str("100"))
    ensures Mb(c, key, None) == Ok(Some(104857600))
  {
    ShowNat100();
    IntReadsShownInt(c, key, 100, None);
  }

  /** `config.bool(key, fallback)`. */
  function Bool(c: Config, key: Key, fallback: Option<bool>): (r: Result<Option<bool>, ConfigError>)
    ensures Get(c, key, None).None? ==> r == Ok(fallback)
    ensures var v := Get(c, key, None);
      v.Some? ==>
        && (r == Ok(Some(true)) <==> v.value in {Value.Str("true"), Value.Str("1"), Num(1), Flag(true)})
        && (r == Ok(Some(false)) <==> v.value in {Value.Str("false"), Value.Str("0"), Num(0), Flag(false)})
        && (r.Err? <==> v.value !in {Value.Str("true"), Value.Str("1"), Num(1), Flag(true),
                                     Value.Str("false"), Value.Str("0"), Num(0), Flag(false)})
  {
    match Get(c, key, None)
    case None => Ok(fallback)
    case Some(v) =>
      if v == Num(1) then Ok(Some(true))
      else if v == Num(0) then Ok(Some(false))
      else match v
        case Flag(b) => Ok(Some(b))
        case Str(s) =>
          if s == "true" || s == "1" then Ok(Some(true))
          else if s == "false" || s == "0" then Ok(Some(false))
          else Err(MustBe(key, "a boolean"))
        case _ => Err(MustBe(key, "a boolean"))
  }

  /** `value.trim().split(/\s*,\s*\/)` with empty parts dropped: the comma-separated
      parts, trimmed, empty ones discarded. */
  function SplitList(s: string): (r: seq<string>)
    ensures forall i :: 0 <= i < |r| ==> r[i] != [] && Trimmed(r[i]) && ',' !in r[i]
  {
    NonEmpty(TrimAll(Split(Trim(s), ',')))
  }

  function TrimAll(parts: seq<string>): (r: seq<string>)
    ensures |r| == |parts|
    ensures forall i :: 0 <= i < |r| ==> r[i] == Trim(parts[i])
    ensures forall i :: 0 <= i < |r| ==> Trimmed(r[i])
    ensures (forall i :: 0 <= i < |parts| ==> ',' !in parts[i]) ==> forall i :: 0 <= i < |r| ==> ',' !in r[i]
  {
    seq(|parts|, i requires 0 <= i < |parts| => Trim(parts[i]))
  }

  function NonEmpty(parts: seq<string>): (r: seq<string>)
    ensures forall i :: 0 <= i < |r| ==> r[i] != [] && r[i] in parts
  {
    if parts == [] then []
    else (if parts[0] == [] then [] else [parts[0]]) + NonEmpty(parts[1..])
  }

  /** A list item `array` can produce: non-empty, trimmed, comma-free. */
  predicate ListItem(x: string) {
    x != [] && Trimmed(x) && ',' !in x
  }

  /** Splitting a comma-joined list of such items gives the items back. */
  lemma {:induction false} SplitListJoin(xs: seq<string>)
    requires forall i :: 0 <= i < |xs| ==> ListItem(xs[i])
    ensures SplitList(Join(xs, ',')) == xs
  {
    if xs == [] {
      assert Split(Trim([]), ',') == [[]];
    } else {
      var s := Join(xs, ',');
      JoinTrimmed(xs);
      TrimOfTrimmed(s);
      SplitJoin(xs, ',');
      assert TrimAll(xs) == xs by {
        forall i | 0 <= i < |xs| ensures Trim(xs[i]) == xs[i] {
          TrimOfTrimmed(xs[i]);
        }
      }
      NonEmptyKeeps(xs);
    }
  }

  lemma {:induction false} NonEmptyKeeps(xs: seq<string>)
    requires forall i :: 0 <= i < |xs| ==> xs[i] != []
    ensures NonEmpty(xs) == xs
  {
    if xs != [] {
      NonEmptyKeeps(xs[1..]);
    }
  }

  lemma {:induction false} JoinTrimmed(xs: seq<string>)
    requires |xs| >= 1
    requires forall i :: 0 <= i < |xs| ==> ListItem(xs[i])
    ensures Trimmed(Join(xs, ','))
  {
    assert ListItem(xs[0]);
    if |xs| > 1 {
      JoinTrimmed(xs[1..]);
      var rest := Join(xs[1..], ',');
      assert ListItem(xs[1..][0]);
      assert rest != [];
      var j := Join(xs, ',');
      assert j == xs[0] + [','] + rest;
      assert j[0] == xs[0][0];
      assert j[|j| - 1] == rest[|rest| - 1];
    }
  }

  /** Parts wrapped as string values. */
  function StrValues(parts: seq<string>): (r: seq<Value>)
    ensures |r| == |parts|
    ensures forall i :: 0 <= i < |r| ==> r[i] == Value.Str(parts[i])
  {
    seq(|parts|, i requires 0 <= i < |parts| => Value.Str(parts[i]))
  }

  /** `config.array(key, fallback)`: an array passes through, a string is split
      on commas. */
  function Array(c: Config, key: Key, fallback: Option<seq<Value>>): (r: Result<Option<seq<Value>>, ConfigError>)
    ensures var v := Get(c, key, None);
      && (v.None? ==> r == Ok(fallback))
      && (v.Some? ==> (r.Ok? <==> v.value.Str? || v.value.List?))
      && (v.Some? && v.value.List? ==> r == Ok(Some(v.value.items)))
      && (v.Some? && v.value.Str? ==> r == Ok(Some(StrValues(SplitList(v.value.s)))))
      && (v.Some? && v.value.Str? ==>
            r.Ok? && r.value.Some? && forall i :: 0 <= i < |r.value.value| ==>
              r.value.value[i].Str? && ListItem(r.value.value[i].s))
  {
    var v := Get(c, key, None);
    if v.None? then Ok(fallback)
    else if v.value.Str? then Ok(Some(StrValues(SplitList(v.value.s))))
    else if v.value.List? then Ok(Some(v.value.items))
    else Err(MustBe(key, "an array"))
  }

  /** `getNetwork` applied to what `get('network')` returned: `mainnet` when
      unset or empty, otherwise the string itself, which must be lower-case
      alphanumeric; a non-string fails in `str`. */
  function NetworkFrom(v: Option<Value>): (r: Result<string, ConfigError>)
    ensures r.Ok? ==> IsAlpha(r.value)
    ensures v.None? || v == Some(Value.Str("")) ==> r == Ok("mainnet")
    ensures v.Some? && v.value.Str? && v.value.s != "" ==>
      (r.Ok? <==> IsAlpha(v.value.s)) && (r.Ok? ==> r.value == v.value.s)
    ensures v.Some? && !v.value.Str? ==> r.Err?
    ensures r.Err? ==> r.error == BadNetwork || r.error.MustBe?
  {
    if v.Some? && !v.value.Str? then Err(MustBe(Name("network"), "a string"))
    else
      var network := if v.None? || v.value.s == "" then "mainnet" else v.value.s;
      if IsAlpha(network) then Ok(network) else Err(BadNetwork)
  }

  /** `config.getNetwork()`. */
  function Network(c: Config): (r: Result<string, ConfigError>)
    ensures r.Ok? ==> IsAlpha(r.value)
    ensures r.Err? ==> r.error == BadNetwork || r.error.MustBe?
  {
    NetworkFrom(Get(c, Name("network"), None))
  }
}
