/** `Config.parseArg` of lib/config.js: long options, short clusters, positional
    arguments, the pending key and the `--` passthrough. */
module Args {
  import opened Wrappers
  import opened Text
  import opened Keys
  import opened Store

  /** The loop's state: the writes to the argument tier so far, the positional
      and passthrough lists, the pending key and the passthrough switch. */
  datatype ArgState = ArgState(
    writes: seq<(string, string)>,
    positional: seq<string>,
    pass: seq<string>,
    last: Option<string>,
    passing: bool)

  const Start: ArgState := ArgState([], [], [], None, false)

  /** A character a short cluster may contain: `[A-Za-z0-9?]`. */
  predicate IsShortChar(ch: char) {
    IsAlnum(ch) || ch == '?'
  }

  /** The flags a cluster sets, in order. */
  function ClusterWrites(chars: string): (r: seq<(string, string)>)
    ensures |r| == |chars|
    ensures forall j :: 0 <= j < |chars| ==> r[j] == (Aliased([chars[j]]), "true")
  {
    seq(|chars|, j requires 0 <= j < |chars| => (Aliased([chars[j]]), "true"))
  }

  /** The loop over `arg[j..]` of a `-abc` cluster: every character becomes a
      `true` flag (aliased, even though it is one character) and the pending key. */
  function Cluster(arg: string, j: nat, st: ArgState): (r: Result<ArgState, ConfigError>)
    requires 1 <= j <= |arg|
    ensures r.Ok? ==> r.value.(writes := st.writes, last := st.last) == st
    ensures r.Ok? ==> st.writes <= r.value.writes && |r.value.writes| == |st.writes| + |arg| - j
    ensures r.Err? ==> r.error.InvalidArgument?
    decreases |arg| - j
  {
    if j == |arg| then Ok(st)
    else
      var ch := arg[j];
      if !IsShortChar(ch) then Err(InvalidArgument("-" + [ch]))
      else
        var key := Aliased([ch]);
        Cluster(arg, j + 1, st.(writes := st.writes + [(key, "true")], last := Some(key)))
  }

  /** The key text and value of `--key=value` (not pending) or `--key` (the value
      `true`, pending). */
  function LongParts(arg: string): (r: (string, string, bool))
    requires StartsWith(arg, "--")
    ensures IndexOf(arg, '=').None? ==> r == (arg[2..], "true", true)
    ensures IndexOf(arg, '=').Some? ==> !r.2 && '=' !in r.0 && arg == "--" + r.0 + "=" + r.1
  {
    match IndexOf(arg, '=')
    case Some(i) =>
      assert arg == arg[..2] + arg[2..i] + "=" + arg[i + 1..];
      (arg[2..i], arg[i + 1..], false)
    case None => (arg[2..], "true", true)
  }

  /** A token starting with `--`, other than `--` itself. */
  function Long(arg: string, st: ArgState): (r: Result<ArgState, ConfigError>)
    requires StartsWith(arg, "--")
    ensures r.Ok? ==> r.value.(writes := st.writes, last := st.last) == st
    ensures r.Ok? ==> st.writes <= r.value.writes && |r.value.writes| <= |st.writes| + 1
    ensures r.Err? ==> r.error.InvalidArgument? && StartsWith(r.error.arg, "--")
  {
    var (text, value, pending) := LongParts(arg);
    var key := Remove(text, '-');
    if !IsLowerKey(key) then Err(InvalidArgument("--" + key))
    else if value == [] then Ok(st.(last := None))
    else
      var k := AliasedLong(key);
      Ok(st.(writes := st.writes + [(k, value)], last := if pending then Some(k) else None))
  }

  /** One iteration of the loop over the tokens. */
  function Step(st: ArgState, arg: string): (r: Result<ArgState, ConfigError>)
    ensures r.Ok? ==> st.writes <= r.value.writes && st.positional <= r.value.positional && st.pass <= r.value.pass
    ensures r.Err? ==> r.error.InvalidArgument? && !st.passing
  {
    if arg == "--" then Ok(st.(passing := true))
    else if st.passing then Ok(st.(pass := st.pass + [arg]))
    else if arg == [] then Ok(st.(last := None))
    else if StartsWith(arg, "--") then Long(arg, st)
    else if arg[0] == '-' then Cluster(arg, 1, st.(last := None))
    else match st.last
      case Some(k) => Ok(st.(writes := st.writes + [(k, arg)], last := None))
      case None => Ok(st.(positional := st.positional + [arg]))
  }

  function Fold(tokens: seq<string>, st: ArgState): (r: Result<ArgState, ConfigError>)
    ensures r.Ok? ==> st.writes <= r.value.writes && st.positional <= r.value.positional && st.pass <= r.value.pass
    ensures r.Err? ==> r.error.InvalidArgument?
    decreases |tokens|
  {
    if tokens == [] then Ok(st)
    else match Step(st, tokens[0])
      case Err(e) => Err(e)
      case Ok(st') => Fold(tokens[1..], st')
  }

  /** The tokens after the program and script names. */
  function Tokens(argv: seq<string>): seq<string> {
    if |argv| <= 2 then [] else argv[2..]
  }

  /** `config.parseArg(argv)`: the writes go to the argument tier, the positional
      and passthrough tokens are appended to the lists. */
  function ParseArg(c: Config, argv: seq<string>): (r: Result<Config, ConfigError>)
    ensures r.Ok? ==> r.value.(args := c.args, argv := c.argv, pass := c.pass) == c
    ensures r.Ok? ==> c.argv <= r.value.argv && c.pass <= r.value.pass
    ensures r.Err? ==> r.error.InvalidArgument?
  {
    match Fold(Tokens(argv), Start)
    case Err(e) => Err(e)
    case Ok(st) => Ok(c.(args := Assign(c.args, st.writes), argv := c.argv + st.positional, pass := c.pass + st.pass))
  }

  /** The tokens passed through verbatim: every one except a further `--`. */
  function Verbatim(tokens: seq<string>): seq<string> {
    if tokens == [] then []
    else (if tokens[0] == "--" then [] else [tokens[0]]) + Verbatim(tokens[1..])
  }

  /** The verbatim list holds exactly the tokens other than `--`, each as often
      as it was given; with `VerbatimAppend`, also in the order given. */
  lemma {:induction false} VerbatimMembers(tokens: seq<string>)
    ensures forall x :: x in Verbatim(tokens) <==> x in tokens && x != "--"
    ensures forall x :: x != "--" ==> multiset(Verbatim(tokens))[x] == multiset(tokens)[x]
    ensures |Verbatim(tokens)| <= |tokens|
  {
    if tokens != [] {
      VerbatimMembers(tokens[1..]);
      assert tokens == [tokens[0]] + tokens[1..];
      assert forall x :: x in tokens <==> x == tokens[0] || x in tokens[1..];
    }
  }

  /** The verbatim list of a concatenation is the two lists in sequence, so
      tokens keep their order. */
  lemma {:induction false} VerbatimAppend(a: seq<string>, b: seq<string>)
    ensures Verbatim(a + b) == Verbatim(a) + Verbatim(b)
    decreases |a|
  {
    if a == [] {
      assert a + b == b;
    } else {
      assert (a + b)[0] == a[0] && (a + b)[1..] == a[1..] + b;
      VerbatimAppend(a[1..], b);
      var head: seq<string> := if a[0] == "--" then [] else [a[0]];
      assert head + (Verbatim(a[1..]) + Verbatim(b)) == (head + Verbatim(a[1..])) + Verbatim(b);
    }
  }

  /** Once passthrough is on, every further token is collected verbatim (a
      repeated `--` is dropped), nothing else changes and nothing can fail. */
  lemma {:induction false} Passthrough(tokens: seq<string>, st: ArgState)
    requires st.passing
    ensures Fold(tokens, st) == Ok(st.(pass := st.pass + Verbatim(tokens)))
    decreases |tokens|
  {
    if tokens != [] {
      var head: seq<string> := if tokens[0] == "--" then [] else [tokens[0]];
      FoldPassing(tokens, st);
      Passthrough(tokens[1..], st.(pass := st.pass + head));
      VerbatimCons(st.pass, tokens);
    } else {
      assert st.pass + [] == st.pass;
    }
  }

  lemma VerbatimCons(p: seq<string>, tokens: seq<string>)
    requires tokens != []
    ensures p + Verbatim(tokens) == (p + if tokens[0] == "--" then [] else [tokens[0]]) + Verbatim(tokens[1..])
  {
    var h: seq<string> := if tokens[0] == "--" then [] else [tokens[0]];
    var v := Verbatim(tokens[1..]);
    assert Verbatim(tokens) == h + v;
    assert p + (h + v) == (p + h) + v;
  }

  /** One passthrough step of the loop. */
  lemma FoldPassing(tokens: seq<string>, st: ArgState)
    requires st.passing && tokens != []
    ensures Fold(tokens, st) ==
      Fold(tokens[1..], st.(pass := st.pass + if tokens[0] == "--" then [] else [tokens[0]]))
  {
    StepPassing(st, tokens[0]);
    if tokens[0] == "--" {
      assert st.pass + [] == st.pass;
    }
  }

  lemma StepPassing(st: ArgState, arg: string)
    requires st.passing
    ensures Step(st, arg) == Ok(if arg == "--" then st else st.(pass := st.pass + [arg]))
  {
  }

  /** The loop over a concatenation is the loop over the second part started
      where the first part left off. */
  lemma {:induction false} FoldAppend(a: seq<string>, b: seq<string>, st: ArgState)
    ensures Fold(a + b, st) == (match Fold(a, st) case Err(e) => Err(e) case Ok(s) => Fold(b, s))
  {
    if a == [] {
      assert a + b == b;
    } else {
      assert (a + b)[0] == a[0] && (a + b)[1..] == a[1..] + b;
      if Step(st, a[0]).Ok? {
        FoldAppend(a[1..], b, Step(st, a[0]).value);
      }
    }
  }

  /** Everything after the first `--` lands in the passthrough list, whatever it
      looks like; only the tokens before it are parsed as options. */
  lemma FirstSeparator(pre: seq<string>, post: seq<string>)
    ensures Fold(pre + ["--"] + post, Start) ==
      (match Fold(pre, Start)
       case Err(e) => Err(e)
       case Ok(s) => Ok(s.(passing := true, pass := s.pass + Verbatim(post))))
  {
    FoldAppend(pre + ["--"], post, Start);
    FoldAppend(pre, ["--"], Start);
    if Fold(pre, Start).Ok? {
      var s := Fold(pre, Start).value;
      assert Fold(["--"], s) == Ok(s.(passing := true));
      Passthrough(post, s.(passing := true));
    }
  }

  /** The keys the parser writes: a lower-case key, or a single character of a
      short cluster that the alias table does not map. */
  predicate ArgKey(k: string) {
    IsLowerKey(k) || (|k| == 1 && IsShortChar(k[0]))
  }

  /** What holds of every state the loop reaches from `Start`. */
  predicate Sane(st: ArgState) {
    && (forall i :: 0 <= i < |st.writes| ==> ArgKey(st.writes[i].0) && st.writes[i].1 != [])
    && (forall i :: 0 <= i < |st.positional| ==> st.positional[i] != [] && st.positional[i][0] != '-')
    && (st.last.Some? ==> ArgKey(st.last.value))
  }

  lemma ShortKey(ch: char)
    requires IsShortChar(ch)
    ensures ArgKey(Aliased([ch]))
  {
    if Alias([ch]).Some? {
      assert [ch] == "n";
    }
  }

  /** A cluster succeeds exactly when every character is a letter, a digit or
      `?`; then it sets each one (aliased) to `true` and leaves the last one
      pending; otherwise it fails naming the first bad character. */
  lemma ClusterSpec(arg: string, j: nat, st: ArgState)
    requires 1 <= j <= |arg|
    ensures var r := Cluster(arg, j, st);
      && (r.Ok? <==> forall i :: j <= i < |arg| ==> IsShortChar(arg[i]))
      && (r.Ok? ==> r.value == st.(writes := st.writes + ClusterWrites(arg[j..]),
                                   last := if j < |arg| then Some(Aliased([arg[|arg| - 1]])) else st.last))
      && (r.Err? ==> exists i ::
            && j <= i < |arg| && !IsShortChar(arg[i]) && r.error == InvalidArgument("-" + [arg[i]])
            && forall h :: j <= h < i ==> IsShortChar(arg[h]))
  {
    ClusterAccepts(arg, j, st);
    ClusterResult(arg, j, st);
  }

  lemma {:induction false} ClusterAccepts(arg: string, j: nat, st: ArgState)
    requires 1 <= j <= |arg|
    ensures var r := Cluster(arg, j, st);
      && (r.Ok? <==> forall i :: j <= i < |arg| ==> IsShortChar(arg[i]))
      && (r.Err? ==> exists i ::
            && j <= i < |arg| && !IsShortChar(arg[i]) && r.error == InvalidArgument("-" + [arg[i]])
            && forall h :: j <= h < i ==> IsShortChar(arg[h]))
    decreases |arg| - j
  {
    if j < |arg| && IsShortChar(arg[j]) {
      var key := Aliased([arg[j]]);
      ClusterAccepts(arg, j + 1, st.(writes := st.writes + [(key, "true")], last := Some(key)));
    }
  }

  lemma {:induction false} ClusterResult(arg: string, j: nat, st: ArgState)
    requires 1 <= j <= |arg|
    ensures var r := Cluster(arg, j, st);
      r.Ok? ==> r.value == st.(writes := st.writes + ClusterWrites(arg[j..]),
                               last := if j < |arg| then Some(Aliased([arg[|arg| - 1]])) else st.last)
    decreases |arg| - j
  {
    if j < |arg| && IsShortChar(arg[j]) {
      var key := Aliased([arg[j]]);
      var st' := st.(writes := st.writes + [(key, "true")], last := Some(key));
      ClusterResult(arg, j + 1, st');
      ClusterWritesCons(arg, j, st.writes);
    } else if j == |arg| {
      assert st.writes + ClusterWrites(arg[j..]) == st.writes;
    }
  }

  lemma ClusterWritesCons(arg: string, j: nat, ws: seq<(string, string)>)
    requires 1 <= j < |arg|
    ensures ws + ClusterWrites(arg[j..]) == (ws + [(Aliased([arg[j]]), "true")]) + ClusterWrites(arg[j + 1..])
  {
    assert ClusterWrites(arg[j..]) == [(Aliased([arg[j]]), "true")] + ClusterWrites(arg[j + 1..]);
  }

  lemma SaneAppend(st: ArgState, k: string, v: string, last: Option<string>)
    requires Sane(st) && ArgKey(k) && v != []
    requires last.Some? ==> ArgKey(last.value)
    ensures Sane(st.(writes := st.writes + [(k, v)], last := last))
  {
    var ws := st.writes + [(k, v)];
    assert forall i :: 0 <= i < |st.writes| ==> ws[i] == st.writes[i];
  }

  lemma LongSane(arg: string, st: ArgState)
    requires Sane(st) && StartsWith(arg, "--")
    ensures Long(arg, st).Ok? ==> Sane(Long(arg, st).value)
  {
    var (text, value, pending) := LongParts(arg);
    var key := Remove(text, '-');
    if IsLowerKey(key) && value != [] {
      var k := AliasedLong(key);
      AliasedIsCanonical(key);
      SaneAppend(st, k, value, if pending then Some(k) else None);
    }
  }

  lemma ClusterWritesSane(chars: string)
    requires forall i :: 0 <= i < |chars| ==> IsShortChar(chars[i])
    ensures forall i :: 0 <= i < |chars| ==> ArgKey(ClusterWrites(chars)[i].0)
  {
    forall i | 0 <= i < |chars| ensures ArgKey(ClusterWrites(chars)[i].0) {
      ShortKey(chars[i]);
    }
  }

  lemma SaneConcat(st: ArgState, ws: seq<(string, string)>, last: Option<string>)
    requires Sane(st)
    requires forall i :: 0 <= i < |ws| ==> ArgKey(ws[i].0) && ws[i].1 != []
    requires last.Some? ==> ArgKey(last.value)
    ensures Sane(st.(writes := st.writes + ws, last := last))
  {
    var r := st.writes + ws;
    forall i | 0 <= i < |r| ensures ArgKey(r[i].0) && r[i].1 != [] {
      if i >= |st.writes| { assert r[i] == ws[i - |st.writes|]; }
    }
  }

  lemma ClusterSane(arg: string, st: ArgState)
    requires Sane(st) && 1 <= |arg|
    ensures Cluster(arg, 1, st.(last := None)).Ok? ==> Sane(Cluster(arg, 1, st.(last := None)).value)
  {
    var st0 := st.(last := None);
    ClusterSpec(arg, 1, st0);
    if Cluster(arg, 1, st0).Ok? {
      var chars := arg[1..];
      assert forall i :: 0 <= i < |chars| ==> chars[i] == arg[i + 1];
      ClusterWritesSane(chars);
      var last: Option<string> := if 1 < |arg| then Some(Aliased([arg[|arg| - 1]])) else None;
      if |arg| > 1 {
        ShortKey(arg[|arg| - 1]);
      }
      SaneConcat(st, ClusterWrites(chars), last);
    }
  }

  lemma StepSane(st: ArgState, arg: string)
    requires Sane(st)
    ensures Step(st, arg).Ok? ==> Sane(Step(st, arg).value)
  {
    if arg != "--" && !st.passing && arg != [] {
      if StartsWith(arg, "--") {
        LongSane(arg, st);
      } else if arg[0] == '-' {
        ClusterSane(arg, st);
      }
    }
  }

  /** Every state the loop reaches from a sane state is sane: argument keys are
      lower-case keys or cluster characters, values are never empty, and
      positional tokens are non-empty and do not start with `-`. */
  lemma {:induction false} FoldSane(tokens: seq<string>, st: ArgState)
    requires Sane(st)
    ensures Fold(tokens, st).Ok? ==> Sane(Fold(tokens, st).value)
    decreases |tokens|
  {
    if tokens != [] {
      StepSane(st, tokens[0]);
      if Step(st, tokens[0]).Ok? {
        FoldSane(tokens[1..], Step(st, tokens[0]).value);
      }
    }
  }

  lemma LowerKeyChars(k: string)
    requires IsLowerKey(k)
    ensures '-' !in k && '=' !in k
    ensures Remove(k, '-') == k
  {
    assert forall i :: 0 <= i < |k| ==> k[i] != '-' && k[i] != '=';
  }

  /** `--key` splits into the key text, the value `true` and a pending mark. */
  lemma BareLongParts(key: string)
    requires '=' !in key
    ensures StartsWith("--" + key, "--") && LongParts("--" + key) == (key, "true", true)
  {
    var arg := "--" + key;
    assert '=' !in arg by {
      forall i | 0 <= i < |arg| ensures arg[i] != '=' {
        if i >= 2 { assert arg[i] == key[i - 2]; }
      }
    }
    assert arg[2..] == key;
  }

  /** `--key=value` splits at the first `=`, with no pending mark. */
  lemma InlineLongParts(key: string, value: string)
    requires '=' !in key
    ensures StartsWith("--" + key + "=" + value, "--")
    ensures LongParts("--" + key + "=" + value) == (key, value, false)
  {
    var arg := "--" + key + "=" + value;
    assert arg[..2 + |key|] == "--" + key;
    assert '=' !in arg[..2 + |key|] by {
      forall i | 0 <= i < 2 + |key| ensures arg[i] != '=' {
        if i >= 2 { assert arg[i] == key[i - 2]; }
      }
    }
    assert arg[2 + |key|] == '=';
    IndexOfAt(arg, '=', 2 + |key|);
    assert arg[2..2 + |key|] == key && arg[3 + |key|..] == value;
  }

  /** `--key value`: the bare flag first stores `true` and leaves the key
      pending, the next plain token overwrites it and is not positional. */
  lemma PendingValue(key: string, value: string)
    requires IsLowerKey(key)
    requires value != [] && value[0] != '-'
    ensures Fold(["--" + key, value], Start) ==
      Ok(Start.(writes := [(AliasedLong(key), "true"), (AliasedLong(key), value)]))
  {
    var arg := "--" + key;
    LowerKeyChars(key);
    BareLongParts(key);
    var k := AliasedLong(key);
    var st1 := Start.(writes := [(k, "true")], last := Some(k));
    assert arg != "--" && arg != [];
    assert Step(Start, arg) == Long(arg, Start);
    assert LongParts(arg) == (key, "true", true);
    assert Remove(key, '-') == key;
    assert IsLowerKey(key);
    assert Start.writes + [(k, "true")] == [(k, "true")];
    assert value != "--" && !StartsWith(value, "--");
    assert [(k, "true")] + [(k, value)] == [(k, "true"), (k, value)];
    assert Step(st1, value) == Ok(Start.(writes := [(k, "true"), (k, value)]));
    var st2 := Start.(writes := [(k, "true"), (k, value)]);
    var none: seq<string> := [];
    assert [value][1..] == none;
    assert Fold([value], st1) == Fold(none, st2) == Ok(st2);
    assert ["--" + key, value][1..] == [value];
  }

  /** `--key=value` sets the key without making it pending, so the next plain
      token is positional. */
  lemma InlineValue(key: string, value: string, next: string)
    requires IsLowerKey(key) && value != []
    requires next != [] && next[0] != '-'
    ensures Fold(["--" + key + "=" + value, next], Start) ==
      Ok(Start.(writes := [(AliasedLong(key), value)], positional := [next]))
  {
    var arg := "--" + key + "=" + value;
    LowerKeyChars(key);
    InlineLongParts(key, value);
    var k := AliasedLong(key);
    var st1 := Start.(writes := [(k, value)]);
    assert arg != "--" && arg != [];
    assert Step(Start, arg) == Long(arg, Start);
    assert Start.writes + [(k, value)] == [(k, value)];
    assert Start.positional + [next] == [next];
    assert next != "--" && !StartsWith(next, "--");
    assert Step(st1, next) == Ok(st1.(positional := [next]));
    var st2 := st1.(positional := [next]);
    var none: seq<string> := [];
    assert [next][1..] == none;
    assert Fold([next], st1) == Fold(none, st2) == Ok(st2);
    assert [arg, next][1..] == [next];
  }

  /** A long option whose key, once hyphens are removed, is not a lower-case
      key fails naming that key, with or without an inline value. */
  lemma InvalidLongKey(st: ArgState, text: string, value: string)
    requires !st.passing && '=' !in text
    requires !IsLowerKey(Remove(text, '-'))
    ensures Step(st, "--" + text + "=" + value) == Err(InvalidArgument("--" + Remove(text, '-')))
    ensures text != [] ==> Step(st, "--" + text) == Err(InvalidArgument("--" + Remove(text, '-')))
  {
    InlineLongParts(text, value);
    var arg := "--" + text + "=" + value;
    assert |arg| >= 3 && arg != [];
    assert Step(st, arg) == Long(arg, st);
    if text != [] {
      BareLongParts(text);
      var bare := "--" + text;
      assert |bare| >= 3;
      assert Step(st, bare) == Long(bare, st);
    }
  }

  /** An empty token, and a long option with an empty inline value, write
      nothing and drop the pending key. */
  lemma ClearsPending(st: ArgState, key: string)
    requires !st.passing && IsLowerKey(key)
    ensures Step(st, []) == Ok(st.(last := None))
    ensures Step(st, "--" + key + "=") == Ok(st.(last := None))
  {
    LowerKeyChars(key);
    InlineLongParts(key, []);
    var arg := "--" + key + "=";
    assert arg == "--" + key + "=" + [];
    assert arg != "--" && arg != [];
  }

  /** A token the parser reads as a positional argument or a pending value:
      non-empty and not starting with `-`. */
  predicate PlainToken(arg: string) {
    arg != [] && arg[0] != '-'
  }

  lemma PositionalCons(p: seq<string>, tokens: seq<string>)
    requires tokens != []
    ensures (p + [tokens[0]]) + tokens[1..] == p + tokens
  {
    assert [tokens[0]] + tokens[1..] == tokens;
  }

  /** Plain tokens with no key pending are appended to the positional list, in
      order, and nothing else changes. */
  lemma {:induction false} PositionalTokens(tokens: seq<string>, st: ArgState)
    requires !st.passing && st.last.None?
    requires forall i :: 0 <= i < |tokens| ==> PlainToken(tokens[i])
    ensures Fold(tokens, st) == Ok(st.(positional := st.positional + tokens))
    decreases |tokens|
  {
    if tokens == [] {
      assert st.positional + tokens == st.positional;
    } else {
      var st' := st.(positional := st.positional + [tokens[0]]);
      assert PlainToken(tokens[0]);
      assert tokens[0] != "--" && !StartsWith(tokens[0], "--");
      assert Step(st, tokens[0]) == Ok(st');
      assert forall i :: 0 <= i < |tokens[1..]| ==> tokens[1..][i] == tokens[i + 1];
      PositionalTokens(tokens[1..], st');
      PositionalCons(st.positional, tokens);
    }
  }

  /** A command line of plain tokens only adds positional arguments, in order. */
  lemma PositionalArgs(c: Config, p: string, s: string, tokens: seq<string>)
    requires forall i :: 0 <= i < |tokens| ==> PlainToken(tokens[i])
    ensures ParseArg(c, [p, s] + tokens) == Ok(c.(argv := c.argv + tokens))
  {
    var argv := [p, s] + tokens;
    assert Tokens(argv) == tokens by {
      if |argv| > 2 { assert argv[2..] == tokens; }
    }
    PositionalTokens(tokens, Start);
    assert Start.positional + tokens == tokens;
    assert c.pass + [] == c.pass;
  }

  /** A cluster with an upper-case letter stores it under that letter, a key no
      canonical lookup produces, since lookups lower-case their key. */
  lemma UpperShortFlagUnreachable(ch: char, name: string)
    requires IsUpperLetter(ch)
    ensures Fold(["-" + [ch]], Start) == Ok(Start.(writes := [([ch], "true")], last := Some([ch])))
    ensures Canon(name) != [ch]
  {
    var arg := "-" + [ch];
    assert Alias([ch]).None?;
    var st1 := Start.(writes := [([ch], "true")], last := Some([ch]));
    assert arg[1] == ch && |arg| == 2;
    assert Start.writes + [([ch], "true")] == [([ch], "true")];
    assert Cluster(arg, 2, st1) == Ok(st1);
    assert Cluster(arg, 1, Start) == Ok(st1);
    assert arg != "--" && !StartsWith(arg, "--");
    assert Step(Start, arg) == Ok(st1);
    var none: seq<string> := [];
    assert [arg][1..] == none;
  }
}
