/** `Config.parseConfig` of lib/config.js: the `key: value` / `key=value` file
    dialect. */
module ConfigFile {
  import opened Wrappers
  import opened Text
  import opened Keys
  import opened Store

  /** A line's separator; the first assignment line fixes it for the file. */
  datatype Sep = Colon | Equals

  function SepChar(s: Sep): char {
    if s == Colon then ':' else '='
  }

  function StripBom(t: string): string {
    if |t| > 0 && t[0] == '\U{FEFF}' then t[1..] else t
  }

  /** `\r\n` and then any remaining `\r` become `\n`: no carriage return
      survives, nothing gets longer, and every other character is kept. */
  function NormalizeNewlines(t: string): (r: string)
    ensures '\r' !in r
    ensures |r| <= |t|
    ensures forall x :: x in r && x != '\n' ==> x in t
  {
    if t == [] then []
    else if t[0] == '\r' then
      if |t| > 1 && t[1] == '\n' then "\n" + NormalizeNewlines(t[2..]) else "\n" + NormalizeNewlines(t[1..])
    else [t[0]] + NormalizeNewlines(t[1..])
  }

  /** `replace(/\r\n/g, '\n')`: each `\r\n`, scanning from the left, becomes `\n`. */
  function CrLfToLf(t: string): string {
    if |t| >= 2 && t[0] == '\r' && t[1] == '\n' then "\n" + CrLfToLf(t[2..])
    else if t == [] then []
    else [t[0]] + CrLfToLf(t[1..])
  }

  /** The single pass does what the source's two rewrites do: first every
      `\r\n`, then every `\r` left over, becomes `\n`. */
  lemma {:induction false} NormalizeTwoPasses(t: string)
    ensures NormalizeNewlines(t) == ReplaceChar(CrLfToLf(t), '\r', '\n')
    decreases |t|
  {
    if |t| >= 2 && t[0] == '\r' && t[1] == '\n' {
      NormalizeTwoPasses(t[2..]);
      ReplaceCharCons('\n', CrLfToLf(t[2..]), '\r', '\n');
    } else if t != [] {
      NormalizeTwoPasses(t[1..]);
      ReplaceCharCons(t[0], CrLfToLf(t[1..]), '\r', '\n');
    }
  }

  /** `replace(/\\\n/g, '')`: a backslash at the end of a line joins it to the next. */
  function JoinContinuations(t: string): string {
    if |t| >= 2 && t[0] == '\\' && t[1] == '\n' then JoinContinuations(t[2..])
    else if t == [] then []
    else [t[0]] + JoinContinuations(t[1..])
  }

  /** The lines the parser numbers, after the three rewrites. */
  function Lines(text: string): seq<string> {
    Split(JoinContinuations(NormalizeNewlines(StripBom(text))), '\n')
  }

  /** The earlier of the first `:` and the first `=`, and its position. */
  function SepOf(line: string): (r: Option<(Sep, nat)>)
    ensures r.None? <==> ':' !in line && '=' !in line
    ensures r.Some? ==>
      && r.value.1 < |line| && line[r.value.1] == SepChar(r.value.0)
      && ':' !in line[..r.value.1] && '=' !in line[..r.value.1]
  {
    var eq := IndexOf(line, '=');
    var co := IndexOf(line, ':');
    if co.Some? && (eq.None? || co.value < eq.value) then
      assert eq.Some? ==> line[..co.value] == line[..eq.value][..co.value];
      Some((Colon, co.value))
    else if eq.Some? then
      assert co.Some? ==> line[..eq.value] == line[..co.value][..eq.value];
      Some((Equals, eq.value))
    else None
  }

  /** What one trimmed line of the file is. */
  datatype LineKind =
    | Blank
    | Unseparated
    | Assignment(sep: Sep, key: string, value: string)

  /** The trimmed line: blank or `#` comment, no separator, or the separator,
      the hyphen-stripped trimmed key and the trimmed value around it. */
  function Classify(raw: string): (r: LineKind)
    ensures r.Blank? <==> Trim(raw) == [] || Trim(raw)[0] == '#'
    ensures r.Unseparated? <==> !r.Blank? && ':' !in Trim(raw) && '=' !in Trim(raw)
    ensures r.Assignment? ==> exists i ::
      && 0 <= i < |Trim(raw)| && Trim(raw)[i] == SepChar(r.sep)
      && ':' !in Trim(raw)[..i] && '=' !in Trim(raw)[..i]
      && r.key == Remove(Trim(Trim(raw)[..i]), '-') && r.value == Trim(Trim(raw)[i + 1..])
    ensures r.Assignment? ==> Trimmed(r.value) && '-' !in r.key
  {
    var line := Trim(raw);
    if line == [] || line[0] == '#' then Blank
    else match SepOf(line)
      case None => Unseparated
      case Some((sep, idx)) => Assignment(sep, Remove(Trim(line[..idx]), '-'), Trim(line[idx + 1..]))
  }

  /** No white space around the value and no hyphen in the key. */
  predicate WellFormed(k: LineKind) {
    k.Assignment? ==> Trimmed(k.value) && '-' !in k.key
  }

  /** Every line of the file, classified. */
  function Kinds(lines: seq<string>): (r: seq<LineKind>)
    ensures |r| == |lines|
    ensures forall i :: 0 <= i < |lines| ==> r[i] == Classify(lines[i]) && WellFormed(r[i])
  {
    seq(|lines|, i requires 0 <= i < |lines| => Classify(lines[i]))
  }

  /** The separator of a line, if it has one. */
  function SepAt(k: LineKind): Option<Sep> {
    if k.Assignment? then Some(k.sep) else None
  }

  /** One loop iteration: the style after the line and the write it makes. */
  function ParseLine(k: LineKind, num: nat, style: Option<Sep>): (r: Result<(Option<Sep>, Option<(string, string)>), ConfigError>)
    ensures r.Err? ==> !k.Blank? && (r.error.Expected? || r.error.InvalidOption?) && r.error.line == num
    ensures r.Ok? ==> r.value.0 == (if k.Blank? then style else SepAt(k))
  {
    match k
    case Blank => Ok((style, None))
    case Unseparated => Err(Expected(if style == Some(Equals) then '=' else ':', num))
    case Assignment(sep, key, value) =>
      if style.Some? && style.value != sep then Err(Expected(SepChar(style.value), num))
      else if !IsLowerKey(key) then Err(InvalidOption(num, key))
      else if value == [] then Ok((Some(sep), None))
      else Ok((Some(sep), Some((Aliased(key), value))))
  }

  /** The loop over the lines; `start` lines precede `ks`, so the first one is
      numbered `start + 1`. */
  function ParseLines(ks: seq<LineKind>, start: nat, style: Option<Sep>): (r: Result<seq<(string, string)>, ConfigError>)
    ensures r.Ok? ==> |r.value| <= |ks|
    decreases |ks|
  {
    if ks == [] then Ok([])
    else match ParseLine(ks[0], start + 1, style)
      case Err(e) => Err(e)
      case Ok((style', w)) =>
        match ParseLines(ks[1..], start + 1, style')
        case Err(e) => Err(e)
        case Ok(ws) => Ok((if w.Some? then [w.value] else []) + ws)
  }

  /** `config.parseConfig(text)`: the writes go to the file-data tier in order. */
  function ParseConfig(c: Config, text: string): (r: Result<Config, ConfigError>)
    ensures r.Ok? ==> r.value.(data := c.data) == c
  {
    match ParseLines(Kinds(Lines(text)), 0, None)
    case Err(e) => Err(e)
    case Ok(ws) => Ok(c.(data := Assign(c.data, ws)))
  }

  /** A content line the parser accepts on its own: it has a separator and a
      lower-case alphanumeric key. */
  predicate LineOk(k: LineKind) {
    k.Assignment? && IsLowerKey(k.key)
  }

  /** The whole-file rule: every content line is acceptable, all content lines
      use one separator, and that is `style` when a style is already fixed. */
  predicate Accepted(ks: seq<LineKind>, style: Option<Sep>) {
    && (forall i :: 0 <= i < |ks| && !ks[i].Blank? ==> LineOk(ks[i]))
    && (forall i :: 0 <= i < |ks| && !ks[i].Blank? && style.Some? ==> SepAt(ks[i]) == style)
    && (forall i, j :: 0 <= i < |ks| && 0 <= j < |ks| && !ks[i].Blank? && !ks[j].Blank? ==>
          SepAt(ks[i]) == SepAt(ks[j]))
  }

  /** The writes of the content lines, independent of separator style: the
      aliased key and the value of every line whose value is not empty. */
  function Writes(ks: seq<LineKind>): seq<(string, string)>
  {
    if ks == [] then []
    else
      var k := ks[0];
      var w := if k.Assignment? && k.value != [] then [(Aliased(k.key), k.value)] else [];
      w + Writes(ks[1..])
  }

  lemma ParseLineSpec(k: LineKind, num: nat, style: Option<Sep>)
    ensures var r := ParseLine(k, num, style);
      && (k.Blank? ==> r == Ok((style, None)))
      && (!k.Blank? ==>
            (r.Ok? <==> LineOk(k) && (style.Some? ==> SepAt(k) == style))
            && (r.Ok? ==> r.value.0 == SepAt(k))
            && (r.Ok? ==> r.value.1 == (if k.value != [] then Some((Aliased(k.key), k.value)) else None)))
      && (r.Err? ==> !k.Blank? && (r.error.Expected? || r.error.InvalidOption?) && r.error.line == num)
      && (k.Unseparated? ==> r == Err(Expected(if style == Some(Equals) then '=' else ':', num)))
      && (k.Assignment? && style.Some? && style.value != k.sep ==> r == Err(Expected(SepChar(style.value), num)))
      && (k.Assignment? && (style.None? || style.value == k.sep) && !IsLowerKey(k.key) ==>
            r == Err(InvalidOption(num, k.key)))
  {
  }

  /** The separator style after lines the parser went through: fixed by the
      last content line, or `style` when there is none. */
  function StyleAfter(ks: seq<LineKind>, style: Option<Sep>): Option<Sep>
    decreases |ks|
  {
    if ks == [] then style
    else StyleAfter(ks[1..], if ks[0].Blank? then style else SepAt(ks[0]))
  }

  /** `Accepted` read one line at a time: a content line fixes the style for
      the rest of the file. */
  lemma AcceptedCons(ks: seq<LineKind>, style: Option<Sep>)
    requires ks != []
    ensures !ks[0].Blank? ==>
      (Accepted(ks, style) <==>
        LineOk(ks[0]) && (style.Some? ==> SepAt(ks[0]) == style) && Accepted(ks[1..], SepAt(ks[0])))
    ensures ks[0].Blank? ==> (Accepted(ks, style) <==> Accepted(ks[1..], style))
  {
    var rest := ks[1..];
    assert forall i :: 1 <= i < |ks| ==> ks[i] == rest[i - 1];
    if !ks[0].Blank? {
      if LineOk(ks[0]) && (style.Some? ==> SepAt(ks[0]) == style) && Accepted(rest, SepAt(ks[0])) {
        forall i, j | 0 <= i < |ks| && 0 <= j < |ks| && !ks[i].Blank? && !ks[j].Blank?
          ensures SepAt(ks[i]) == SepAt(ks[j])
        {
          if i > 0 { assert SepAt(rest[i - 1]) == SepAt(ks[0]); }
          if j > 0 { assert SepAt(rest[j - 1]) == SepAt(ks[0]); }
        }
      }
    } else if Accepted(rest, style) {
      forall i, j | 0 <= i < |ks| && 0 <= j < |ks| && !ks[i].Blank? && !ks[j].Blank?
        ensures SepAt(ks[i]) == SepAt(ks[j])
      {
        assert SepAt(rest[i - 1]) == SepAt(rest[j - 1]);
      }
    }
  }

  /** A file parses exactly when it obeys the separator rule and every content
      line has a valid key; then its writes are the per-line writes, in order. */
  lemma {:induction false} ParseLinesAccepted(ks: seq<LineKind>, start: nat, style: Option<Sep>)
    ensures ParseLines(ks, start, style).Ok? <==> Accepted(ks, style)
    ensures ParseLines(ks, start, style).Ok? ==> ParseLines(ks, start, style).value == Writes(ks)
    decreases |ks|
  {
    if ks != [] {
      ParseLineSpec(ks[0], start + 1, style);
      AcceptedCons(ks, style);
      if !ks[0].Blank? {
        ParseLinesAccepted(ks[1..], start + 1, SepAt(ks[0]));
      } else {
        ParseLinesAccepted(ks[1..], start + 1, style);
      }
    }
  }

  /** A failed parse reports the first line the parser refuses, counted after
      continuation lines are joined: every line before it is accepted, and the
      error is the one that line gets under the style those lines fixed. */
  lemma {:induction false} ParseLinesErrorLine(ks: seq<LineKind>, start: nat, style: Option<Sep>)
    requires ParseLines(ks, start, style).Err?
    ensures var e := ParseLines(ks, start, style).error;
      && (e.Expected? || e.InvalidOption?)
      && start < e.line <= start + |ks|
      && !ks[e.line - start - 1].Blank?
      && Accepted(ks[..e.line - start - 1], style)
      && ParseLine(ks[e.line - start - 1], e.line, StyleAfter(ks[..e.line - start - 1], style)) == Err(e)
    decreases |ks|
  {
    ParseLineSpec(ks[0], start + 1, style);
    var p := ParseLine(ks[0], start + 1, style);
    if p.Ok? {
      var st' := p.value.0;
      ParseLinesErrorLine(ks[1..], start + 1, st');
      var e := ParseLines(ks, start, style).error;
      assert e == ParseLines(ks[1..], start + 1, st').error;
      var i := e.line - start - 1;
      var pre := ks[..i];
      assert pre[0] == ks[0] && pre[1..] == ks[1..][..i - 1];
      AcceptedCons(pre, style);
      assert StyleAfter(pre, style) == StyleAfter(pre[1..], st');
      assert ks[i] == ks[1..][i - 1];
    } else {
      assert ks[..0] == [];
    }
  }

  /** Every write of a file whose content lines all have valid keys (so every
      accepted file) has a lower-case alphanumeric key and a non-empty trimmed
      value. */
  lemma {:induction false} WritesShape(ks: seq<LineKind>)
    requires forall i :: 0 <= i < |ks| ==> WellFormed(ks[i])
    requires forall i :: 0 <= i < |ks| && !ks[i].Blank? ==> LineOk(ks[i])
    ensures forall k :: 0 <= k < |Writes(ks)| ==>
      IsLowerKey(Writes(ks)[k].0) && Writes(ks)[k].1 != [] && Trimmed(Writes(ks)[k].1)
  {
    if ks != [] {
      var rest := ks[1..];
      assert forall i :: 0 <= i < |rest| ==> rest[i] == ks[i + 1];
      WritesShape(rest);
      var w: seq<(string, string)> := if ks[0].Assignment? && ks[0].value != [] then [(Aliased(ks[0].key), ks[0].value)] else [];
      assert Writes(ks) == w + Writes(rest);
      if ks[0].Assignment? {
        AliasedIsCanonical(ks[0].key);
      }
    }
  }

  /** `parseConfig` succeeds exactly on files obeying the separator rule with
      valid keys; it then writes the per-line pairs into the file-data tier and
      touches nothing else, and on failure it reports the first refused line
      with the error that line gets. */
  lemma ParseConfigSpec(c: Config, text: string)
    ensures var ks := Kinds(Lines(text));
      var r := ParseConfig(c, text);
      && (r.Ok? <==> Accepted(ks, None))
      && (r.Ok? ==> r.value == c.(data := Assign(c.data, Writes(ks))))
      && (r.Err? ==>
            && (r.error.Expected? || r.error.InvalidOption?)
            && 0 < r.error.line <= |ks| && !ks[r.error.line - 1].Blank?
            && Accepted(ks[..r.error.line - 1], None)
            && ParseLine(ks[r.error.line - 1], r.error.line, StyleAfter(ks[..r.error.line - 1], None)) == Err(r.error))
  {
    var ks := Kinds(Lines(text));
    var p := ParseLines(ks, 0, None);
    ParseLinesAccepted(ks, 0, None);
    assert ParseConfig(c, text) == if p.Ok? then Ok(c.(data := Assign(c.data, p.value))) else Err(p.error);
    if p.Err? {
      ParseLinesErrorLine(ks, 0, None);
    }
  }

  /** Lines `a: b` then `c=d`: the second line breaks the colon style the first
      one set, so the parse stops at line 2 expecting `:`; alone, the second line
      would be accepted and fix the `=` style. */
  lemma MixedSeparators()
    ensures ParseLines([Assignment(Colon, "a", "b"), Assignment(Equals, "c", "d")], 0, None) == Err(Expected(':', 2))
    ensures ParseLines([Assignment(Equals, "c", "d")], 0, None) == Ok([("c", "d")])
  {
    var ks := [Assignment(Colon, "a", "b"), Assignment(Equals, "c", "d")];
    assert ks[1..] == [Assignment(Equals, "c", "d")];
    assert IsLowerKey("c") && Aliased("c") == "c";
    assert [Assignment(Equals, "c", "d")][1..] == [];
    assert ParseLine(Assignment(Equals, "c", "d"), 1, None) == Ok((Some(Equals), Some(("c", "d"))));
    assert ParseLines([], 1, Some(Equals)) == Ok([]);
    assert [("c", "d")] + [] == [("c", "d")];
  }

  /** A file without carriage returns or backslashes splits at its newlines. */
  lemma {:induction false} PlainLines(text: string)
    requires |text| == 0 || text[0] != '\U{FEFF}'
    requires '\r' !in text && '\\' !in text
    ensures Lines(text) == Split(text, '\n')
  {
    NoCarriageReturn(text);
    NoBackslash(text);
  }

  lemma {:induction false} NoCarriageReturn(t: string)
    requires '\r' !in t
    ensures NormalizeNewlines(t) == t
  {
    if t != [] {
      assert t == [t[0]] + t[1..];
      NoCarriageReturn(t[1..]);
    }
  }

  lemma {:induction false} NoBackslash(t: string)
    requires '\\' !in t
    ensures JoinContinuations(t) == t
  {
    if t != [] {
      assert t == [t[0]] + t[1..];
      NoBackslash(t[1..]);
    }
  }
}
