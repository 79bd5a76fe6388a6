/** `Config.parseForm` of lib/config.js, behind `parseQuery` and `parseHash`:
    `key=value&…` strings from a URL's query or fragment. */
module Form {
  import opened Wrappers
  import opened Text
  import opened Keys
  import opened Store

  /** Which tier a form string feeds, and so which leading mark it may carry. */
  datatype FormKind = QueryForm | HashForm

  function Lead(kind: FormKind): char {
    if kind == QueryForm then '?' else '#'
  }

  const Nul: char := '\U{0000}'

  /** The module's `unescape`: `decodeURIComponent` (the `decode` parameter,
      `None` where it throws), then `+` as space when decoding succeeded, then
      every NUL removed. */
  function Unescape(s: string, decode: string -> Option<string>): (r: string)
    ensures Nul !in r
    ensures decode(s).None? ==> r == Remove(s, Nul) && ('+' in s ==> '+' in r)
    ensures decode(s).Some? ==> '+' !in r
    ensures decode(s).Some? && '+' !in decode(s).value && Nul !in decode(s).value ==> r == decode(s).value
  {
    var d := match decode(s) case Some(t) => ReplaceChar(t, '+', ' ') case None => s;
    if '+' in s && decode(s).None? then
      RemoveKeeps(s, Nul, '+');
      Remove(d, Nul)
    else Remove(d, Nul)
  }

  /** After a successful decode free of NUL, unescaping turns every `+` of the
      decoded text into a space and keeps every other character in place. */
  lemma UnescapePlus(s: string, decode: string -> Option<string>)
    requires decode(s).Some? && Nul !in decode(s).value
    ensures |Unescape(s, decode)| == |decode(s).value|
    ensures forall i :: 0 <= i < |decode(s).value| ==>
      Unescape(s, decode)[i] == (if decode(s).value[i] == '+' then ' ' else decode(s).value[i])
  {
    var t := decode(s).value;
    var d := ReplaceChar(t, '+', ' ');
    assert Nul !in d by {
      forall i | 0 <= i < |d| ensures d[i] != Nul {
        assert t[i] in t;
      }
    }
    assert Unescape(s, decode) == Remove(d, Nul) == d;
  }

  /** Key and value of one `&`-separated pair: split at the first `=`, and a
      pair without `=` is the flag `true`. */
  function PairParts(pair: string): (r: (string, string))
    ensures '=' !in r.0
    ensures '=' in pair ==> pair == r.0 + "=" + r.1
    ensures '=' !in pair ==> r == (pair, "true")
  {
    match IndexOf(pair, '=')
    case Some(i) =>
      assert pair == pair[..i] + "=" + pair[i + 1..];
      (pair[..i], pair[i + 1..])
    case None => (pair, "true")
  }

  /** What one pair contributes: nothing when the unescaped, hyphen-stripped key
      is not lower-case alphanumeric or the unescaped value is empty; otherwise
      the aliased key (one-character keys included) and the value. */
  function PairWrite(pair: string, decode: string -> Option<string>): (r: Option<(string, string)>)
    ensures r.Some? ==> IsLowerKey(r.value.0) && Canon(r.value.0) == r.value.0
    ensures r.Some? ==> r.value.1 != [] && Nul !in r.value.1
  {
    var (k, v) := PairParts(pair);
    var key := Remove(Unescape(k, decode), '-');
    if !IsLowerKey(key) then None
    else
      var value := Unescape(v, decode);
      if value == [] then None
      else
        AliasedIsCanonical(key);
        Some((Aliased(key), value))
  }

  function PairWrites(pairs: seq<string>, decode: string -> Option<string>): seq<(string, string)> {
    if pairs == [] then []
    else
      var w := PairWrite(pairs[0], decode);
      (if w.Some? then [w.value] else []) + PairWrites(pairs[1..], decode)
  }

  /** The writes of a form string: none for the empty string, otherwise the
      pairs after at most one leading mark. */
  function FormWrites(form: string, kind: FormKind, decode: string -> Option<string>): seq<(string, string)> {
    if form == [] then []
    else
      var body := if form[0] == Lead(kind) then form[1..] else form;
      PairWrites(Split(body, '&'), decode)
  }

  /** `parseQuery` / `parseHash` given a string: the writes go to the query or
      the hash tier. */
  function ParseForm(c: Config, form: string, kind: FormKind, decode: string -> Option<string>): (r: Config)
    ensures kind == QueryForm ==> r.(query := c.query) == c
    ensures kind == HashForm ==> r.(hash := c.hash) == c
  {
    var ws := FormWrites(form, kind, decode);
    match kind
    case QueryForm => c.(query := Assign(c.query, ws))
    case HashForm => c.(hash := Assign(c.hash, ws))
  }

  /** Every write has a lower-case key that lookups reach unchanged, and a
      non-empty value without NUL characters. */
  lemma {:induction false} PairWritesShape(pairs: seq<string>, decode: string -> Option<string>)
    ensures forall i :: 0 <= i < |PairWrites(pairs, decode)| ==>
      var w := PairWrites(pairs, decode)[i];
      IsLowerKey(w.0) && Canon(w.0) == w.0 && w.1 != [] && Nul !in w.1
  {
    if pairs != [] {
      PairWritesShape(pairs[1..], decode);
    }
  }

  /** Text `decodeURIComponent` returns unchanged and that `unescape` leaves
      alone: no `%` escapes, no `+`, no NUL, and no `&` to split at. */
  predicate Plain(s: string) {
    '%' !in s && '+' !in s && Nul !in s && '&' !in s
  }

  /** `decodeURIComponent` on text without `%`: the text itself. */
  ghost predicate DecodesPlainText(decode: string -> Option<string>) {
    forall s :: '%' !in s ==> decode(s) == Some(s)
  }

  lemma UnescapePlain(s: string, decode: string -> Option<string>)
    requires DecodesPlainText(decode) && Plain(s)
    ensures Unescape(s, decode) == s
  {
    assert ReplaceChar(s, '+', ' ') == s;
  }

  /** The form a caller would build from key/value pairs. */
  function Render(pairs: seq<(string, string)>): (r: seq<string>)
    ensures |r| == |pairs|
    ensures forall i :: 0 <= i < |pairs| ==> r[i] == pairs[i].0 + "=" + pairs[i].1
  {
    seq(|pairs|, i requires 0 <= i < |pairs| => pairs[i].0 + "=" + pairs[i].1)
  }

  /** The pairs a parser stores: each key through the alias table. */
  function AliasAll(pairs: seq<(string, string)>): (r: seq<(string, string)>)
    ensures |r| == |pairs|
    ensures forall i :: 0 <= i < |pairs| ==> r[i] == (Aliased(pairs[i].0), pairs[i].1)
  {
    seq(|pairs|, i requires 0 <= i < |pairs| => (Aliased(pairs[i].0), pairs[i].1))
  }

  /** Pairs a caller can send verbatim. */
  predicate Sendable(pairs: seq<(string, string)>) {
    forall i :: 0 <= i < |pairs| ==> IsLowerKey(pairs[i].0) && pairs[i].1 != [] && Plain(pairs[i].1)
  }

  lemma PairWriteRendered(key: string, value: string, decode: string -> Option<string>)
    requires DecodesPlainText(decode)
    requires IsLowerKey(key) && value != [] && Plain(value)
    ensures PairWrite(key + "=" + value, decode) == Some((Aliased(key), value))
  {
    var pair := key + "=" + value;
    assert forall i :: 0 <= i < |key| ==> key[i] != '=' && key[i] != '%' && key[i] != '+' && key[i] != Nul && key[i] != '&';
    assert pair[..|key|] == key && pair[|key|] == '=';
    IndexOfAt(pair, '=', |key|);
    assert pair[|key| + 1..] == value;
    UnescapePlain(key, decode);
    UnescapePlain(value, decode);
    CanonOfLowerKey(key);
    assert '-' !in key;
  }

  lemma {:induction false} PairWritesRendered(pairs: seq<(string, string)>, decode: string -> Option<string>)
    requires DecodesPlainText(decode) && Sendable(pairs)
    ensures PairWrites(Render(pairs), decode) == AliasAll(pairs)
  {
    if pairs != [] {
      PairWriteRendered(pairs[0].0, pairs[0].1, decode);
      RenderedTail(pairs);
      PairWritesRendered(pairs[1..], decode);
      AliasAllCons(pairs);
    }
  }

  lemma RenderedTail(pairs: seq<(string, string)>)
    requires pairs != [] && Sendable(pairs)
    ensures Render(pairs)[0] == pairs[0].0 + "=" + pairs[0].1
    ensures Render(pairs)[1..] == Render(pairs[1..])
    ensures Sendable(pairs[1..])
  {
    forall i | 0 <= i < |pairs| - 1 ensures pairs[1..][i] == pairs[i + 1] { }
  }

  lemma AliasAllCons(pairs: seq<(string, string)>)
    requires pairs != []
    ensures AliasAll(pairs) == [(Aliased(pairs[0].0), pairs[0].1)] + AliasAll(pairs[1..])
  {
  }

  lemma RenderedPieces(pairs: seq<(string, string)>)
    requires Sendable(pairs)
    ensures forall i :: 0 <= i < |pairs| ==> '&' !in Render(pairs)[i]
  {
    forall i | 0 <= i < |pairs| ensures '&' !in Render(pairs)[i] {
      var k := pairs[i].0;
      assert forall j :: 0 <= j < |k| ==> k[j] != '&';
    }
  }

  /** Parsing a form rendered from sendable pairs, with or without the leading
      mark, recovers the pairs (keys through the alias table), in order. */
  lemma FormRoundTrip(pairs: seq<(string, string)>, kind: FormKind, decode: string -> Option<string>)
    requires DecodesPlainText(decode) && Sendable(pairs) && pairs != []
    ensures FormWrites([Lead(kind)] + Join(Render(pairs), '&'), kind, decode) == AliasAll(pairs)
    ensures Join(Render(pairs), '&') != [] && Join(Render(pairs), '&')[0] != Lead(kind) ==>
      FormWrites(Join(Render(pairs), '&'), kind, decode) == AliasAll(pairs)
  {
    RenderedPieces(pairs);
    SplitJoin(Render(pairs), '&');
    PairWritesRendered(pairs, decode);
    var form := [Lead(kind)] + Join(Render(pairs), '&');
    assert form[1..] == Join(Render(pairs), '&');
  }

  /** A form can only fill the tier it is parsed into: the query or the hash. */
  lemma ParseFormFrame(c: Config, form: string, kind: FormKind, decode: string -> Option<string>)
    ensures kind == QueryForm ==> ParseForm(c, form, kind, decode).(query := c.query) == c
    ensures kind == HashForm ==> ParseForm(c, form, kind, decode).(hash := c.hash) == c
    ensures form == [] ==> ParseForm(c, form, kind, decode) == c
  {
  }

  /** A pair whose key is invalid after hyphen stripping is skipped rather than
      rejected. */
  lemma SkippedPairs(key: string, decode: string -> Option<string>)
    requires DecodesPlainText(decode) && Plain(key) && '=' !in key
    requires !IsLowerKey(Remove(key, '-'))
    ensures PairWrite(key + "=x", decode).None?
    ensures PairWrite(key, decode).None?
  {
    var pair := key + "=x";
    assert pair[..|key|] == key && pair[|key|] == '=';
    IndexOfAt(pair, '=', |key|);
    UnescapePlain(key, decode);
  }

  /** A pair with an empty value is skipped, whatever its key. */
  lemma EmptyValueSkipped(key: string, decode: string -> Option<string>)
    requires DecodesPlainText(decode) && '=' !in key
    ensures PairWrite(key + "=", decode).None?
  {
    var pair := key + "=";
    assert pair[..|key|] == key && pair[|key|] == '=';
    IndexOfAt(pair, '=', |key|);
    assert pair[|key| + 1..] == [];
    assert decode([]) == Some([]);
  }

  /** `decode` undoes the encoding `enc`, whose output never holds `=` or `&`. */
  ghost predicate Inverts(enc: string -> string, decode: string -> Option<string>) {
    forall x :: decode(enc(x)) == Some(x) && '=' !in enc(x) && '&' !in enc(x)
  }

  /** A pair built from an encoded key and an encoded value is read back as the
      key (aliased) and the value, provided the value holds no `+` or NUL that
      `unescape` would change. */
  lemma PairWriteEncoded(enc: string -> string, decode: string -> Option<string>, key: string, value: string)
    requires Inverts(enc, decode)
    requires IsLowerKey(key) && value != [] && '+' !in value && Nul !in value
    ensures PairWrite(enc(key) + "=" + enc(value), decode) == Some((Aliased(key), value))
  {
    var ek := enc(key);
    var ev := enc(value);
    var pair := ek + "=" + ev;
    assert decode(ek) == Some(key) && '=' !in ek;
    assert decode(ev) == Some(value);
    assert pair[..|ek|] == ek && pair[|ek|] == '=';
    IndexOfAt(pair, '=', |ek|);
    assert pair[|ek| + 1..] == ev;
    assert forall i :: 0 <= i < |key| ==> key[i] != '+' && key[i] != Nul && key[i] != '-';
    assert Unescape(ek, decode) == key;
    assert Unescape(ev, decode) == value;
  }
}
