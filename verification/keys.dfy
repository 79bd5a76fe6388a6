/** Option-key predicates, canonical keys and the alias table (lib/config.js). */
module Keys {
  import opened Wrappers
  import opened Text

  predicate IsAlnum(c: char) {
    IsDigit(c) || IsLowerLetter(c) || IsUpperLetter(c)
  }

  /** `isAlpha`: `/^[a-z0-9]+$/`. */
  predicate IsAlpha(s: string) {
    |s| > 0 && forall i :: 0 <= i < |s| ==> IsLowerLetter(s[i]) || IsDigit(s[i])
  }

  /** `isKey`: `/^[a-zA-Z0-9]+$/`. */
  predicate IsKey(s: string) {
    |s| > 0 && forall i :: 0 <= i < |s| ==> IsAlnum(s[i])
  }

  /** `isLowerKey`: a key with no upper-case letter. */
  predicate IsLowerKey(s: string) {
    IsKey(s) && forall i :: 0 <= i < |s| ==> !IsUpperLetter(s[i])
  }

  /** `isUpperKey`: a key with no lower-case letter. */
  predicate IsUpperKey(s: string) {
    IsKey(s) && forall i :: 0 <= i < |s| ==> !IsLowerLetter(s[i])
  }

  /** A lower-case key is exactly a string `isAlpha` accepts, and the
      lower-casing of an upper-case key is one. */
  lemma LowerKeyIsAlpha(s: string)
    ensures IsLowerKey(s) <==> IsAlpha(s)
    ensures IsUpperKey(s) ==> IsLowerKey(Lower(s))
  {
  }

  /** The canonical form every lookup uses: hyphens removed, letters lower-cased. */
  function Canon(k: string): (r: string)
    ensures '-' !in r
    ensures forall i :: 0 <= i < |r| ==> !IsUpperLetter(r[i])
    ensures |r| <= |k|
  {
    Lower(Remove(k, '-'))
  }

  lemma {:induction false} RemoveAppend(a: string, b: string, c: char)
    ensures Remove(a + b, c) == Remove(a, c) + Remove(b, c)
  {
    if a != [] {
      assert (a + b)[1..] == a[1..] + b;
      RemoveAppend(a[1..], b, c);
    } else {
      assert a + b == b;
    }
  }

  lemma UpperAppend(a: string, b: string)
    ensures Upper(a + b) == Upper(a) + Upper(b)
  {
  }

  lemma LowerAppend(a: string, b: string)
    ensures Lower(a + b) == Lower(a) + Lower(b)
  {
  }

  /** Case mapping never creates or removes a hyphen, so it commutes with
      hyphen removal. */
  lemma {:induction false} RemoveUpper(s: string)
    ensures Remove(Upper(s), '-') == Upper(Remove(s, '-'))
  {
    if s != [] {
      var head: string := if s[0] == '-' then [] else [s[0]];
      assert Upper(s) == [UpperChar(s[0])] + Upper(s[1..]);
      RemoveUpper(s[1..]);
      UpperAppend(head, Remove(s[1..], '-'));
    }
  }

  lemma {:induction false} RemoveLower(s: string)
    ensures Remove(Lower(s), '-') == Lower(Remove(s, '-'))
  {
    if s != [] {
      var head: string := if s[0] == '-' then [] else [s[0]];
      assert Lower(s) == [LowerChar(s[0])] + Lower(s[1..]);
      RemoveLower(s[1..]);
      LowerAppend(head, Remove(s[1..], '-'));
    }
  }

  lemma LowerOfUpper(s: string)
    ensures Lower(Upper(s)) == Lower(s)
  {
    forall i | 0 <= i < |s|
      ensures LowerChar(UpperChar(s[i])) == LowerChar(s[i])
    {
    }
  }

  /** Keys that differ only in letter case are the same key. */
  lemma CanonCaseInsensitive(a: string)
    ensures Canon(Upper(a)) == Canon(a)
    ensures Canon(Lower(a)) == Canon(a)
  {
    RemoveUpper(a);
    RemoveLower(a);
    LowerOfUpper(Remove(a, '-'));
    LowerLower(Remove(a, '-'));
  }

  lemma LowerLower(s: string)
    ensures Lower(Lower(s)) == Lower(s)
  {
    LowerNoUpper(Lower(s));
  }

  /** Keys that differ only in hyphens are the same key. */
  lemma CanonHyphenInsensitive(a: string, b: string)
    ensures Canon(a + "-" + b) == Canon(a + b)
  {
    RemoveAppend(a + "-", b, '-');
    RemoveAppend(a, "-", '-');
    assert Remove("-", '-') == [];
    assert Remove(a + "-", '-') == Remove(a, '-');
    RemoveAppend(a, b, '-');
  }

  /** Canonicalising twice changes nothing. */
  lemma CanonIdempotent(k: string)
    ensures Canon(Canon(k)) == Canon(k)
  {
    var r := Canon(k);
    assert Remove(r, '-') == r;
  }

  /** A lower-case key is already canonical. */
  lemma CanonOfLowerKey(k: string)
    requires IsLowerKey(k)
    ensures Canon(k) == k
  {
    LowerNoUpper(k);
  }

  /** `Config.ALIAS`, looked up with own properties only. */
  function Alias(k: string): Option<string> {
    if k == "seed" then Some("seeds")
    else if k == "node" then Some("nodes")
    else if k == "n" then Some("network")
    else None
  }

  /** The alias target when there is one, the key itself otherwise. */
  function Aliased(k: string): (r: string)
    ensures Alias(k).None? ==> r == k
  {
    match Alias(k)
    case Some(t) => t
    case None => k
  }

  /** Aliasing, skipped for one-character keys (argument and environment parsers). */
  function AliasedLong(k: string): string {
    if |k| > 1 then Aliased(k) else k
  }

  /** Aliasing keeps a lower-case key a lower-case key, so what a parser stores
      under an aliased key stays reachable through the canonical lookup. */
  lemma AliasedIsCanonical(k: string)
    requires IsLowerKey(k)
    ensures IsLowerKey(Aliased(k)) && Canon(Aliased(k)) == Aliased(k)
    ensures IsLowerKey(AliasedLong(k)) && Canon(AliasedLong(k)) == AliasedLong(k)
  {
    CanonOfLowerKey(Aliased(k));
    CanonOfLowerKey(AliasedLong(k));
  }

  /** The string JavaScript produces when the `Object` constructor is used as a
      property name. */
  const ObjectFunctionText: string := "function Object() { [native code] }"

  /** `Config.ALIAS[key]` as the source evaluates it: the table is an object
      literal, so a lookup also sees `Object.prototype`, and the only all-lower-case
      alphanumeric name there, `constructor`, yields the `Object` function. */
  function AliasAsWritten(k: string): Option<string> {
    if k == "constructor" then Some(ObjectFunctionText) else Alias(k)
  }

  function AliasedAsWritten(k: string): string {
    match AliasAsWritten(k)
    case Some(t) => t
    case None => k
  }

  /** An option named `constructor` passes the key check but is stored under a
      key that no canonical lookup can ever produce, so it is silently lost. */
  lemma ConstructorKeyUnreachable(name: string)
    ensures IsLowerKey("constructor")
    ensures AliasedAsWritten("constructor") != "constructor"
    ensures Canon(name) != AliasedAsWritten("constructor")
  {
    assert AliasedAsWritten("constructor")[9] == 'O';
  }
}
