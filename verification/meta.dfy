/** The transaction records an address page lists (lib/node/info.js): the
    duplicate filter applied to mempool records and the newest-first comparator
    the list is sorted with. */
module Meta {
  import opened Wrappers

  /** A transaction record as the helpers see it: the transaction's hash, its
      block time (0 when unconfirmed) and the time it entered the mempool. */
  datatype TxMeta = TxMeta(hash: string, time: int, mtime: int)

  /** The time a record is sorted by: the block time when it is set (non-zero),
      otherwise the mempool time. */
  function When(m: TxMeta): int {
    if m.time != 0 then m.time else m.mtime
  }

  /** `compare(a, b)`: 1 when `a` is older, -1 when newer, 0 when the times tie. */
  function Compare(a: TxMeta, b: TxMeta): (r: int)
    ensures r == 1 <==> When(a) < When(b)
    ensures r == -1 <==> When(b) < When(a)
    ensures r == 0 <==> When(a) == When(b)
  {
    if When(a) < When(b) then 1 else if When(b) < When(a) then -1 else 0
  }

  /** `compare` is a consistent comparator: antisymmetric, reflexive on ties and
      transitive, so sorting with it puts the newest record first. */
  lemma CompareOrder(a: TxMeta, b: TxMeta, c: TxMeta)
    ensures Compare(a, b) == -Compare(b, a)
    ensures Compare(a, a) == 0
    ensures Compare(a, b) <= 0 && Compare(b, c) <= 0 ==> Compare(a, c) <= 0
    ensures Compare(a, b) < 0 ==> When(a) > When(b)
  {
  }

  /** A list sorted by `compare`: every record is at least as new as the ones
      after it. */
  predicate NewestFirst(s: seq<TxMeta>) {
    forall i, j :: 0 <= i < j < |s| ==> Compare(s[i], s[j]) <= 0
  }

  lemma NewestFirstTimes(s: seq<TxMeta>)
    requires NewestFirst(s)
    ensures forall i, j :: 0 <= i < j < |s| ==> When(s[i]) >= When(s[j])
  {
  }

  /** The hashes occurring in a list of records. */
  function Hashes(s: seq<TxMeta>): set<string> {
    set m | m in s :: m.hash
  }

  /** No two records share a hash. */
  predicate Distinct(s: seq<TxMeta>) {
    forall i, j :: 0 <= i < j < |s| ==> s[i].hash != s[j].hash
  }

  /** `a` is `b` with some records dropped and the rest in order. */
  predicate Subsequence(a: seq<TxMeta>, b: seq<TxMeta>)
    decreases |b|
  {
    a == [] || (b != [] && ((a[0] == b[0] && Subsequence(a[1..], b[1..])) || Subsequence(a, b[1..])))
  }

  /** The first record with hash `h`, if any. */
  function FirstWith(s: seq<TxMeta>, h: string): Option<TxMeta> {
    if s == [] then None else if s[0].hash == h then Some(s[0]) else FirstWith(s[1..], h)
  }

  /** The reference filter: the records of `s` whose hash is neither in `seen`
      nor on an earlier record. */
  function KeepFirst(s: seq<TxMeta>, seen: set<string>): seq<TxMeta> {
    if s == [] then []
    else if s[0].hash in seen then KeepFirst(s[1..], seen)
    else [s[0]] + KeepFirst(s[1..], seen + {s[0].hash})
  }

  lemma HashesCons(s: seq<TxMeta>)
    requires s != []
    ensures Hashes(s) == {s[0].hash} + Hashes(s[1..])
  {
    assert s == [s[0]] + s[1..];
    forall h | h in Hashes(s) ensures h in {s[0].hash} + Hashes(s[1..]) {
      var m :| m in s && m.hash == h;
      if m != s[0] {
        assert m in s[1..];
      }
    }
  }

  /** The filter keeps no hash twice and none that was already seen. */
  lemma {:induction false} KeepFirstDistinct(s: seq<TxMeta>, seen: set<string>)
    ensures var r := KeepFirst(s, seen);
      Distinct(r) && forall i :: 0 <= i < |r| ==> r[i].hash !in seen
    decreases |s|
  {
    if s != [] {
      if s[0].hash in seen {
        KeepFirstDistinct(s[1..], seen);
      } else {
        KeepFirstDistinct(s[1..], seen + {s[0].hash});
        var r := KeepFirst(s, seen);
        assert r[1..] == KeepFirst(s[1..], seen + {s[0].hash});
      }
    }
  }

  /** The filter drops whole hashes only: every hash not seen before survives. */
  lemma {:induction false} KeepFirstHashes(s: seq<TxMeta>, seen: set<string>)
    ensures Hashes(KeepFirst(s, seen)) == Hashes(s) - seen
    decreases |s|
  {
    if s != [] {
      HashesCons(s);
      var r := KeepFirst(s, seen);
      if s[0].hash in seen {
        KeepFirstHashes(s[1..], seen);
      } else {
        KeepFirstHashes(s[1..], seen + {s[0].hash});
        HashesCons(r);
        assert r[1..] == KeepFirst(s[1..], seen + {s[0].hash});
      }
    }
  }

  /** The filter keeps records in their order. */
  lemma {:induction false} KeepFirstSubsequence(s: seq<TxMeta>, seen: set<string>)
    ensures Subsequence(KeepFirst(s, seen), s)
    decreases |s|
  {
    if s != [] {
      var r := KeepFirst(s, seen);
      if s[0].hash in seen {
        KeepFirstSubsequence(s[1..], seen);
      } else {
        KeepFirstSubsequence(s[1..], seen + {s[0].hash});
        assert r[0] == s[0] && r[1..] == KeepFirst(s[1..], seen + {s[0].hash});
      }
    }
  }

  /** Each kept record is the first one carrying its hash. */
  lemma {:induction false} KeepFirstIsFirst(s: seq<TxMeta>, seen: set<string>)
    ensures var r := KeepFirst(s, seen);
      forall i :: 0 <= i < |r| ==> FirstWith(s, r[i].hash) == Some(r[i])
    decreases |s|
  {
    if s != [] {
      var r := KeepFirst(s, seen);
      if s[0].hash in seen {
        KeepFirstIsFirst(s[1..], seen);
        KeepFirstDistinct(s[1..], seen);
      } else {
        var seen' := seen + {s[0].hash};
        KeepFirstIsFirst(s[1..], seen');
        KeepFirstDistinct(s[1..], seen');
        assert r[1..] == KeepFirst(s[1..], seen');
        forall i | 1 <= i < |r| ensures FirstWith(s, r[i].hash) == Some(r[i]) {
          assert r[i] == r[1..][i - 1];
        }
      }
    }
  }

  /** The effective `filtermeta` (the later of the two definitions): one pass
      that remembers each hash it keeps and drops every later record with a
      remembered hash. */
  method FilterMeta(meta: seq<TxMeta>) returns (r: seq<TxMeta>)
    ensures r == KeepFirst(meta, {})
    ensures Distinct(r) && Subsequence(r, meta) && Hashes(r) == Hashes(meta)
    ensures forall i :: 0 <= i < |r| ==> FirstWith(meta, r[i].hash) == Some(r[i])
  {
    var d: seq<string> := [];
    r := [];
    var i := 0;
    assert meta[0..] == meta;
    assert (set h | h in d) == {};
    while i < |meta|
      invariant 0 <= i <= |meta|
      invariant r + KeepFirst(meta[i..], set h | h in d) == KeepFirst(meta, {})
      invariant (set h | h in d) == Hashes(r)
    {
      var e := meta[i];
      var seen := set h | h in d;
      assert meta[i..][0] == e && meta[i..][1..] == meta[i + 1..];
      if e.hash !in d {
        assert KeepFirst(meta[i..], seen) == [e] + KeepFirst(meta[i + 1..], seen + {e.hash});
        assert r + ([e] + KeepFirst(meta[i + 1..], seen + {e.hash})) == (r + [e]) + KeepFirst(meta[i + 1..], seen + {e.hash});
        HashesAppend(r, e);
        d := d + [e.hash];
        r := r + [e];
        assert (set h | h in d) == seen + {e.hash};
      } else {
        assert KeepFirst(meta[i..], seen) == KeepFirst(meta[i + 1..], seen);
      }
      i := i + 1;
    }
    KeepFirstDistinct(meta, {});
    KeepFirstSubsequence(meta, {});
    KeepFirstHashes(meta, {});
    KeepFirstIsFirst(meta, {});
  }

  lemma HashesAppend(s: seq<TxMeta>, m: TxMeta)
    ensures Hashes(s + [m]) == Hashes(s) + {m.hash}
  {
    forall h | h in Hashes(s + [m]) ensures h in Hashes(s) + {m.hash} {
      var x :| x in s + [m] && x.hash == h;
      if x != m {
        assert x in s;
      }
    }
    assert forall x :: x in s ==> x in s + [m];
  }
}
