/** `age(time, true)` of lib/node/info.js, the duration text of the node's
    uptime: the seconds split greedily into years down to seconds, and the first
    two non-zero amounts written out, largest first. */
module Age {
  import opened Text

  datatype Unit = Year | Month | Week | Day | Hour | Minute | Second

  /** The units in the order the source enumerates them. */
  const Units: seq<Unit> := [Year, Month, Week, Day, Hour, Minute, Second]

  /** Seconds per unit; a month is 30 days and a year 365. */
  function Size(u: Unit): (n: nat)
    ensures n >= 1
  {
    match u
    case Year => 31536000
    case Month => 2592000
    case Week => 604800
    case Day => 86400
    case Hour => 3600
    case Minute => 60
    case Second => 1
  }

  function Name(u: Unit): string {
    match u
    case Year => "year"
    case Month => "month"
    case Week => "week"
    case Day => "day"
    case Hour => "hour"
    case Minute => "minute"
    case Second => "second"
  }

  /** The amounts of each unit: the floor of what is left over the unit's size,
      and what remains after taking them away. */
  function Decompose(d: int, us: seq<Unit>): (r: seq<int>)
    ensures |r| == |us|
    ensures d >= 0 ==> forall i :: 0 <= i < |r| ==> r[i] >= 0
    decreases |us|
  {
    if us == [] then [] else [d / Size(us[0])] + Decompose(d % Size(us[0]), us[1..])
  }

  /** The seconds the amounts stand for. */
  function Total(counts: seq<int>, us: seq<Unit>): int
    requires |counts| == |us|
  {
    if us == [] then 0 else counts[0] * Size(us[0]) + Total(counts[1..], us[1..])
  }

  /** What is left after the last unit. */
  function Leftover(d: int, us: seq<Unit>): int
    decreases |us|
  {
    if us == [] then d else Leftover(d % Size(us[0]), us[1..])
  }

  lemma {:induction false} DecomposeTotal(d: int, us: seq<Unit>)
    ensures Total(Decompose(d, us), us) == d - Leftover(d, us)
    decreases |us|
  {
    if us != [] {
      var s := Size(us[0]);
      DecomposeTotal(d % s, us[1..]);
      assert d == (d / s) * s + d % s;
      assert Decompose(d, us)[1..] == Decompose(d % s, us[1..]);
    }
  }

  lemma LeftoverSeconds(d: int)
    ensures Leftover(d, Units) == 0
  {
    var us := Units;
    var x1 := d % 31536000;
    var x2 := x1 % 2592000;
    var x3 := x2 % 604800;
    var x4 := x3 % 86400;
    var x5 := x4 % 3600;
    var x6 := x5 % 60;
    assert Leftover(x6, [Second]) == Leftover(0, []) == 0;
    assert Leftover(x5, [Minute, Second]) == 0;
    assert Leftover(x4, [Hour, Minute, Second]) == 0;
    assert Leftover(x3, [Day, Hour, Minute, Second]) == 0;
    assert Leftover(x2, [Week, Day, Hour, Minute, Second]) == 0;
    assert Leftover(x1, [Month, Week, Day, Hour, Minute, Second]) == 0;
  }

  /** After the largest unit, each amount covers less than one of the unit
      before it. */
  lemma {:induction false} DecomposeBounds(d: int, us: seq<Unit>)
    ensures var c := Decompose(d, us);
      forall i :: 1 <= i < |us| ==> 0 <= c[i] * Size(us[i]) < Size(us[i - 1])
    decreases |us|
  {
    if |us| >= 2 {
      var s := Size(us[0]);
      var rest := d % s;
      var tail := us[1..];
      var c := Decompose(d, us);
      var c' := Decompose(rest, tail);
      DecomposeBounds(rest, tail);
      assert c == [d / s] + c';
      assert c'[0] == rest / Size(tail[0]);
      DivBound(rest, Size(tail[0]));
      forall i | 1 <= i < |us| ensures 0 <= c[i] * Size(us[i]) < Size(us[i - 1]) {
        assert c[i] == c'[i - 1] && us[i] == tail[i - 1];
        if i >= 2 {
          assert us[i - 1] == tail[i - 2];
        }
      }
    }
  }

  lemma DivBound(n: int, d: int)
    requires 0 <= n && d >= 1
    ensures 0 <= (n / d) * d <= n
  {
    assert n == (n / d) * d + n % d;
  }

  /** The greedy split of `t` seconds: the amounts add back up to `t`, and every
      amount after the years is a whole number below one of the next larger
      unit. */
  lemma GreedySplit(t: int)
    ensures Total(Decompose(t, Units), Units) == t
    ensures var c := Decompose(t, Units);
      forall i :: 1 <= i < |Units| ==> 0 <= c[i] * Size(Units[i]) < Size(Units[i - 1])
  {
    DecomposeTotal(t, Units);
    LeftoverSeconds(t);
    DecomposeBounds(t, Units);
  }

  /** The amounts the text shows: up to `budget` of the non-zero ones, in
      enumeration order. */
  function Shown(counts: seq<int>, us: seq<Unit>, budget: nat): seq<(int, Unit)>
    requires |counts| == |us|
  {
    if us == [] then []
    else if counts[0] != 0 && budget > 0 then [(counts[0], us[0])] + Shown(counts[1..], us[1..], budget - 1)
    else Shown(counts[1..], us[1..], budget)
  }

  /** Every non-zero amount, in enumeration order. */
  function NonZero(counts: seq<int>, us: seq<Unit>): seq<(int, Unit)>
    requires |counts| == |us|
  {
    if us == [] then []
    else (if counts[0] != 0 then [(counts[0], us[0])] else []) + NonZero(counts[1..], us[1..])
  }

  /** What is shown is the first `budget` non-zero amounts. */
  lemma {:induction false} ShownPrefix(counts: seq<int>, us: seq<Unit>, budget: nat)
    requires |counts| == |us|
    ensures var nz := NonZero(counts, us);
      Shown(counts, us, budget) == nz[..if budget < |nz| then budget else |nz|]
    decreases |us|
  {
    if us != [] {
      if counts[0] != 0 && budget > 0 {
        ShownPrefix(counts[1..], us[1..], budget - 1);
      } else if counts[0] != 0 {
        ShownPrefix(counts[1..], us[1..], budget);
        var nz := NonZero(counts, us);
        assert nz[..0] == [];
      } else {
        ShownPrefix(counts[1..], us[1..], budget);
        assert NonZero(counts, us) == NonZero(counts[1..], us[1..]);
      }
    }
  }

  /** Position of a unit in the enumeration; larger units come first. */
  function Rank(u: Unit): nat {
    match u
    case Year => 0
    case Month => 1
    case Week => 2
    case Day => 3
    case Hour => 4
    case Minute => 5
    case Second => 6
  }

  lemma LargerFirst(u: Unit, v: Unit)
    requires Rank(u) < Rank(v)
    ensures Size(u) > Size(v)
  {
  }

  /** One shown amount: a space, the number, a space and the unit, with an `s`
      when the number is more than one. */
  function Piece(n: int, u: Unit): (r: string)
    ensures |r| >= 2 && r[0] == ' '
  {
    " " + ShowInt(n) + " " + Name(u) + (if n > 1 then "s" else "")
  }

  function Pieces(parts: seq<(int, Unit)>): (r: string)
    ensures r == [] <==> parts == []
    ensures r != [] ==> r[0] == ' '
  {
    if parts == [] then "" else Piece(parts[0].0, parts[0].1) + Pieces(parts[1..])
  }

  /** The amounts `age(t, true)` shows. */
  function AgeParts(t: int): seq<(int, Unit)> {
    Shown(Decompose(t, Units), Units, 2)
  }

  /** `age(t, true)`: empty exactly when no amount is shown, and otherwise
      starting with the space before the first amount. */
  function Age(t: int): (r: string)
    ensures r == [] <==> AgeParts(t) == []
    ensures r != [] ==> r[0] == ' '
  {
    Pieces(AgeParts(t))
  }

  lemma {:induction false} NonZeroFacts(counts: seq<int>, us: seq<Unit>)
    requires |counts| == |us|
    ensures forall k :: 0 <= k < |NonZero(counts, us)| ==>
      NonZero(counts, us)[k].0 != 0 && NonZero(counts, us)[k].1 in us
    decreases |us|
  {
    if us != [] {
      NonZeroFacts(counts[1..], us[1..]);
      var nz := NonZero(counts, us);
      var tail := NonZero(counts[1..], us[1..]);
      assert forall x :: x in us[1..] ==> x in us;
      if counts[0] != 0 {
        assert nz == [(counts[0], us[0])] + tail;
        forall k | 1 <= k < |nz| ensures nz[k].0 != 0 && nz[k].1 in us {
          assert nz[k] == tail[k - 1];
        }
      } else {
        assert nz == tail;
      }
    }
  }

  /** Units listed without repetition keep their order among the non-zero
      amounts. */
  lemma {:induction false} NonZeroOrdered(counts: seq<int>, us: seq<Unit>)
    requires |counts| == |us|
    requires forall i, j :: 0 <= i < j < |us| ==> Rank(us[i]) < Rank(us[j])
    ensures forall a, b :: 0 <= a < b < |NonZero(counts, us)| ==>
      Rank(NonZero(counts, us)[a].1) < Rank(NonZero(counts, us)[b].1)
    decreases |us|
  {
    if us != [] {
      NonZeroOrdered(counts[1..], us[1..]);
      NonZeroFacts(counts[1..], us[1..]);
      var tail := NonZero(counts[1..], us[1..]);
      forall k | 0 <= k < |tail| ensures Rank(us[0]) < Rank(tail[k].1) {
        assert tail[k].1 in us[1..];
        var i :| 0 <= i < |us[1..]| && us[1..][i] == tail[k].1;
        assert us[1..][i] == us[i + 1];
      }
      var nz := NonZero(counts, us);
      if counts[0] != 0 {
        assert nz == [(counts[0], us[0])] + tail;
        forall a, b | 0 <= a < b < |nz| ensures Rank(nz[a].1) < Rank(nz[b].1) {
          if a > 0 {
            assert nz[a] == tail[a - 1] && nz[b] == tail[b - 1];
          } else {
            assert nz[b] == tail[b - 1];
          }
        }
      } else {
        assert nz == tail;
      }
    }
  }

  /** The text shows at most two amounts, all non-zero, with the larger unit
      first, and exactly the first two non-zero amounts of the greedy split. */
  lemma AgeShape(t: int)
    ensures var parts := AgeParts(t);
      var nz := NonZero(Decompose(t, Units), Units);
      && |parts| <= 2
      && parts == nz[..if |nz| < 2 then |nz| else 2]
      && (forall k :: 0 <= k < |parts| ==> parts[k].0 != 0)
      && (|parts| == 2 ==> Rank(parts[0].1) < Rank(parts[1].1) && Size(parts[0].1) > Size(parts[1].1))
  {
    var c := Decompose(t, Units);
    ShownPrefix(c, Units, 2);
    NonZeroFacts(c, Units);
    NonZeroOrdered(c, Units);
    var parts := AgeParts(t);
    if |parts| == 2 {
      LargerFirst(parts[0].1, parts[1].1);
    }
  }

  /** A positive duration shows something, and no duration shows nothing. */
  lemma AgeEmpty(t: int)
    ensures t == 0 ==> Age(t) == ""
    ensures t > 0 ==> |AgeParts(t)| >= 1
  {
    var c := Decompose(t, Units);
    GreedySplit(t);
    if t > 0 {
      ShownPrefix(c, Units, 2);
      SomeNonZero(c, Units);
    } else if t == 0 {
      ZeroCounts(Units);
      ShownPrefix(c, Units, 2);
    }
  }

  lemma {:induction false} ZeroCounts(us: seq<Unit>)
    ensures NonZero(Decompose(0, us), us) == []
    decreases |us|
  {
    if us != [] {
      ZeroCounts(us[1..]);
    }
  }

  lemma {:induction false} SomeNonZero(counts: seq<int>, us: seq<Unit>)
    requires |counts| == |us| && Total(counts, us) != 0
    ensures NonZero(counts, us) != []
    decreases |us|
  {
    if us != [] && counts[0] == 0 {
      SomeNonZero(counts[1..], us[1..]);
    }
  }

  /** A shown amount is pluralised exactly when it is more than one. */
  lemma Plural(n: int, u: Unit)
    ensures var p := Piece(n, u);
      (p[|p| - 1] == 's' <==> n > 1)
  {
    var w := Name(u);
    assert w[|w| - 1] != 's';
  }
}
