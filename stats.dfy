/** The two column statistics the cleaning passes fill missing cells with:
    pandas' `Series.mode()[0]` and `Series.median()`, both taken over the
    non-missing cells only. */
module Stats {
  import opened Values

  /** Number of cells of `s` that hold `v`. */
  function Count(s: seq<Cell>, v: Value): (n: nat)
    ensures n <= |s|
  {
    if s == [] then 0 else (if s[0] == Some(v) then 1 else 0) + Count(s[1..], v)
  }

  lemma {:induction false} CountPositive(s: seq<Cell>, v: Value)
    ensures Count(s, v) > 0 <==> Some(v) in s
  {
    if s != [] {
      CountPositive(s[1..], v);
      assert s == [s[0]] + s[1..];
    }
  }

  /** `v` ranks above `w` in `s`: it is more frequent, or as frequent and
      smaller. */
  predicate Beats(s: seq<Cell>, v: Value, w: Value)
  {
    Count(s, v) > Count(s, w) || (Count(s, v) == Count(s, w) && Less(v, w))
  }

  lemma BeatsIsStrictTotalOrder(s: seq<Cell>, u: Value, v: Value, w: Value)
    ensures !Beats(s, u, u)
    ensures Beats(s, u, v) && Beats(s, v, w) ==> Beats(s, u, w)
    ensures u != v ==> Beats(s, u, v) || Beats(s, v, u)
    ensures !(Beats(s, u, v) && Beats(s, v, u))
  {
    LessIsStrictTotalOrder(u, v, w);
    LessIsStrictTotalOrder(u, v, u);
  }

  /** What `mode()[0]` returns: a value that occurs in the column, occurs at
      least as often as any other, and is the smallest of those that occur
      equally often. */
  ghost predicate IsMode(s: seq<Cell>, v: Value)
  {
    Count(s, v) > 0 && forall w :: w != v ==> Beats(s, v, w)
  }

  /** A column has at most one mode. */
  lemma ModeUnique(s: seq<Cell>, v: Value, w: Value)
    requires IsMode(s, v) && IsMode(s, w)
    ensures v == w
  {
    if v != w {
      BeatsIsStrictTotalOrder(s, v, w, v);
    }
  }

  /** The top-ranked value (by Beats, counts taken in `s`) among the cells
      of `vals`. */
  function Best(s: seq<Cell>, vals: seq<Cell>): (r: Option<Value>)
    ensures r.None? <==> forall j :: 0 <= j < |vals| ==> vals[j].None?
    ensures r.Some? ==> Some(r.value) in vals
    decreases |vals|
  {
    if vals == [] then None
    else
      var rest := Best(s, vals[1..]);
      match vals[0]
      case None => rest
      case Some(v) => if rest.Some? && Beats(s, rest.value, v) then rest else Some(v)
  }

  lemma {:induction false} BestBeatsAll(s: seq<Cell>, vals: seq<Cell>)
    ensures Best(s, vals).Some? ==>
      forall j :: 0 <= j < |vals| && vals[j].Some? && vals[j].value != Best(s, vals).value ==>
        Beats(s, Best(s, vals).value, vals[j].value)
    decreases |vals|
  {
    if vals != [] {
      BestBeatsAll(s, vals[1..]);
      var rest := Best(s, vals[1..]);
      var r := Best(s, vals);
      if r.Some? {
        forall j | 0 <= j < |vals| && vals[j].Some? && vals[j].value != r.value
          ensures Beats(s, r.value, vals[j].value)
        {
          if j > 0 {
            assert vals[j] == vals[1..][j - 1];
            if rest.Some? && rest.value != vals[j].value {
              BeatsIsStrictTotalOrder(s, r.value, rest.value, vals[j].value);
            } else {
              BeatsIsStrictTotalOrder(s, r.value, vals[j].value, vals[j].value);
            }
          }
        }
      }
    }
  }

  /** pandas' `mode()[0]`: None exactly when the column has no non-missing
      cell (where pandas raises), and otherwise the column's mode. */
  function Mode(s: seq<Cell>): (r: Option<Value>)
    ensures r.None? <==> forall i :: 0 <= i < |s| ==> s[i].None?
    ensures r.Some? ==> Some(r.value) in s && IsMode(s, r.value)
  {
    var r := Best(s, s);
    if r.None? then r
    else
      BestBeatsAll(s, s);
      CountPositive(s, r.value);
      assert forall w :: w != r.value ==> Beats(s, r.value, w) by {
        forall w | w != r.value ensures Beats(s, r.value, w) {
          CountPositive(s, w);
          if Some(w) in s {
            var j :| 0 <= j < |s| && s[j] == Some(w);
          }
        }
      }
      r
  }

  /** The numbers among the non-missing cells, in order. */
  function Nums(s: seq<Cell>): (xs: seq<real>)
    ensures |xs| <= |s|
    ensures |xs| == 0 <==> forall i :: 0 <= i < |s| ==> s[i].None? || !s[i].value.Num?
    ensures forall x :: multiset(xs)[x] == Count(s, Num(x))
  {
    if s == [] then []
    else (if s[0].Some? && s[0].value.Num? then [s[0].value.x] else []) + Nums(s[1..])
  }

  predicate Sorted(xs: seq<real>)
  {
    forall i, j :: 0 <= i < j < |xs| ==> xs[i] <= xs[j]
  }

  /** Number of elements `<= m`, and number of elements `>= m`. */
  function CountAtMost(xs: seq<real>, m: real): nat
  {
    if xs == [] then 0 else (if xs[0] <= m then 1 else 0) + CountAtMost(xs[1..], m)
  }

  function CountAtLeast(xs: seq<real>, m: real): nat
  {
    if xs == [] then 0 else (if xs[0] >= m then 1 else 0) + CountAtLeast(xs[1..], m)
  }

  /** Inserts `x` into an ascending sequence. */
  function Insert(x: real, xs: seq<real>): (r: seq<real>)
    requires Sorted(xs)
    ensures Sorted(r) && |r| == |xs| + 1
    ensures forall y :: y in r <==> y == x || y in xs
  {
    if xs == [] || x <= xs[0] then [x] + xs
    else
      var t := Insert(x, xs[1..]);
      assert forall i :: 0 <= i < |t| ==> t[i] >= xs[0] by {
        forall i | 0 <= i < |t| ensures t[i] >= xs[0] {
          assert t[i] in t;
          if t[i] != x {
            var k :| 0 <= k < |xs[1..]| && xs[1..][k] == t[i];
            assert xs[k + 1] == t[i];
          }
        }
      }
      [xs[0]] + t
  }

  function Sort(xs: seq<real>): (r: seq<real>)
    ensures Sorted(r) && |r| == |xs|
  {
    if xs == [] then [] else Insert(xs[0], Sort(xs[1..]))
  }

  lemma {:induction false} InsertCounts(x: real, xs: seq<real>, m: real)
    requires Sorted(xs)
    ensures CountAtMost(Insert(x, xs), m) == (if x <= m then 1 else 0) + CountAtMost(xs, m)
    ensures CountAtLeast(Insert(x, xs), m) == (if x >= m then 1 else 0) + CountAtLeast(xs, m)
  {
    if xs == [] || x <= xs[0] {
      assert ([x] + xs)[1..] == xs;
    } else {
      InsertCounts(x, xs[1..], m);
      assert ([xs[0]] + Insert(x, xs[1..]))[1..] == Insert(x, xs[1..]);
    }
  }

  /** Sorting keeps how many elements lie on each side of any threshold. */
  lemma {:induction false} SortCounts(xs: seq<real>, m: real)
    ensures CountAtMost(Sort(xs), m) == CountAtMost(xs, m)
    ensures CountAtLeast(Sort(xs), m) == CountAtLeast(xs, m)
  {
    if xs != [] {
      SortCounts(xs[1..], m);
      InsertCounts(xs[0], Sort(xs[1..]), m);
    }
  }

  lemma {:induction false} SortedAtMost(xs: seq<real>, k: nat, m: real)
    requires Sorted(xs) && k < |xs| && xs[k] <= m
    ensures CountAtMost(xs, m) >= k + 1
  {
    if k > 0 {
      SortedAtMost(xs[1..], k - 1, m);
    }
  }

  lemma {:induction false} SortedAtLeast(xs: seq<real>, k: nat, m: real)
    requires Sorted(xs) && k < |xs| && xs[k] >= m
    ensures CountAtLeast(xs, m) >= |xs| - k
  {
    if k > 0 {
      SortedAtLeast(xs[1..], k - 1, m);
    } else if |xs| > 1 {
      SortedAtLeast(xs[1..], 0, m);
    }
  }

  /** pandas' `median()`: None when there is no number (pandas yields NaN),
      else the middle of the sorted numbers or the mean of the two middle
      ones. */
  function Median(s: seq<Cell>): (r: Option<real>)
    ensures r.None? <==> Nums(s) == []
  {
    var xs := Sort(Nums(s));
    var n := |xs|;
    if n == 0 then None
    else if n % 2 == 1 then Some(xs[n / 2])
    else Some((xs[n / 2 - 1] + xs[n / 2]) / 2.0)
  }

  /** The median splits the numbers of the column in half: at least half are
      at most the median and at least half are at least the median; it is
      missing only when the column holds no number. */
  lemma MedianSplits(s: seq<Cell>)
    ensures Median(s).None? <==> |Nums(s)| == 0
    ensures Median(s).Some? ==>
      2 * CountAtMost(Nums(s), Median(s).value) >= |Nums(s)| &&
      2 * CountAtLeast(Nums(s), Median(s).value) >= |Nums(s)|
  {
    var xs := Sort(Nums(s));
    var n := |xs|;
    if n > 0 {
      var m := Median(s).value;
      SortCounts(Nums(s), m);
      if n % 2 == 1 {
        SortedAtMost(xs, n / 2, m);
        SortedAtLeast(xs, n / 2, m);
      } else {
        assert xs[n / 2 - 1] <= xs[n / 2];
        SortedAtMost(xs, n / 2 - 1, m);
        SortedAtLeast(xs, n / 2, m);
      }
    }
  }
}
