/** Cell values of a pandas table, the order pandas uses to break ties between
    them, and the exceptions the cleaning passes can raise. */
module Values {

  datatype Option<+T> = None | Some(value: T)

  datatype Result<+T, +E> = Ok(value: T) | Err(error: E)

  /** A non-missing cell: a number (float64/int64 in the source, a real here)
      or a string. */
  datatype Value = Num(x: real) | Str(s: string)

  /** A table cell; None is pandas' missing value, NaN as read_csv gives it. */
  type Cell = Option<Value>

  /** The exceptions the passes raise: a KeyError for a column a row lacks, a
      TypeError from comparing a string age with a band bound, and the
      KeyError of `mode()[0]` on a column without any non-missing value. */
  datatype Error =
    | MissingColumn(name: string)
    | IncomparableAge(position: nat)
    | NoMode(column: string)

  /** Python's `<` on str: lexicographic by code point. */
  predicate StrLess(a: string, b: string)
  {
    if |a| == 0 then |b| > 0
    else if |b| == 0 then false
    else if a[0] != b[0] then a[0] < b[0]
    else StrLess(a[1..], b[1..])
  }

  /** The order in which pandas sorts tied modes: numbers by value, strings by
      code point, and numbers before strings. */
  predicate Less(u: Value, v: Value)
  {
    match (u, v)
    case (Num(x), Num(y)) => x < y
    case (Num(_), Str(_)) => true
    case (Str(_), Num(_)) => false
    case (Str(a), Str(b)) => StrLess(a, b)
  }

  lemma {:induction false} StrLessIrreflexive(a: string)
    ensures !StrLess(a, a)
  {
    if |a| > 0 { StrLessIrreflexive(a[1..]); }
  }

  lemma {:induction false} StrLessTransitive(a: string, b: string, c: string)
    requires StrLess(a, b) && StrLess(b, c)
    ensures StrLess(a, c)
  {
    if |a| > 0 && |b| > 0 && |c| > 0 && a[0] == b[0] && b[0] == c[0] {
      StrLessTransitive(a[1..], b[1..], c[1..]);
    }
  }

  lemma {:induction false} StrLessTotal(a: string, b: string)
    ensures a == b || StrLess(a, b) || StrLess(b, a)
  {
    if |a| > 0 && |b| > 0 && a[0] == b[0] {
      StrLessTotal(a[1..], b[1..]);
      if a[1..] == b[1..] {
        assert a == [a[0]] + a[1..] && b == [b[0]] + b[1..];
      }
    }
  }

  /** Less is a strict total order on values, so "the smallest tied value" is
      well defined. */
  lemma LessIsStrictTotalOrder(u: Value, v: Value, w: Value)
    ensures !Less(u, u)
    ensures Less(u, v) && Less(v, w) ==> Less(u, w)
    ensures u == v || Less(u, v) || Less(v, u)
  {
    if u.Str? { StrLessIrreflexive(u.s); }
    if u.Str? && v.Str? {
      StrLessTotal(u.s, v.s);
      if w.Str? && Less(u, v) && Less(v, w) { StrLessTransitive(u.s, v.s, w.s); }
    }
  }
}
