/**
 * The order IterNodes sorts attribute values by (graph.go:125-150): Go's
 * sort.StringSlice, sort.IntSlice and sort.Float64Slice. Strings compare
 * lexicographically by character; since UTF-8 preserves code point order this
 * is Go's byte-wise string order.
 */
module Ordering {

  import opened Attributes

  /** The kinds IterNodes can sort. */
  predicate Sortable(v: Value)
  {
    v.Str? || v.Int? || v.Float?
  }

  predicate SameKind(a: Value, b: Value)
  {
    (a.Str? && b.Str?) || (a.Int? && b.Int?) || (a.Float? && b.Float?)
  }

  /** Lexicographic order on strings: a prefix comes first. */
  predicate StrLe(a: string, b: string)
  {
    |a| == 0 || (|b| > 0 && (a[0] < b[0] || (a[0] == b[0] && StrLe(a[1..], b[1..]))))
  }

  /** a sorts no later than b; values of different kinds are not ordered. */
  predicate Le(a: Value, b: Value)
  {
    match (a, b)
    case (Str(x), Str(y)) => StrLe(x, y)
    case (Int(x), Int(y)) => x <= y
    case (Float(x), Float(y)) => x <= y
    case _ => false
  }

  lemma {:induction false} StrLeRefl(a: string)
    ensures StrLe(a, a)
  {
    if |a| > 0 {
      StrLeRefl(a[1..]);
    }
  }

  lemma {:induction false} StrLeTotal(a: string, b: string)
    ensures StrLe(a, b) || StrLe(b, a)
  {
    if |a| > 0 && |b| > 0 && a[0] == b[0] {
      StrLeTotal(a[1..], b[1..]);
    }
  }

  lemma {:induction false} StrLeTrans(a: string, b: string, c: string)
    requires StrLe(a, b) && StrLe(b, c)
    ensures StrLe(a, c)
  {
    if |a| > 0 && a[0] == b[0] && b[0] == c[0] {
      StrLeTrans(a[1..], b[1..], c[1..]);
    }
  }

  lemma {:induction false} StrLeAntisym(a: string, b: string)
    requires StrLe(a, b) && StrLe(b, a)
    ensures a == b
  {
    if |a| > 0 && |b| > 0 {
      StrLeAntisym(a[1..], b[1..]);
      assert a == [a[0]] + a[1..] && b == [b[0]] + b[1..];
    }
  }

  /** On values of one sortable kind, Le is a total order: reflexive, total, antisymmetric, transitive. */
  lemma LeRefl(a: Value)
    requires Sortable(a)
    ensures Le(a, a)
  {
    if a.Str? {
      StrLeRefl(a.s);
    }
  }

  lemma LeTotal(a: Value, b: Value)
    requires Sortable(a) && SameKind(a, b)
    ensures Le(a, b) || Le(b, a)
  {
    if a.Str? {
      StrLeTotal(a.s, b.s);
    }
  }

  lemma LeAntisym(a: Value, b: Value)
    requires Le(a, b) && Le(b, a)
    ensures a == b
  {
    if a.Str? {
      StrLeAntisym(a.s, b.s);
    }
  }

  lemma LeTrans(a: Value, b: Value, c: Value)
    requires Le(a, b) && Le(b, c)
    ensures Le(a, c)
  {
    if a.Str? {
      StrLeTrans(a.s, b.s, c.s);
    }
  }

  /** Every value in the set is sortable and all are of one kind. */
  ghost predicate OneSortableKind(s: set<Value>)
  {
    (forall v :: v in s ==> Sortable(v)) && (forall v, w :: v in s && w in s ==> SameKind(v, w))
  }

  /** A finite set of values of one sortable kind has a least element (what sort.Sort puts first). */
  lemma {:induction false} LeastExists(s: set<Value>)
    requires s != {} && OneSortableKind(s)
    ensures exists m :: m in s && forall w :: w in s ==> Le(m, w)
  {
    var x :| x in s;
    var rest := s - {x};
    if rest == {} {
      LeRefl(x);
      forall w | w in s ensures Le(x, w) {
        assert w !in rest;
      }
    } else {
      assert OneSortableKind(rest);
      LeastExists(rest);
      var m :| m in rest && forall w :: w in rest ==> Le(m, w);
      LeastInsert(s, x, m);
    }
  }

  /** Adding x to a set whose least element is m leaves x or m least. */
  lemma LeastInsert(s: set<Value>, x: Value, m: Value)
    requires OneSortableKind(s) && x in s && m in s - {x}
    requires forall w :: w in s - {x} ==> Le(m, w)
    ensures exists l :: l in s && forall w :: w in s ==> Le(l, w)
  {
    LeTotal(x, m);
    if Le(x, m) {
      LeRefl(x);
      forall w | w in s ensures Le(x, w) {
        if w != x {
          LeTrans(x, m, w);
        }
      }
    } else {
      forall w | w in s ensures Le(m, w) {
        if w == x {
          assert Le(m, x);
        }
      }
    }
  }
}
