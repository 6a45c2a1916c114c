/** `sorted(versions, key=str2tuple)` and `versions.index(v)`: a stable sort
    of version strings by their integer tuples, and the part of the sorted
    list that lies before the first occurrence of a given version. */
module VersionSort {
  import opened Errors
  import opened PyText
  import opened VersionTuple

  /** The sort key of `s`: its tuple, where `str2tuple` succeeds. */
  function Key(s: string): seq<int> {
    var t := Str2Tuple(s);
    if t.Ok? then t.value else []
  }

  /** Versions of the two patterns compare as the integer values of their
      pieces, component by component, whatever the number of digits: `3.9`
      sorts before `3.10`, and `3.10` before `3.10.0`. */
  lemma NumericOrder(a: string, b: string)
    requires IsXYZ(a) || IsXY(a)
    requires IsXYZ(b) || IsXY(b)
    ensures LexLess(Key(a), Key(b)) <==> LexLess(PieceValues(a), PieceValues(b))
  {
    PatternValues(a);
    PatternValues(b);
  }

  /** Two `X.Y` versions with the same major value order by the integer
      value of their minor pieces. */
  lemma MinorOrder(a: string, b: string)
    requires IsXY(a) && IsXY(b)
    requires DigitsValue(SplitDot(a)[0]) == DigitsValue(SplitDot(b)[0])
    ensures LexLess(Key(a), Key(b)) <==> DigitsValue(SplitDot(a)[1]) < DigitsValue(SplitDot(b)[1])
  {
    NumericOrder(a, b);
    var pa, pb := PieceValues(a), PieceValues(b);
    assert |pa| == 2 && |pb| == 2;
    assert pa[0] == pb[0];
    assert pa[1] == DigitsValue(SplitDot(a)[1]) && pb[1] == DigitsValue(SplitDot(b)[1]);
    TwoComponentOrder(pa, pb);
  }

  lemma TwoComponentOrder(a: seq<int>, b: seq<int>)
    requires |a| == 2 && |b| == 2 && a[0] == b[0]
    ensures LexLess(a, b) <==> a[1] < b[1]
  {
    var a', b' := a[1..], b[1..];
    assert a'[1..] == [] && b'[1..] == [];
    assert !LexLess(a'[1..], b'[1..]);
    assert LexLess(a', b') <==> a'[0] < b'[0];
    assert LexLess(a, b) <==> LexLess(a', b');
  }

  /** `sorted` computes every key, left to right, before it compares any:
      the first key that fails is the error of the whole sort. */
  function CheckKeys(vs: seq<string>, parse: string -> Result<seq<int>>): (r: Result<()>)
    ensures r.Ok? <==> forall i :: 0 <= i < |vs| ==> parse(vs[i]).Ok?
    ensures r.Err? ==> exists i :: (0 <= i < |vs| && parse(vs[i]) == Err(r.error)
      && forall j :: 0 <= j < i ==> parse(vs[j]).Ok?)
  {
    if |vs| == 0 then Ok(())
    else
      assert forall i :: 1 <= i < |vs| ==> vs[1..][i - 1] == vs[i];
      var _ :- parse(vs[0]);
      var u := CheckKeys(vs[1..], parse);
      if u.Err? then
        ghost var i :| 0 <= i < |vs| - 1 && parse(vs[1..][i]) == Err(u.error)
          && forall j :: 0 <= j < i ==> parse(vs[1..][j]).Ok?;
        assert parse(vs[i + 1]) == Err(u.error);
        u
      else Ok(())
  }

  /** Non-decreasing in key order. */
  predicate Sorted(t: seq<string>, key: string -> seq<int>) {
    forall i, j :: 0 <= i < j < |t| ==> !LexLess(key(t[j]), key(t[i]))
  }

  /** Insert `x` before the first element whose key is not smaller than its own. */
  function Insert(x: string, t: seq<string>, key: string -> seq<int>): (r: seq<string>)
    ensures multiset(r) == multiset([x] + t)
    ensures forall y :: y in r <==> y == x || y in t
  {
    if |t| == 0 then [x]
    else if !LexLess(key(t[0]), key(x)) then [x] + t
    else
      var r := [t[0]] + Insert(x, t[1..], key);
      assert t == [t[0]] + t[1..];
      assert forall y :: y in t <==> y == t[0] || y in t[1..];
      r
  }

  /** A stable insertion sort by key: each element goes in front of the
      elements, sorted already, that follow it in the input and have a key at
      least its own. */
  function Sort(s: seq<string>, key: string -> seq<int>): seq<string> {
    if |s| == 0 then [] else Insert(s[0], Sort(s[1..], key), key)
  }

  /** `sorted(vs, key=str2tuple)`. */
  function SortedByTuple(vs: seq<string>): (r: Result<seq<string>>)
    ensures r.Ok? <==> forall i :: 0 <= i < |vs| ==> Str2Tuple(vs[i]).Ok?
    ensures r.Ok? ==> r.value == Sort(vs, Key)
    ensures r.Ok? ==> Sorted(r.value, Key) && multiset(r.value) == multiset(vs)
  {
    var _ :- CheckKeys(vs, Str2Tuple);
    SortIsSortedPermutation(vs, Key);
    Ok(Sort(vs, Key))
  }

  // ---------------------------------------------------------------------
  // Order facts used below

  /** `<=` on tuples is transitive. */
  lemma NotLessTransitive(a: seq<int>, b: seq<int>, c: seq<int>)
    requires !LexLess(b, a) && !LexLess(c, b)
    ensures !LexLess(c, a)
  {
    if LexLess(c, a) {
      LexLessTotal(a, b);
      if a != b {
        LexLessTransitive(c, a, b);
      }
    }
  }

  lemma SortedTail(t: seq<string>, key: string -> seq<int>)
    requires Sorted(t, key) && |t| > 0
    ensures Sorted(t[1..], key)
    ensures forall y :: y in t ==> !LexLess(key(y), key(t[0]))
  {
    forall y | y in t ensures !LexLess(key(y), key(t[0])) {
      var j :| 0 <= j < |t| && t[j] == y;
      if j == 0 { LexLessIrreflexive(key(y)); }
    }
  }

  lemma SortedCons(x: string, t: seq<string>, key: string -> seq<int>)
    requires Sorted(t, key)
    requires forall y :: y in t ==> !LexLess(key(y), key(x))
    ensures Sorted([x] + t, key)
  {
    var u := [x] + t;
    forall i, j | 0 <= i < j < |u| ensures !LexLess(key(u[j]), key(u[i])) {
      if i == 0 {
        assert u[j] == t[j - 1];
        assert t[j - 1] in t;
      } else {
        assert u[i] == t[i - 1] && u[j] == t[j - 1];
      }
    }
  }

  lemma {:induction false} InsertSorted(x: string, t: seq<string>, key: string -> seq<int>)
    requires Sorted(t, key)
    ensures Sorted(Insert(x, t, key), key)
  {
    if |t| > 0 {
      SortedTail(t, key);
      if !LexLess(key(t[0]), key(x)) {
        forall y | y in t ensures !LexLess(key(y), key(x)) {
          NotLessTransitive(key(x), key(t[0]), key(y));
        }
        SortedCons(x, t, key);
      } else {
        InsertSorted(x, t[1..], key);
        forall y | y in Insert(x, t[1..], key) ensures !LexLess(key(y), key(t[0])) {
          if y == x {
            LexLessAsymmetric(key(t[0]), key(x));
          } else {
            assert y in t;
          }
        }
        SortedCons(t[0], Insert(x, t[1..], key), key);
      }
    }
  }

  /** The sort yields a sorted permutation of its input. */
  lemma {:induction false} SortIsSortedPermutation(s: seq<string>, key: string -> seq<int>)
    ensures Sorted(Sort(s, key), key)
    ensures multiset(Sort(s, key)) == multiset(s)
  {
    if |s| > 0 {
      SortIsSortedPermutation(s[1..], key);
      InsertSorted(s[0], Sort(s[1..], key), key);
      assert s == [s[0]] + s[1..];
    }
  }

  lemma SortMembers(s: seq<string>, key: string -> seq<int>)
    ensures forall x :: x in Sort(s, key) <==> x in s
  {
    SortIsSortedPermutation(s, key);
    forall x ensures x in Sort(s, key) <==> x in s {
      assert x in Sort(s, key) <==> x in multiset(Sort(s, key));
      assert x in s <==> x in multiset(s);
    }
  }

  // ---------------------------------------------------------------------
  // versions[:versions.index(v)]

  /** `t.index(x)`: the first position of `x`, or None where Python raises ValueError. */
  function IndexOf(t: seq<string>, x: string): (r: Option<nat>)
    ensures r.Some? <==> x in t
    ensures r.Some? ==> r.value < |t| && t[r.value] == x && x !in t[..r.value]
  {
    if |t| == 0 then None
    else if t[0] == x then Some(0)
    else
      match IndexOf(t[1..], x)
      case None => None
      case Some(i) =>
        assert t[..i + 1] == [t[0]] + t[1..][..i];
        Some(i + 1)
  }

  /** `t[:t.index(x)]`: what precedes the first occurrence of `x`. */
  function Before(t: seq<string>, x: string): (r: seq<string>)
    requires x in t
    ensures |r| < |t| && r == t[..|r|] && t[|r|] == x && x !in r
  {
    t[..IndexOf(t, x).value]
  }

  lemma BeforeHead(t: seq<string>, x: string)
    ensures Before([x] + t, x) == []
  {
  }

  lemma BeforeCons(y: string, t: seq<string>, x: string)
    requires x in t && y != x
    ensures Before([y] + t, x) == [y] + Before(t, x)
  {
    assert ([y] + t)[1..] == t;
  }

  /** Where an element other than `v` is inserted into a sorted list that
      holds `v`, relative to the first occurrence of `v`. */
  lemma {:induction false} InsertBeforeOther(a: string, t: seq<string>, v: string, x: string, key: string -> seq<int>)
    requires Sorted(t, key) && v in t && a != v
    ensures v in Insert(a, t, key)
    ensures x in Before(Insert(a, t, key), v) <==> (x == a && LexLe(key(a), key(v))) || x in Before(t, v)
  {
    SortedTail(t, key);
    if !LexLess(key(t[0]), key(a)) {
      BeforeCons(a, t, v);
      if x == a {
        NotLessTransitive(key(a), key(t[0]), key(v));
        LexLessTotal(key(a), key(v));
      }
    } else if t[0] == v {
      BeforeHead(Insert(a, t[1..], key), v);
      BeforeHead(t[1..], v);
      assert t == [v] + t[1..];
      if x == a {
        LexLessAsymmetric(key(v), key(a));
        LexLessIrreflexive(key(a));
      }
    } else {
      assert v in t[1..];
      InsertBeforeOther(a, t[1..], v, x, key);
      BeforeCons(t[0], Insert(a, t[1..], key), v);
      BeforeCons(t[0], t[1..], v);
      assert t == [t[0]] + t[1..];
    }
  }

  /** Inserting `v` itself into a sorted list puts exactly the elements with a
      smaller key in front of it. */
  lemma {:induction false} InsertBeforeSelf(v: string, t: seq<string>, x: string, key: string -> seq<int>)
    requires Sorted(t, key)
    ensures v in Insert(v, t, key)
    ensures x in Before(Insert(v, t, key), v) <==> x in t && LexLess(key(x), key(v))
  {
    if |t| == 0 {
      BeforeHead([], v);
    } else {
      SortedTail(t, key);
      if !LexLess(key(t[0]), key(v)) {
        BeforeHead(t, v);
        if x in t && LexLess(key(x), key(v)) {
          NotLessTransitive(key(v), key(t[0]), key(x));
        }
      } else {
        assert t[0] != v by { LexLessIrreflexive(key(v)); }
        InsertBeforeSelf(v, t[1..], x, key);
        BeforeCons(t[0], Insert(v, t[1..], key), v);
        assert t == [t[0]] + t[1..];
      }
    }
  }

  /** `v` is the first occurrence of itself, so what precedes it is (a) every
      element with a smaller key and (b) the elements with an equal key that
      precede `v` in the input — the sort being stable. */
  predicate InZoneBefore(vs: seq<string>, v: string, x: string, key: string -> seq<int>)
    requires v in vs
  {
    x in vs && (LexLess(key(x), key(v)) || (key(x) == key(v) && x in Before(vs, v)))
  }

  /** What precedes the first `v` in the stably sorted list. */
  lemma {:induction false} SortBefore(s: seq<string>, v: string, x: string, key: string -> seq<int>)
    requires v in s
    ensures v in Sort(s, key)
    ensures x in Before(Sort(s, key), v) <==> InZoneBefore(s, v, x, key)
  {
    var a, r := s[0], s[1..];
    assert s == [a] + r;
    SortIsSortedPermutation(r, key);
    SortMembers(r, key);
    if a == v {
      InsertBeforeSelf(v, Sort(r, key), x, key);
      BeforeHead(r, v);
      if x == v { LexLessIrreflexive(key(v)); }
    } else {
      assert v in r;
      SortBefore(r, v, x, key);
      InsertBeforeOther(a, Sort(r, key), v, x, key);
      BeforeCons(a, r, v);
      if x == a && !LexLe(key(a), key(v)) {
        assert !LexLess(key(a), key(v)) && key(a) != key(v);
      }
    }
  }
}
