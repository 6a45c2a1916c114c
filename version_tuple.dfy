/** Version strings and their integer tuples: the two regular expressions
    the validator tests, `str2tuple` / `tuple2str` (`_convert_tuple`), and
    Python's lexicographic order on tuples of integers, which every sort,
    minimum and comparison of the tracker uses. */
module VersionTuple {
  import opened Errors
  import opened PyText

  // ---------------------------------------------------------------------
  // Python's order on tuples of integers

  /** `a < b` for Python tuples: the first differing component decides, and
      a proper prefix is smaller. */
  predicate LexLess(a: seq<int>, b: seq<int>) {
    if |a| == 0 then |b| > 0
    else if |b| == 0 then false
    else a[0] < b[0] || (a[0] == b[0] && LexLess(a[1..], b[1..]))
  }

  /** `a <= b` for Python tuples. */
  predicate LexLe(a: seq<int>, b: seq<int>) { LexLess(a, b) || a == b }

  lemma {:induction false} LexLessIrreflexive(a: seq<int>)
    ensures !LexLess(a, a)
  {
    if |a| > 0 { LexLessIrreflexive(a[1..]); }
  }

  lemma {:induction false} LexLessTransitive(a: seq<int>, b: seq<int>, c: seq<int>)
    requires LexLess(a, b) && LexLess(b, c)
    ensures LexLess(a, c)
  {
    if |a| > 0 && a[0] == b[0] && b[0] == c[0] {
      LexLessTransitive(a[1..], b[1..], c[1..]);
    }
  }

  /** Any two tuples are equal or ordered one way or the other. */
  lemma {:induction false} LexLessTotal(a: seq<int>, b: seq<int>)
    ensures a == b || LexLess(a, b) || LexLess(b, a)
  {
    if |a| > 0 && |b| > 0 && a[0] == b[0] {
      LexLessTotal(a[1..], b[1..]);
      if a[1..] == b[1..] {
        assert a == [a[0]] + a[1..];
        assert b == [b[0]] + b[1..];
      }
    }
  }

  lemma {:induction false} LexLessAsymmetric(a: seq<int>, b: seq<int>)
    requires LexLess(a, b)
    ensures !LexLess(b, a)
  {
    if |a| > 0 && a[0] == b[0] {
      LexLessAsymmetric(a[1..], b[1..]);
    }
  }

  // ---------------------------------------------------------------------
  // The two validator patterns

  /** `^\d+\.\d+\.\d+$` (ASCII digits, exact end of string). */
  predicate IsXYZ(s: string) {
    var p := SplitDot(s);
    |p| == 3 && IsDigits(p[0]) && IsDigits(p[1]) && IsDigits(p[2])
  }

  /** `^\d+\.\d+$` (ASCII digits, exact end of string). */
  predicate IsXY(s: string) {
    var p := SplitDot(s);
    |p| == 2 && IsDigits(p[0]) && IsDigits(p[1])
  }

  /** Appending `.0` to an `X.Y` string gives an `X.Y.Z` string. */
  lemma AppendZero(s: string)
    requires IsXY(s)
    ensures IsXYZ(s + ".0") && !IsXY(s + ".0")
    ensures SplitDot(s + ".0") == SplitDot(s) + ["0"]
  {
    SplitDotSnoc(s, "0");
    assert s + ".0" == s + "." + "0";
  }

  // ---------------------------------------------------------------------
  // str2tuple

  /** Every piece is accepted by `int()`. */
  predicate AllInts(parts: seq<string>) {
    forall i :: 0 <= i < |parts| ==> PyInt(parts[i]).Some?
  }

  /** `tuple(map(int, parts))`, None where some `int()` raises ValueError. */
  function ParseAll(parts: seq<string>): (r: Option<seq<int>>)
    ensures r.Some? <==> AllInts(parts)
    ensures r.Some? ==> |r.value| == |parts| && forall i :: 0 <= i < |parts| ==> PyInt(parts[i]) == Some(r.value[i])
  {
    if |parts| == 0 then Some([])
    else
      assert forall i :: 1 <= i < |parts| ==> parts[1..][i - 1] == parts[i];
      match (PyInt(parts[0]), ParseAll(parts[1..]))
      case (Some(x), Some(xs)) => Some([x] + xs)
      case _ => None
  }

  /** `str2tuple(s)`: split on '.', `int()` each piece, and insist on two or
      three components. A piece `int()` rejects is re-raised as "cannot be
      interpreted"; a wrong arity raises "Invalid version format for (...)"
      directly, because that exception is not a ValueError. */
  function Str2Tuple(s: string): (r: Result<seq<int>>)
    ensures r.Ok? <==> AllInts(SplitDot(s)) && (|SplitDot(s)| == 2 || |SplitDot(s)| == 3)
    ensures r.Ok? ==> |r.value| == |SplitDot(s)|
    ensures r.Ok? ==> forall i :: 0 <= i < |r.value| ==> PyInt(SplitDot(s)[i]) == Some(r.value[i])
    ensures r.Err? && !AllInts(SplitDot(s)) ==> r.error == NotInterpretable(s)
    ensures r.Err? && AllInts(SplitDot(s)) ==> r.error == InvalidTupleLength(s)
  {
    match ParseAll(SplitDot(s))
    case None => Err(NotInterpretable(s))
    case Some(t) => if |t| != 2 && |t| != 3 then Err(InvalidTupleLength(s)) else Ok(t)
  }

  /** An `X.Y.Z` string reads as the three decimal values of its pieces, an
      `X.Y` string as the two. */
  lemma PatternTuple(s: string)
    requires IsXYZ(s) || IsXY(s)
    ensures Str2Tuple(s).Ok?
    ensures |Str2Tuple(s).value| == (if IsXYZ(s) then 3 else 2)
    ensures forall i :: 0 <= i < |SplitDot(s)| ==> Str2Tuple(s).value[i] == DigitsValue(SplitDot(s)[i])
  {
    var p := SplitDot(s);
    assert forall i :: 0 <= i < |p| ==> IsDigits(p[i]);
    DigitPartsAreInts(p);
  }

  /** The decimal values of the dot-separated pieces of `s`. */
  function PieceValues(s: string): (r: seq<int>)
    ensures |r| == |SplitDot(s)|
    ensures forall i :: 0 <= i < |r| ==> r[i] == DigitsValue(SplitDot(s)[i])
  {
    seq(|SplitDot(s)|, i requires 0 <= i < |SplitDot(s)| => DigitsValue(SplitDot(s)[i]) as int)
  }

  /** A string of either pattern reads as the values of its pieces. */
  lemma PatternValues(s: string)
    requires IsXYZ(s) || IsXY(s)
    ensures Str2Tuple(s) == Ok(PieceValues(s))
  {
    PatternTuple(s);
    var t := Str2Tuple(s).value;
    assert |t| == |PieceValues(s)|;
    assert t == PieceValues(s);
  }

  /** `^\d+\.\d+\.\d+$`: three runs of digits joined by dots. */
  lemma XYZShape(s: string)
    ensures IsXYZ(s) <==> exists a, b, c :: IsDigits(a) && IsDigits(b) && IsDigits(c) && s == a + "." + b + "." + c
  {
    if IsXYZ(s) {
      var p := SplitDot(s);
      JoinSplitDot(s);
      assert p[1..][1..] == [p[2]];
      assert JoinDot(p[1..]) == p[1] + "." + p[2];
      assert JoinDot(p) == p[0] + "." + (p[1] + "." + p[2]);
      assert s == p[0] + "." + p[1] + "." + p[2];
    }
    forall a, b, c | IsDigits(a) && IsDigits(b) && IsDigits(c) && s == a + "." + b + "." + c
      ensures IsXYZ(s)
    {
      DigitsHaveNoDot(a); DigitsHaveNoDot(b); DigitsHaveNoDot(c);
      var p := [a, b, c];
      assert p[1..][1..] == [c];
      assert JoinDot(p[1..]) == b + "." + c;
      assert JoinDot(p) == a + "." + (b + "." + c);
      assert JoinDot(p) == s;
      SplitJoinDot(p);
    }
  }

  /** `^\d+\.\d+$`: two runs of digits joined by a dot. */
  lemma XYShape(s: string)
    ensures IsXY(s) <==> exists a, b :: IsDigits(a) && IsDigits(b) && s == a + "." + b
  {
    if IsXY(s) {
      var p := SplitDot(s);
      JoinSplitDot(s);
      assert s == p[0] + "." + p[1];
    }
    forall a, b | IsDigits(a) && IsDigits(b) && s == a + "." + b
      ensures IsXY(s)
    {
      DigitsHaveNoDot(a); DigitsHaveNoDot(b);
      var p := [a, b];
      assert JoinDot(p) == s;
      SplitJoinDot(p);
    }
  }

  lemma DigitsHaveNoDot(a: string)
    requires IsDigits(a)
    ensures '.' !in a
  {
  }

  lemma DigitPartsAreInts(p: seq<string>)
    requires forall i :: 0 <= i < |p| ==> IsDigits(p[i])
    ensures AllInts(p)
    ensures forall i :: 0 <= i < |p| ==> PyInt(p[i]) == Some(DigitsValue(p[i]))
  {
    forall i | 0 <= i < |p| ensures PyInt(p[i]) == Some(DigitsValue(p[i])) { DigitsAreInt(p[i]); }
  }

  // ---------------------------------------------------------------------
  // tuple2str

  /** `tuple2str(s)` as written: `'.'.join(map(int, s.split('.')))`. The
      join is handed integers, so it raises TypeError, which the
      `except ValueError` around it does not catch, whenever every piece is
      an integer; otherwise `int()` fails first and the ValueError is
      re-raised. It never returns. */
  function Tuple2StrAsWritten(s: string): (r: Result<string>)
    ensures r.Err?
    ensures r.error == JoinTypeError <==> AllInts(SplitDot(s))
    ensures r.error != JoinTypeError ==> r.error == NotInterpretable(s)
  {
    match ParseAll(SplitDot(s))
    case None => Err(NotInterpretable(s))
    case Some(_) => Err(JoinTypeError)
  }

  /** `'.'.join(map(str, t))`. */
  function FormatTuple(t: seq<int>): string {
    JoinDot(seq(|t|, i requires 0 <= i < |t| => IntToString(t[i])))
  }


  /** Writing a two- or three-component tuple and reading it back gives the
      tuple: `str2tuple(tuple2str(t)) == t`. */
  lemma FormatTupleRoundTrip(t: seq<int>)
    requires |t| == 2 || |t| == 3
    ensures Str2Tuple(FormatTuple(t)) == Ok(t)
  {
    var parts := seq(|t|, i requires 0 <= i < |t| => IntToString(t[i]));
    SplitJoinDot(parts);
    assert SplitDot(FormatTuple(t)) == parts;
    forall i | 0 <= i < |t| ensures PyInt(parts[i]) == Some(t[i]) {
      IntToStringRoundTrip(t[i]);
    }
    assert AllInts(parts);
    var r := Str2Tuple(FormatTuple(t));
    assert r.Ok?;
    assert r.value == t;
  }

  /** `tuple2str(s)` as evidently intended: the version read as integers
      and written back with `str()`, in the same two or three components.
      It succeeds exactly where `str2tuple` does, and its result reads as
      the same tuple. */
  function Tuple2Str(s: string): (r: Result<string>)
    ensures r.Ok? <==> Str2Tuple(s).Ok?
    ensures r.Err? ==> r.error == Str2Tuple(s).error
    ensures r.Ok? ==> Str2Tuple(r.value) == Str2Tuple(s)
  {
    var t :- Str2Tuple(s);
    FormatTupleRoundTrip(t);
    Ok(FormatTuple(t))
  }

  /** A decimal numeral without a superfluous leading zero. */
  predicate IsCanonicalNumeral(p: string) {
    IsDigits(p) && (|p| == 1 || p[0] != '0')
  }

  lemma {:induction false} NumeralPositive(p: string)
    requires IsDigits(p) && p[0] != '0'
    ensures DigitsValue(p) > 0
  {
    if |p| > 1 {
      var q := p[..|p| - 1];
      assert q[0] == p[0];
      NumeralPositive(q);
    }
  }

  /** A canonical numeral is what `str()` writes for its value. */
  lemma {:induction false} CanonicalNumeral(p: string)
    requires IsCanonicalNumeral(p)
    ensures NatToString(DigitsValue(p)) == p
  {
    if |p| > 1 {
      var q := p[..|p| - 1];
      var d := p[|p| - 1] as int - '0' as int;
      assert q[0] == p[0];
      assert IsDigits(q);
      NumeralPositive(q);
      CanonicalNumeral(q);
      var n := DigitsValue(p);
      assert n == 10 * DigitsValue(q) + d;
      assert n / 10 == DigitsValue(q) && n % 10 == d;
      assert DigitChar(d) == p[|p| - 1];
      assert p == q + [p[|p| - 1]];
    } else {
      assert DigitChar(DigitsValue(p)) == p[0];
    }
  }

  /** A version string of two or three canonical numerals. */
  predicate IsCanonicalVersion(s: string) {
    var p := SplitDot(s);
    (|p| == 2 || |p| == 3) && forall i :: 0 <= i < |p| ==> IsCanonicalNumeral(p[i])
  }

  /** On canonical version strings the intended `tuple2str` is the identity:
      `tuple2str(str2tuple(s)) == s`. */
  lemma CanonicalVersionRoundTrip(s: string)
    requires IsCanonicalVersion(s)
    ensures Str2Tuple(s).Ok?
    ensures FormatTuple(Str2Tuple(s).value) == s
    ensures Tuple2Str(s) == Ok(s)
  {
    var p := SplitDot(s);
    assert forall i :: 0 <= i < |p| ==> IsDigits(p[i]);
    PatternValues(s);
    CanonicalPieces(s);
  }

  /** The pieces of a canonical version are written back as themselves. */
  lemma CanonicalPieces(s: string)
    requires IsCanonicalVersion(s)
    ensures FormatTuple(PieceValues(s)) == s
  {
    var p := SplitDot(s);
    var t := PieceValues(s);
    var parts := seq(|t|, i requires 0 <= i < |t| => IntToString(t[i]));
    forall i | 0 <= i < |t| ensures parts[i] == p[i] {
      CanonicalNumeral(p[i]);
    }
    assert parts == p;
    JoinSplitDot(s);
  }

  lemma FormatThreeNine()
    ensures FormatTuple([3, 9]) == "3.9"
  {
    var parts := seq(2, i requires 0 <= i < 2 => IntToString([3, 9][i]));
    assert parts == ["3", "9"];
    assert parts[1..] == ["9"];
    assert JoinDot(parts) == "3" + "." + "9";
  }

  lemma FormatThreeTen()
    ensures FormatTuple([3, 10]) == "3.10"
  {
    assert NatToString(1) == "1" && DigitChar(0) == '0';
    assert NatToString(10) == "10";
    var parts := seq(2, i requires 0 <= i < 2 => IntToString([3, 10][i]));
    assert parts == ["3", "10"];
    assert parts[1..] == ["10"];
    assert JoinDot(parts) == "3" + "." + "10";
  }

  /** Tuples order "3.9" before "3.10" (character by character the strings
      would compare the other way, '1' < '9'). */
  lemma TwoDigitMinorSortsLater()
    ensures Str2Tuple("3.9") == Ok([3, 9]) && Str2Tuple("3.10") == Ok([3, 10])
    ensures LexLess([3, 9], [3, 10])
  {
    FormatThreeNine();
    FormatThreeTen();
    FormatTupleRoundTrip([3, 9]);
    FormatTupleRoundTrip([3, 10]);
  }
}
